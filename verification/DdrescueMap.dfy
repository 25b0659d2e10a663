/** ddrescue mapfiles: the blocks, and what they say about an image. */
module DdrescueMap {
  import opened Wrappers
  import opened MachineInts
  import opened ReadErrors

  datatype BlockStatus = NonTried | NonTrimmed | NonScraped | BadSector | Finished

  /** How a block is represented inside the image file. */
  function RangeKindOf(s: BlockStatus): Option<RangeKind> {
    match s
    case Finished => None
    case BadSector => Some(Substituted)
    case _ => Some(Unread)
  }

  datatype MapBlock = MapBlock(pos: u64, size: u64, status: BlockStatus) {
    function End(): nat {
      pos + size
    }

    predicate Holds(x: int) {
      pos <= x < End()
    }
  }

  /** Non-empty blocks in ascending order that do not overlap and end within u64. */
  predicate WellFormed(bs: seq<MapBlock>) {
    && (forall i :: 0 <= i < |bs| ==> bs[i].size > 0 && bs[i].End() <= U64_MAX)
    && (forall i, j :: 0 <= i < j < |bs| ==> bs[i].End() <= bs[j].pos)
  }

  /** The status of the block that lists a byte, if any does. */
  ghost function StatusAt(bs: seq<MapBlock>, x: int): Option<BlockStatus> {
    if exists b :: b in bs && b.Holds(x) then
      var b :| b in bs && b.Holds(x);
      Some(b.status)
    else None
  }

  lemma OneBlockHolds(bs: seq<MapBlock>, b: MapBlock, x: int)
    requires WellFormed(bs) && b in bs && b.Holds(x)
    ensures StatusAt(bs, x) == Some(b.status)
  {
  }

  // ---- Coverage ----

  function EndOfMap(bs: seq<MapBlock>): nat {
    if bs == [] then 0 else bs[|bs| - 1].End()
  }

  /** Where the scan stands after the first i blocks. */
  function Cursor(bs: seq<MapBlock>, i: nat): nat
    requires i <= |bs|
  {
    if i == 0 then 0 else bs[i - 1].End()
  }

  /** Every block starts where the one before it ends. */
  predicate Contiguous(bs: seq<MapBlock>) {
    && (bs != [] ==> bs[0].pos == 0)
    && forall i, j :: 0 <= i < |bs| && j == i + 1 && j < |bs| ==> bs[j].pos == bs[i].End()
  }

  method Covers(bs: seq<MapBlock>, size: u64) returns (r: bool)
    ensures r <==> Contiguous(bs) && EndOfMap(bs) == size
  {
    var cursor := 0;
    for i := 0 to |bs|
      invariant cursor == Cursor(bs, i)
      invariant i > 0 ==> bs[0].pos == 0
      invariant forall j, k :: 0 <= j < i && k == j + 1 && k < i ==> bs[k].pos == bs[j].End()
    {
      if bs[i].pos != cursor {
        return false;
      }
      cursor := bs[i].End();
    }
    r := cursor == size;
  }

  lemma {:induction false} ContiguousHolds(bs: seq<MapBlock>, n: nat, x: nat)
    requires n <= |bs| && Contiguous(bs) && x < Cursor(bs, n)
    ensures StatusAt(bs, x).Some?
    decreases n
  {
    var b := bs[n - 1];
    if n > 1 {
      assert bs[n - 2].End() == b.pos;
    }
    if x < b.pos {
      ContiguousHolds(bs, n - 1, x);
    } else {
      assert b in bs && b.Holds(x);
    }
  }

  /** A map covers [0, size) in the sense of the scan exactly when it lists precisely those bytes. */
  lemma CoversIffTiles(bs: seq<MapBlock>, size: u64)
    requires WellFormed(bs)
    ensures Contiguous(bs) && EndOfMap(bs) == size <==> forall x: nat :: StatusAt(bs, x).Some? <==> x < size
  {
    if Contiguous(bs) && EndOfMap(bs) == size {
      forall x: nat
        ensures StatusAt(bs, x).Some? <==> x < size
      {
        if x < size {
          ContiguousHolds(bs, |bs|, x);
        } else {
          NothingListedAfter(bs, x);
        }
      }
    }
    if forall x: nat :: StatusAt(bs, x).Some? <==> x < size {
      if bs != [] {
        GapNotListed(bs, 0);
      }
      forall i, j | 0 <= i < |bs| && j == i + 1 && j < |bs|
        ensures bs[j].pos == bs[i].End()
      {
        GapNotListed(bs, j);
      }
      if bs != [] {
        var last := bs[|bs| - 1];
        assert last.Holds(last.End() - 1) && last in bs;
        OneBlockHolds(bs, last, last.End() - 1);
        NothingListedAfter(bs, last.End());
      } else {
        assert StatusAt(bs, 0) == None;
      }
    }
  }

  lemma NothingListedAfter(bs: seq<MapBlock>, x: int)
    requires WellFormed(bs) && x >= EndOfMap(bs)
    ensures StatusAt(bs, x) == None
  {
  }

  /** The byte just before a block that does not follow on is not listed, and the block's own is. */
  lemma GapNotListed(bs: seq<MapBlock>, i: nat)
    requires WellFormed(bs) && i < |bs|
    ensures StatusAt(bs, bs[i].pos).Some?
    ensures bs[i].pos > Cursor(bs, i) ==> StatusAt(bs, bs[i].pos - 1) == None
  {
    assert bs[i] in bs && bs[i].Holds(bs[i].pos);
    if bs[i].pos > Cursor(bs, i) {
      forall b | b in bs
        ensures !b.Holds(bs[i].pos - 1)
      {
        var j :| 0 <= j < |bs| && bs[j] == b;
        assert j < i ==> j == i - 1 || bs[j].End() <= bs[i - 1].pos;
        assert i < j ==> bs[i].End() <= bs[j].pos;
      }
    }
  }

  // ---- Assessment of an image ----

  /** How a byte of the source is represented: as read (None), zero-filled, or not at all. */
  ghost function FateOf(bs: seq<MapBlock>, imageLen: u64, x: int): Option<RangeKind> {
    match StatusAt(bs, x)
    case None => Some(Unread)
    case Some(s) => if RangeKindOf(s) == Some(Unread) || x >= imageLen then Some(Unread) else RangeKindOf(s)
  }

  /** A byte is zero-filled exactly when a bad block lists it inside the image, and as read exactly when a
      rescued block does. */
  lemma FateMeans(bs: seq<MapBlock>, imageLen: u64, x: int)
    ensures FateOf(bs, imageLen, x) == Some(Substituted) <==> StatusAt(bs, x) == Some(BadSector) && x < imageLen
    ensures FateOf(bs, imageLen, x) == None <==> StatusAt(bs, x) == Some(Finished) && x < imageLen
  {
  }

  /** The table says of every byte of the source what the map and the image's length say. */
  ghost predicate TableSays(bs: seq<MapBlock>, expected: u64, imageLen: u64, rs: seq<ErrorRange>) {
    forall x: nat :: if x >= expected then KindAt(rs, x) == None else ByteSays(bs, imageLen, rs, x)
  }

  ghost predicate ByteSays(bs: seq<MapBlock>, imageLen: u64, rs: seq<ErrorRange>, x: nat) {
    && (KindAt(rs, x) == None <==> StatusAt(bs, x) == Some(Finished) && x < imageLen)
    && (KindAt(rs, x) == Some(Substituted) <==> StatusAt(bs, x) == Some(BadSector) && x < imageLen)
  }

  datatype Counts = Counts(rescued: u64, badSector: u64, nonTried: u64, nonTrimmed: u64, nonScraped: u64,
                           badAreas: nat) {
    function Unfinished(): nat {
      nonTried + nonTrimmed + nonScraped
    }

    function All(): nat {
      rescued + badSector + Unfinished()
    }
  }

  datatype Assessment = Assessment(
    bytesAcquired: u64,
    counts: Counts,
    notListed: u64,
    beyondSource: u64,
    rescuedBeyondImage: u64,
    badBeyondImage: u64)

  function AddTo(c: Counts, s: BlockStatus, bytes: u64): Counts
    requires c.All() + bytes <= U64_MAX
  {
    match s
    case Finished => c.(rescued := c.rescued + bytes)
    case BadSector => c.(badSector := c.badSector + bytes, badAreas := c.badAreas + 1)
    case NonTried => c.(nonTried := c.nonTried + bytes)
    case NonTrimmed => c.(nonTrimmed := c.nonTrimmed + bytes)
    case NonScraped => c.(nonScraped := c.nonScraped + bytes)
  }

  /** The table and the sums say of the bytes below `done` what the map says of them. */
  ghost predicate Accounts(bs: seq<MapBlock>, imageLen: u64, done: u64, rs: seq<ErrorRange>, a: Assessment) {
    && Normalised(rs) && AllFit(rs) && Below(rs, done)
    && (forall x: int :: 0 <= x < done ==> KindAt(rs, x) == FateOf(bs, imageLen, x))
    && a.bytesAcquired + LengthOf(rs, Unread) == done
    && LengthOf(rs, Unread) == a.notListed + a.counts.Unfinished() + a.rescuedBeyondImage + a.badBeyondImage
    && a.counts.All() + a.notListed == done
    && a.bytesAcquired <= Min(done, imageLen)
  }

  /** Add a range of one kind for bytes that all have it. */
  method Mark(table: ReadErrorTable, ghost bs: seq<MapBlock>, ghost imageLen: u64, start: u64, length: u64,
              kind: RangeKind)
    requires Normalised(table.ranges) && AllFit(table.ranges) && Below(table.ranges, start) && start + length <= U64_MAX
    requires forall x: int :: start <= x < start + length ==> FateOf(bs, imageLen, x) == Some(kind)
    modifies table
    ensures Normalised(table.ranges) && AllFit(table.ranges) && Below(table.ranges, start + length)
    ensures forall x: int :: start <= x < start + length ==> KindAt(table.ranges, x) == FateOf(bs, imageLen, x)
    ensures forall x: int :: 0 <= x < start ==> KindAt(table.ranges, x) == KindAt(old(table.ranges), x)
    ensures forall k :: LengthOf(table.ranges, k) == LengthOf(old(table.ranges), k) + if k == kind then length else 0
  {
    hide KindAt, FateOf, LengthOf;
    ghost var before := table.ranges;
    table.Push(start, length, kind);
    forall x: int | 0 <= x < start + length
      ensures KindAt(table.ranges, x) == if x < start then KindAt(before, x) else Some(kind)
    {
      KindAtOne(ErrorRange(start, length, kind), x);
      WorseNone(KindAt(before, x));
      WorseNone(Some(kind));
      if x >= start {
        NothingAfter(before, x);
      }
    }
  }

  /** Bytes of a block in [lo, hi). */
  function Overlap(b: MapBlock, lo: nat, hi: nat): nat {
    if Max(b.pos, lo) < Min(b.End(), hi) then Min(b.End(), hi) - Max(b.pos, lo) else 0
  }

  /** Bytes in [lo, hi) that the map lists with a status. */
  function Listed(bs: seq<MapBlock>, s: BlockStatus, lo: nat, hi: nat): nat {
    if bs == [] then 0
    else Listed(bs[..|bs| - 1], s, lo, hi) + if bs[|bs| - 1].status == s then Overlap(bs[|bs| - 1], lo, hi) else 0
  }

  function ListedAny(bs: seq<MapBlock>, lo: nat, hi: nat): nat {
    if bs == [] then 0 else ListedAny(bs[..|bs| - 1], lo, hi) + Overlap(bs[|bs| - 1], lo, hi)
  }

  function BadAreas(bs: seq<MapBlock>, hi: nat): nat {
    if bs == [] then 0
    else BadAreas(bs[..|bs| - 1], hi) + if bs[|bs| - 1].status == BadSector && bs[|bs| - 1].pos < hi then 1 else 0
  }

  function CountsOf(bs: seq<MapBlock>, hi: nat): (nat, nat, nat, nat, nat, nat) {
    (Listed(bs, Finished, 0, hi), Listed(bs, BadSector, 0, hi), Listed(bs, NonTried, 0, hi),
     Listed(bs, NonTrimmed, 0, hi), Listed(bs, NonScraped, 0, hi), BadAreas(bs, hi))
  }

  /** The sums are those of the blocks, each clipped to the source and to the image. */
  ghost predicate Sums(bs: seq<MapBlock>, expected: u64, imageLen: u64, a: Assessment) {
    CountSums(bs, expected, a.counts) && ImageSums(bs, expected, imageLen, a)
  }

  ghost predicate CountSums(bs: seq<MapBlock>, expected: u64, c: Counts) {
    (c.rescued, c.badSector, c.nonTried, c.nonTrimmed, c.nonScraped, c.badAreas) == CountsOf(bs, expected)
  }

  ghost predicate ImageSums(bs: seq<MapBlock>, expected: u64, imageLen: u64, a: Assessment) {
    && a.bytesAcquired
       == Listed(bs, Finished, 0, Min(expected, imageLen)) + Listed(bs, BadSector, 0, Min(expected, imageLen))
    && a.rescuedBeyondImage == Listed(bs, Finished, imageLen, expected)
    && a.badBeyondImage == Listed(bs, BadSector, imageLen, expected)
    && a.beyondSource == ListedAny(bs, expected, U64_MAX)
  }

  lemma ListedNext(bs: seq<MapBlock>, i: nat, s: BlockStatus, lo: nat, hi: nat)
    requires i < |bs|
    ensures Listed(bs[..i + 1], s, lo, hi)
         == Listed(bs[..i], s, lo, hi) + if bs[i].status == s then Overlap(bs[i], lo, hi) else 0
    ensures ListedAny(bs[..i + 1], lo, hi) == ListedAny(bs[..i], lo, hi) + Overlap(bs[i], lo, hi)
    ensures BadAreas(bs[..i + 1], hi)
         == BadAreas(bs[..i], hi) + if bs[i].status == BadSector && bs[i].pos < hi then 1 else 0
  {
    assert bs[..i + 1][..i] == bs[..i];
  }

  /** Nothing of the source between the blocks before i and block i is listed. */
  lemma GapUnread(bs: seq<MapBlock>, i: nat, imageLen: u64, x: int)
    requires WellFormed(bs) && i <= |bs| && Cursor(bs, i) <= x && (i < |bs| ==> x < bs[i].pos)
    ensures FateOf(bs, imageLen, x) == Some(Unread)
  {
  }

  /** Bytes up to `done`, the part of the source before the gap's end, are accounted for. */
  method CloseGap(table: ReadErrorTable, ghost bs: seq<MapBlock>, ghost i: nat, ghost imageLen: u64, cursor: u64,
                  gapEnd: u64, a0: Assessment)
    returns (a: Assessment)
    requires WellFormed(bs) && i <= |bs| && cursor == Cursor(bs, i) <= gapEnd && (i < |bs| ==> gapEnd <= bs[i].pos)
    requires Accounts(bs, imageLen, cursor, table.ranges, a0)
    modifies table
    ensures Accounts(bs, imageLen, gapEnd, table.ranges, a)
    ensures a == a0.(notListed := a.notListed)
  {
    hide KindAt, FateOf, LengthOf, Normalised, AllFit, WellFormed;
    forall x: int | cursor <= x < gapEnd
      ensures FateOf(bs, imageLen, x) == Some(Unread)
    {
      GapUnread(bs, i, imageLen, x);
    }
    Mark(table, bs, imageLen, cursor, gapEnd - cursor, Unread);
    a := a0.(notListed := a0.notListed + (gapEnd - cursor));
  }

  lemma BlockFate(bs: seq<MapBlock>, b: MapBlock, imageLen: u64, x: int)
    requires WellFormed(bs) && b in bs && b.Holds(x)
    ensures FateOf(bs, imageLen, x)
         == if RangeKindOf(b.status) == Some(Unread) || x >= imageLen then Some(Unread) else RangeKindOf(b.status)
  {
  }

  /** A block not tried or not finished: every byte of it in the source is unread. */
  method TakeUnfinished(table: ReadErrorTable, ghost bs: seq<MapBlock>, b: MapBlock, ghost imageLen: u64, end: u64,
                        a0: Assessment)
    returns (a: Assessment)
    requires WellFormed(bs) && b in bs && b.pos < end <= b.End() && RangeKindOf(b.status) == Some(Unread)
    requires Accounts(bs, imageLen, b.pos, table.ranges, a0)
    modifies table
    ensures Accounts(bs, imageLen, end, table.ranges, a)
    ensures a == a0.(counts := AddTo(a0.counts, b.status, end - b.pos))
  {
    hide KindAt, FateOf, LengthOf, Normalised, AllFit, WellFormed;
    forall x: int | b.pos <= x < end
      ensures FateOf(bs, imageLen, x) == Some(Unread)
    {
      BlockFate(bs, b, imageLen, x);
    }
    Mark(table, bs, imageLen, b.pos, end - b.pos, Unread);
    a := a0.(counts := AddTo(a0.counts, b.status, end - b.pos));
  }

  /** Where the part of [start, end) that is inside the image ends. */
  function InImageEnd(start: u64, end: u64, imageLen: u64): u64 {
    Max(Min(end, imageLen), start)
  }

  /** The part of a rescued or bad block inside the image: nothing to say of rescued bytes, zeros for
      bad ones. */
  method MarkInside(table: ReadErrorTable, ghost bs: seq<MapBlock>, b: MapBlock, ghost imageLen: u64, inEnd: u64)
    requires WellFormed(bs) && b in bs && b.pos <= inEnd <= b.End() && RangeKindOf(b.status) != Some(Unread)
    requires inEnd <= Max(imageLen, b.pos)
    requires Normalised(table.ranges) && AllFit(table.ranges) && Below(table.ranges, b.pos)
    modifies table
    ensures Normalised(table.ranges) && AllFit(table.ranges) && Below(table.ranges, inEnd)
    ensures forall x: int :: b.pos <= x < inEnd ==> KindAt(table.ranges, x) == FateOf(bs, imageLen, x)
    ensures forall x: int :: 0 <= x < b.pos ==> KindAt(table.ranges, x) == KindAt(old(table.ranges), x)
    ensures LengthOf(table.ranges, Unread) == LengthOf(old(table.ranges), Unread)
  {
    hide KindAt, FateOf, LengthOf, Normalised, AllFit, WellFormed;
    forall x: int | b.pos <= x < inEnd
      ensures FateOf(bs, imageLen, x) == RangeKindOf(b.status)
    {
      BlockFate(bs, b, imageLen, x);
    }
    if inEnd > b.pos && b.status == BadSector {
      Mark(table, bs, imageLen, b.pos, inEnd - b.pos, Substituted);
    } else {
      forall x: int | b.pos <= x < inEnd
        ensures KindAt(table.ranges, x) == None
      {
        NothingAfter(table.ranges, x);
      }
    }
  }

  /** A rescued or bad block: in the image up to its end, and not in the image beyond. */
  method TakeTried(table: ReadErrorTable, ghost bs: seq<MapBlock>, b: MapBlock, imageLen: u64, end: u64, a0: Assessment)
    returns (a: Assessment)
    requires WellFormed(bs) && b in bs && b.pos < end <= b.End() && RangeKindOf(b.status) != Some(Unread)
    requires Accounts(bs, imageLen, b.pos, table.ranges, a0)
    modifies table
    ensures Accounts(bs, imageLen, end, table.ranges, a)
    ensures var inEnd := InImageEnd(b.pos, end, imageLen);
            && a.counts == AddTo(a0.counts, b.status, end - b.pos)
            && a.notListed == a0.notListed && a.beyondSource == a0.beyondSource
            && a.bytesAcquired == a0.bytesAcquired + (inEnd - b.pos)
            && a.rescuedBeyondImage == a0.rescuedBeyondImage + (if b.status == Finished then end - inEnd else 0)
            && a.badBeyondImage == a0.badBeyondImage + (if b.status == BadSector then end - inEnd else 0)
  {
    hide KindAt, FateOf, LengthOf, Normalised, AllFit, WellFormed;
    var inEnd := InImageEnd(b.pos, end, imageLen);
    a := a0.(counts := AddTo(a0.counts, b.status, end - b.pos), bytesAcquired := a0.bytesAcquired + (inEnd - b.pos));
    MarkInside(table, bs, b, imageLen, inEnd);
    if end > inEnd {
      forall x: int | inEnd <= x < end
        ensures FateOf(bs, imageLen, x) == Some(Unread)
      {
        BlockFate(bs, b, imageLen, x);
      }
      Mark(table, bs, imageLen, inEnd, end - inEnd, Unread);
      if b.status == Finished {
        a := a.(rescuedBeyondImage := a.rescuedBeyondImage + (end - inEnd));
      } else {
        a := a.(badBeyondImage := a.badBeyondImage + (end - inEnd));
      }
    }
  }

  lemma CountSumsNext(bs: seq<MapBlock>, i: nat, expected: u64, c0: Counts, c: Counts)
    requires i < |bs| && CountSums(bs[..i], expected, c0)
    requires var b, end := bs[i], Min(bs[i].End(), expected);
             if b.pos >= expected then c == c0
             else c0.All() + (end - b.pos) <= U64_MAX && c == AddTo(c0, b.status, end - b.pos)
    ensures CountSums(bs[..i + 1], expected, c)
  {
    hide Listed, ListedAny, BadAreas;
    ListedNext(bs, i, Finished, 0, expected);
    ListedNext(bs, i, BadSector, 0, expected);
    ListedNext(bs, i, NonTried, 0, expected);
    ListedNext(bs, i, NonTrimmed, 0, expected);
    ListedNext(bs, i, NonScraped, 0, expected);
  }

  lemma ImageSumsNext(bs: seq<MapBlock>, i: nat, expected: u64, imageLen: u64, a0: Assessment, a: Assessment)
    requires WellFormed(bs) && i < |bs| && ImageSums(bs[..i], expected, imageLen, a0)
    requires var b, end := bs[i], Min(bs[i].End(), expected);
             if b.pos >= expected then && a.bytesAcquired == a0.bytesAcquired && a.badBeyondImage == a0.badBeyondImage
                                       && a.rescuedBeyondImage == a0.rescuedBeyondImage
             else
               && var inEnd := InImageEnd(b.pos, end, imageLen);
                  var tried := RangeKindOf(b.status) != Some(Unread);
                  && a.bytesAcquired == a0.bytesAcquired + (if tried then inEnd - b.pos else 0)
                  && a.rescuedBeyondImage == a0.rescuedBeyondImage + (if b.status == Finished then end - inEnd else 0)
                  && a.badBeyondImage == a0.badBeyondImage + (if b.status == BadSector then end - inEnd else 0)
    requires a.beyondSource
          == a0.beyondSource + if bs[i].End() > expected then bs[i].End() - Max(bs[i].pos, expected) else 0
    ensures ImageSums(bs[..i + 1], expected, imageLen, a)
  {
    hide Listed, ListedAny, BadAreas;
    ListedNext(bs, i, Finished, expected, U64_MAX);
    ListedNext(bs, i, Finished, 0, Min(expected, imageLen));
    ListedNext(bs, i, BadSector, 0, Min(expected, imageLen));
    ListedNext(bs, i, Finished, imageLen, expected);
    ListedNext(bs, i, BadSector, imageLen, expected);
  }

  /** An image of `imageLen` bytes of a source of `expected` bytes, judged by the map: each byte
      of the source has one fate, and the sums add up. */
  method Assess(bs: seq<MapBlock>, expected: u64, imageLen: u64) returns (table: ReadErrorTable, a: Assessment)
    requires WellFormed(bs)
    ensures Normalised(table.ranges) && AllFit(table.ranges)
    ensures TableSays(bs, expected, imageLen, table.ranges)
    ensures a.bytesAcquired + LengthOf(table.ranges, Unread) == expected
    ensures LengthOf(table.ranges, Unread)
         == a.notListed + a.counts.Unfinished() + a.rescuedBeyondImage + a.badBeyondImage
    ensures a.bytesAcquired <= Min(expected, imageLen) && a.counts.All() + a.notListed == expected
    ensures Sums(bs, expected, imageLen, a) && CountsBytes(bs, expected, imageLen, a) && fresh(table)
    ensures a.bytesAcquired == expected <==> forall x: nat :: x < expected ==> Represented(bs, imageLen, x)
  {
    hide KindAt, FateOf, LengthOf, Normalised, AllFit, AddTo, Sums, Accounts, Represented;
    table := new ReadErrorTable();
    a := NOTHING;
    StartAccounts(bs, imageLen);
    StartSums(expected, imageLen);
    assert bs[..0] == [];
    var cursor: u64 := 0;
    for i := 0 to |bs|
      invariant cursor == Cursor(bs, i) && fresh(table)
      invariant Accounts(bs, imageLen, Min(cursor, expected), table.ranges, a)
      invariant Sums(bs[..i], expected, imageLen, a)
      invariant a.beyondSource <= Max(cursor, expected) - expected
    {
      a := AssessBlock(table, bs, i, bs[i], expected, imageLen, cursor, a);
      cursor := bs[i].End();
    }
    assert bs[..|bs|] == bs;
    if cursor < expected {
      ghost var a0 := a;
      a := CloseGap(table, bs, |bs|, imageLen, cursor, expected, a);
      SumsIgnoreGaps(bs, expected, imageLen, a0, a);
    }
    AccountsWhole(bs, expected, imageLen, table.ranges, a);
    FatesAreSaid(bs, expected, imageLen, table.ranges);
    SumsCountBytes(bs, expected, imageLen, a);
    hide TableSays, CountsBytes;
    NothingUnreadIff(bs, expected, imageLen, table.ranges, a.bytesAcquired);
  }

  lemma FatesAreSaid(bs: seq<MapBlock>, expected: u64, imageLen: u64, rs: seq<ErrorRange>)
    requires forall x: int :: x >= 0 ==> KindAt(rs, x) == if x < expected then FateOf(bs, imageLen, x) else None
    ensures TableSays(bs, expected, imageLen, rs)
  {
    hide KindAt, FateOf;
    forall x: nat | x < expected
      ensures ByteSays(bs, imageLen, rs, x)
    {
      FateMeans(bs, imageLen, x);
    }
  }

  // ---- The counters count bytes ----

  ghost function BytesWith(bs: seq<MapBlock>, s: BlockStatus, lo: int, hi: int): set<int> {
    set x: int | lo <= x < hi && StatusAt(bs, x) == Some(s)
  }

  ghost function BytesListed(bs: seq<MapBlock>, lo: int, hi: int): set<int> {
    set x: int | lo <= x < hi && StatusAt(bs, x).Some?
  }

  ghost function BytesNotListed(bs: seq<MapBlock>, lo: int, hi: int): set<int> {
    set x: int | lo <= x < hi && StatusAt(bs, x) == None
  }

  function BadBlocks(bs: seq<MapBlock>, hi: nat): set<int> {
    set i | 0 <= i < |bs| && bs[i].status == BadSector && bs[i].pos < hi
  }

  /** Each counter is the number of the bytes of the source, or beyond it, that it is named after. */
  ghost predicate CountsBytes(bs: seq<MapBlock>, expected: u64, imageLen: u64, a: Assessment) {
    && a.counts.rescued == |BytesWith(bs, Finished, 0, expected)|
    && a.counts.badSector == |BytesWith(bs, BadSector, 0, expected)|
    && a.counts.nonTried == |BytesWith(bs, NonTried, 0, expected)|
    && a.counts.nonTrimmed == |BytesWith(bs, NonTrimmed, 0, expected)|
    && a.counts.nonScraped == |BytesWith(bs, NonScraped, 0, expected)|
    && a.counts.badAreas == |BadBlocks(bs, expected)|
    && a.notListed == |BytesNotListed(bs, 0, expected)|
    && a.rescuedBeyondImage == |BytesWith(bs, Finished, imageLen, expected)|
    && a.badBeyondImage == |BytesWith(bs, BadSector, imageLen, expected)|
    && a.beyondSource == |BytesListed(bs, expected, U64_MAX)|
    && a.bytesAcquired == |BytesWith(bs, Finished, 0, Min(expected, imageLen))|
                        + |BytesWith(bs, BadSector, 0, Min(expected, imageLen))|
  }

  lemma StatusSnoc(bs: seq<MapBlock>, x: int)
    requires WellFormed(bs) && bs != []
    ensures var front, last := bs[..|bs| - 1], bs[|bs| - 1];
            && StatusAt(bs, x) == (if last.Holds(x) then Some(last.status) else StatusAt(front, x))
            && (last.Holds(x) ==> StatusAt(front, x) == None)
  {
    var front, last := bs[..|bs| - 1], bs[|bs| - 1];
    assert bs == front + [last];
    if b :| b in front && b.Holds(x) {
      assert WellFormed(front);
      OneBlockHolds(front, b, x);
      OneBlockHolds(bs, b, x);
    } else if last.Holds(x) {
      OneBlockHolds(bs, last, x);
    }
  }

  lemma OverlapIsSpan(b: MapBlock, lo: nat, hi: nat)
    ensures Overlap(b, lo, hi) == |BytesOfBlock(b, lo, hi)|
  {
    var here := BytesOfBlock(b, lo, hi);
    if Max(b.pos, lo) < Min(b.End(), hi) {
      SpanSize(Max(b.pos, lo), Min(b.End(), hi));
      assert here == Span(Max(b.pos, lo), Min(b.End(), hi));
    } else {
      assert here == {};
    }
  }

  /** The bytes of one block in [lo, hi). */
  ghost function BytesOfBlock(b: MapBlock, lo: int, hi: int): set<int> {
    set x: int | lo <= x < hi && b.Holds(x)
  }

  lemma BytesWithNext(bs: seq<MapBlock>, s: BlockStatus, lo: nat, hi: nat)
    requires WellFormed(bs) && bs != []
    ensures var front, last := bs[..|bs| - 1], bs[|bs| - 1];
            var here := if last.status == s then BytesOfBlock(last, lo, hi) else {};
            BytesWith(bs, s, lo, hi) == BytesWith(front, s, lo, hi) + here && BytesWith(front, s, lo, hi) !! here
  {
    var front, last := bs[..|bs| - 1], bs[|bs| - 1];
    forall x: int
      ensures StatusAt(bs, x) == if last.Holds(x) then Some(last.status) else StatusAt(front, x)
      ensures last.Holds(x) ==> StatusAt(front, x) == None
    {
      StatusSnoc(bs, x);
    }
    hide StatusAt, WellFormed, MapBlock.Holds;
    var here := if last.status == s then BytesOfBlock(last, lo, hi) else {};
    forall x: int
      ensures x in BytesWith(bs, s, lo, hi) <==> x in BytesWith(front, s, lo, hi) || x in here
      ensures x in here ==> x !in BytesWith(front, s, lo, hi)
    {
    }
  }

  lemma {:induction false} ListedIsCount(bs: seq<MapBlock>, s: BlockStatus, lo: nat, hi: nat)
    requires WellFormed(bs)
    ensures Listed(bs, s, lo, hi) == |BytesWith(bs, s, lo, hi)|
  {
    if bs == [] {
      assert BytesWith(bs, s, lo, hi) == {};
    } else {
      var front, last := bs[..|bs| - 1], bs[|bs| - 1];
      ListedIsCount(front, s, lo, hi);
      OverlapIsSpan(last, lo, hi);
      BytesWithNext(bs, s, lo, hi);
      hide BytesWith, BytesOfBlock, Overlap, WellFormed;
    }
  }

  lemma BytesListedNext(bs: seq<MapBlock>, lo: nat, hi: nat)
    requires WellFormed(bs) && bs != []
    ensures var front, here := bs[..|bs| - 1], BytesOfBlock(bs[|bs| - 1], lo, hi);
            BytesListed(bs, lo, hi) == BytesListed(front, lo, hi) + here && BytesListed(front, lo, hi) !! here
  {
    forall x: int {
      StatusSnoc(bs, x);
    }
    hide StatusAt, WellFormed, MapBlock.Holds;
  }

  lemma {:induction false} ListedAnyIsCount(bs: seq<MapBlock>, lo: nat, hi: nat)
    requires WellFormed(bs)
    ensures ListedAny(bs, lo, hi) == |BytesListed(bs, lo, hi)|
  {
    if bs == [] {
      assert BytesListed(bs, lo, hi) == {};
    } else {
      ListedAnyIsCount(bs[..|bs| - 1], lo, hi);
      OverlapIsSpan(bs[|bs| - 1], lo, hi);
      BytesListedNext(bs, lo, hi);
      hide BytesListed, BytesOfBlock, Overlap, WellFormed;
    }
  }

  lemma {:induction false} BadAreasIsCount(bs: seq<MapBlock>, hi: nat)
    ensures BadAreas(bs, hi) == |BadBlocks(bs, hi)|
  {
    if bs == [] {
      assert BadBlocks(bs, hi) == {};
    } else {
      var n := |bs| - 1;
      BadAreasIsCount(bs[..n], hi);
      assert BadBlocks(bs, hi)
             == BadBlocks(bs[..n], hi) + if bs[n].status == BadSector && bs[n].pos < hi then {n as int} else {};
    }
  }

  lemma {:induction false} ListedAnyIsAll(bs: seq<MapBlock>, lo: nat, hi: nat)
    ensures ListedAny(bs, lo, hi)
         == Listed(bs, Finished, lo, hi) + Listed(bs, BadSector, lo, hi) + Listed(bs, NonTried, lo, hi)
          + Listed(bs, NonTrimmed, lo, hi) + Listed(bs, NonScraped, lo, hi)
  {
    hide Overlap;
    if bs != [] {
      ListedAnyIsAll(bs[..|bs| - 1], lo, hi);
    }
  }

  lemma NotListedAreTheRest(bs: seq<MapBlock>, hi: nat)
    ensures |BytesListed(bs, 0, hi)| + |BytesNotListed(bs, 0, hi)| == hi
  {
    hide StatusAt;
    SpanSize(0, hi);
    assert BytesListed(bs, 0, hi) + BytesNotListed(bs, 0, hi) == Span(0, hi);
  }

  lemma SumsCountBytes(bs: seq<MapBlock>, expected: u64, imageLen: u64, a: Assessment)
    requires WellFormed(bs) && Sums(bs, expected, imageLen, a) && a.counts.All() + a.notListed == expected
    ensures CountsBytes(bs, expected, imageLen, a)
  {
    hide WellFormed, Listed, ListedAny, BadAreas;
    forall s, lo: nat, hi: nat
      ensures Listed(bs, s, lo, hi) == |BytesWith(bs, s, lo, hi)|
    {
      ListedIsCount(bs, s, lo, hi);
    }
    ListedAnyIsCount(bs, expected, U64_MAX);
    ListedAnyIsCount(bs, 0, expected);
    ListedAnyIsAll(bs, 0, expected);
    BadAreasIsCount(bs, expected);
    NotListedAreTheRest(bs, expected);
    hide BytesWith, BytesListed, BytesNotListed, BadBlocks;
  }

  lemma AccountsWhole(bs: seq<MapBlock>, expected: u64, imageLen: u64, rs: seq<ErrorRange>, a: Assessment)
    requires Accounts(bs, imageLen, expected, rs, a)
    ensures Normalised(rs) && AllFit(rs)
    ensures forall x: int :: x >= 0 ==> KindAt(rs, x) == if x < expected then FateOf(bs, imageLen, x) else None
    ensures a.bytesAcquired + LengthOf(rs, Unread) == expected
    ensures LengthOf(rs, Unread) == a.notListed + a.counts.Unfinished() + a.rescuedBeyondImage + a.badBeyondImage
    ensures a.bytesAcquired <= Min(expected, imageLen) && a.counts.All() + a.notListed == expected
  {
    hide KindAt, FateOf, LengthOf, Normalised, AllFit;
    forall x: int | x >= expected
      ensures KindAt(rs, x) == None
    {
      NothingAfter(rs, x);
    }
  }

  /** One block: the gap before it, its part of the source, and what lies beyond the source. */
  method AssessBlock(table: ReadErrorTable, ghost bs: seq<MapBlock>, ghost i: nat, b: MapBlock,
                     expected: u64, imageLen: u64, cursor: u64, a0: Assessment)
    returns (a: Assessment)
    requires WellFormed(bs) && i < |bs| && b == bs[i] && cursor == Cursor(bs, i)
    requires Accounts(bs, imageLen, Min(cursor, expected), table.ranges, a0) && Sums(bs[..i], expected, imageLen, a0)
    requires a0.beyondSource <= Max(cursor, expected) - expected
    modifies table
    ensures Accounts(bs, imageLen, Min(b.End(), expected), table.ranges, a) && Sums(bs[..i + 1], expected, imageLen, a)
    ensures a.beyondSource <= Max(b.End(), expected) - expected
  {
    hide Accounts, AddTo, CountSums, ImageSums;
    CountsFit(bs, imageLen, Min(cursor, expected), table.ranges, a0);
    assert cursor <= b.pos && b in bs && RangeKindOf(Finished) == None && RangeKindOf(BadSector) == Some(Substituted);
    a := a0;
    if b.pos > cursor && cursor < expected {
      a := CloseGap(table, bs, i, imageLen, cursor, Min(b.pos, expected), a);
    }
    var end := Min(b.End(), expected);
    if b.pos < end {
      if RangeKindOf(b.status) == Some(Unread) {
        a := TakeUnfinished(table, bs, b, imageLen, end, a);
      } else {
        a := TakeTried(table, bs, b, imageLen, end, a);
      }
    }
    if b.End() > expected {
      ghost var a1 := a;
      a := a.(beyondSource := a.beyondSource + (b.End() - Max(b.pos, expected)));
      AccountsIgnoreBeyond(bs, imageLen, end, table.ranges, a1, a);
    }
    CountSumsNext(bs, i, expected, a0.counts, a.counts);
    ImageSumsNext(bs, i, expected, imageLen, a0, a);
  }

  lemma AccountsIgnoreBeyond(bs: seq<MapBlock>, imageLen: u64, done: u64, rs: seq<ErrorRange>, a0: Assessment,
                             a: Assessment)
    requires Accounts(bs, imageLen, done, rs, a0) && a == a0.(beyondSource := a.beyondSource)
    ensures Accounts(bs, imageLen, done, rs, a)
  {
  }

  lemma SumsIgnoreGaps(bs: seq<MapBlock>, expected: u64, imageLen: u64, a0: Assessment, a: Assessment)
    requires Sums(bs, expected, imageLen, a0) && a == a0.(notListed := a.notListed)
    ensures Sums(bs, expected, imageLen, a)
  {
  }

  const NOTHING: Assessment := Assessment(0, Counts(0, 0, 0, 0, 0, 0), 0, 0, 0, 0)

  lemma StartAccounts(bs: seq<MapBlock>, imageLen: u64)
    ensures Accounts(bs, imageLen, 0, [], NOTHING)
  {
    hide KindAt, FateOf, LengthOf, Counts.All, Counts.Unfinished;
    EmptyTable();
    ZeroCounts(NOTHING.counts);
  }

  lemma ZeroCounts(c: Counts)
    requires c.rescued == c.badSector == c.nonTried == c.nonTrimmed == c.nonScraped == 0
    ensures c.All() == 0 == c.Unfinished()
  {
  }

  lemma EmptyTable()
    ensures LengthOf([], Unread) == 0 && Normalised([]) && AllFit([]) && Below([], 0)
  {
  }

  lemma StartSums(expected: u64, imageLen: u64)
    ensures Sums([], expected, imageLen, NOTHING)
  {
  }

  lemma CountsFit(bs: seq<MapBlock>, imageLen: u64, done: u64, rs: seq<ErrorRange>, a: Assessment)
    requires Accounts(bs, imageLen, done, rs, a)
    ensures a.counts.All() <= done
  {
  }

  // ---- What a complete rescue comes to ----

  /** Nothing is left to try. */
  predicate IsFinished(bs: seq<MapBlock>) {
    forall b :: b in bs ==> b.status == Finished || b.status == BadSector
  }

  /** The byte is listed as rescued or bad, and it is inside the image. */
  ghost predicate Represented(bs: seq<MapBlock>, imageLen: u64, x: int) {
    x < imageLen && (StatusAt(bs, x) == Some(Finished) || StatusAt(bs, x) == Some(BadSector))
  }

  lemma RepresentedIff(bs: seq<MapBlock>, imageLen: u64, x: int)
    ensures Represented(bs, imageLen, x) <==> FateOf(bs, imageLen, x) != Some(Unread)
  {
  }

  /** A table that says what the map says has no unread byte exactly when every byte of the source is
      listed as rescued or bad inside the image; then all of the source counts as acquired. */
  lemma NothingUnreadIff(bs: seq<MapBlock>, expected: u64, imageLen: u64, rs: seq<ErrorRange>, acquired: nat)
    requires Normalised(rs) && AllFit(rs)
    requires forall x: int :: x >= 0 ==> KindAt(rs, x) == if x < expected then FateOf(bs, imageLen, x) else None
    requires acquired + LengthOf(rs, Unread) == expected
    ensures acquired == expected <==> forall x: nat :: x < expected ==> Represented(bs, imageLen, x)
  {
    hide KindAt, FateOf, Represented, Normalised;
    LengthIsCount(rs, Unread);
    forall x: nat | x < expected
      ensures Represented(bs, imageLen, x) <==> x !in BytesAt(rs, Unread)
    {
      RepresentedIff(bs, imageLen, x);
    }
    if LengthOf(rs, Unread) > 0 {
      var x := SomeByte(rs);
      OnlyListedBytes(rs, Unread, x);
    }
  }

  lemma {:induction false} SomeByte(rs: seq<ErrorRange>) returns (x: nat)
    requires AllFit(rs) && LengthOf(rs, Unread) > 0
    ensures KindAt(rs, x) == Some(Unread)
  {
    var front, last := rs[..|rs| - 1], rs[|rs| - 1];
    assert rs == front + [last];
    if LengthOf(front, Unread) > 0 {
      x := SomeByte(front);
    } else {
      x := last.offset;
      assert last in rs && last.Covers(x);
    }
  }

  lemma OnlyListedBytes(rs: seq<ErrorRange>, kind: RangeKind, x: int)
    requires KindAt(rs, x) == Some(kind)
    ensures x >= 0
  {
  }

  /** A finished map that lists exactly the source, and an image at least as long: no unread byte. */
  lemma CompleteRescue(bs: seq<MapBlock>, expected: u64, imageLen: u64)
    requires WellFormed(bs) && IsFinished(bs) && Contiguous(bs) && EndOfMap(bs) == expected <= imageLen
    ensures forall x: nat :: x < expected ==> Represented(bs, imageLen, x)
  {
    CoversIffTiles(bs, expected);
    forall x: nat | x < expected
      ensures Represented(bs, imageLen, x)
    {
      assert StatusAt(bs, x).Some?;
      var b :| b in bs && b.Holds(x);
      OneBlockHolds(bs, b, x);
    }
  }
}
