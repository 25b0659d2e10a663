/** The table of byte ranges that are not in an image as read, kept in a normal form. */
module ReadErrors {
  import opened Wrappers
  import opened MachineInts

  datatype RangeKind = Substituted | Unread

  datatype ErrorRange = ErrorRange(offset: u64, length: u64, kind: RangeKind) {
    /** The first byte behind the range, at most U64_MAX. */
    function End(): u64 {
      SatAdd(offset, length)
    }

    predicate Covers(x: int) {
      offset <= x < End()
    }
  }

  // ---- What a list of ranges says of a byte ----

  ghost predicate Covered(rs: seq<ErrorRange>, kind: RangeKind, x: int) {
    exists r :: r in rs && r.kind == kind && r.Covers(x)
  }

  /** Where both kinds cover a byte, it is unread. */
  ghost function KindAt(rs: seq<ErrorRange>, x: int): Option<RangeKind> {
    if Covered(rs, Unread, x) then Some(Unread)
    else if Covered(rs, Substituted, x) then Some(Substituted)
    else None
  }

  function Worse(a: Option<RangeKind>, b: Option<RangeKind>): Option<RangeKind> {
    if a == Some(Unread) || b == Some(Unread) then Some(Unread)
    else if a == Some(Substituted) || b == Some(Substituted) then Some(Substituted)
    else None
  }

  lemma WorseNone(a: Option<RangeKind>)
    ensures Worse(a, None) == a == Worse(None, a)
  {
    match a
    case None =>
    case Some(k) =>
      assert k.Unread? || k.Substituted?;
  }

  /** What a list of ranges says of a byte: unread if an unread range covers it, else zero-filled if a zero-filled
      range does, else nothing. */
  lemma KindMeans(rs: seq<ErrorRange>, x: int)
    ensures KindAt(rs, x) == Some(Unread) <==> exists r :: r in rs && r.kind == Unread && r.Covers(x)
    ensures KindAt(rs, x) == None <==> forall r :: r in rs ==> !r.Covers(x)
  {
    forall r | r in rs && r.Covers(x)
      ensures Covered(rs, r.kind, x)
    {
    }
  }

  /** An unread range makes its bytes unread whatever was said of them; another range says something of those
      bytes of which nothing was said. */
  ghost predicate TakenIn(before: seq<ErrorRange>, after: seq<ErrorRange>, range: ErrorRange) {
    forall x: nat ::
      && (KindAt(after, x) == Some(Unread) <==>
            KindAt(before, x) == Some(Unread) || (range.kind == Unread && range.Covers(x)))
      && (KindAt(after, x) == None <==> KindAt(before, x) == None && !range.Covers(x))
  }

  lemma WorseIsTaken(before: seq<ErrorRange>, after: seq<ErrorRange>, range: ErrorRange)
    requires forall x: int :: x >= 0 ==> KindAt(after, x) == Worse(KindAt(before, x), KindAt([range], x))
    ensures TakenIn(before, after, range)
  {
    hide KindAt;
    forall x: nat
      ensures KindAt(after, x) == Worse(KindAt(before, x), if range.Covers(x) then Some(range.kind) else None)
      ensures KindAt(before, x).None? || KindAt(before, x).value.Unread? || KindAt(before, x).value.Substituted?
    {
      KindAtOne(range, x);
    }
    assert range.kind.Unread? || range.kind.Substituted?;
  }

  lemma KindAtConcat(a: seq<ErrorRange>, b: seq<ErrorRange>, x: int)
    ensures KindAt(a + b, x) == Worse(KindAt(a, x), KindAt(b, x))
  {
  }

  lemma KindAtOne(r: ErrorRange, x: int)
    ensures KindAt([r], x) == if r.Covers(x) then Some(r.kind) else None
  {
  }

  // ---- The normal form ----

  predicate Follows(a: ErrorRange, b: ErrorRange) {
    b.offset > a.End() || (b.offset == a.End() && b.kind != a.kind)
  }

  /** Not empty, ascending, disjoint, and adjacent ranges of one kind merged. */
  predicate Normalised(rs: seq<ErrorRange>) {
    && (forall i :: 0 <= i < |rs| ==> rs[i].length > 0)
    && (forall i :: 0 <= i < |rs| - 1 ==> Follows(rs[i], rs[i + 1]))
  }

  lemma {:induction false} NormalisedOrder(rs: seq<ErrorRange>, i: nat, j: nat)
    requires Normalised(rs) && i < j < |rs|
    ensures rs[i].End() <= rs[j].offset
    decreases j
  {
    assert Follows(rs[j - 1], rs[j]);
    if i < j - 1 {
      NormalisedOrder(rs, i, j - 1);
    }
  }

  /** In the normal form the ranges end where the last one does. */
  lemma NothingAfter(rs: seq<ErrorRange>, x: int)
    requires Normalised(rs) && (rs == [] || x >= rs[|rs| - 1].End())
    ensures KindAt(rs, x) == None
  {
    forall r | r in rs
      ensures !r.Covers(x)
    {
      var i :| 0 <= i < |rs| && rs[i] == r;
      if i < |rs| - 1 {
        NormalisedOrder(rs, i, |rs| - 1);
      }
    }
  }

  // ---- The sweep over range boundaries ----

  datatype Event = Event(pos: u64, delta: int, kind: RangeKind)

  function EventsOf(rs: seq<ErrorRange>): seq<Event> {
    if rs == [] then []
    else
      var r := rs[|rs| - 1];
      EventsOf(rs[..|rs| - 1]) + if r.length > 0 then [Event(r.offset, 1, r.kind), Event(r.End(), -1, r.kind)] else []
  }

  predicate SortedByPos(es: seq<Event>) {
    forall i, j :: 0 <= i < j < |es| ==> es[i].pos <= es[j].pos
  }

  /** Behind every event that is not later: the sort is stable. */
  function Insert(es: seq<Event>, e: Event): seq<Event> {
    if es == [] || es[|es| - 1].pos <= e.pos then es + [e]
    else Insert(es[..|es| - 1], e) + [es[|es| - 1]]
  }

  function SortEvents(es: seq<Event>): seq<Event> {
    if es == [] then [] else Insert(SortEvents(es[..|es| - 1]), es[|es| - 1])
  }

  function Delta(e: Event, kind: RangeKind): int {
    if e.kind == kind then e.delta else 0
  }

  /** The deltas of all events of a kind. */
  function Total(es: seq<Event>, kind: RangeKind): int {
    if es == [] then 0 else Total(es[..|es| - 1], kind) + Delta(es[|es| - 1], kind)
  }

  /** The deltas of the events of a kind up to a position. */
  function Balance(es: seq<Event>, kind: RangeKind, x: int): int {
    if es == [] then 0
    else Balance(es[..|es| - 1], kind, x) + if es[|es| - 1].pos <= x then Delta(es[|es| - 1], kind) else 0
  }

  lemma BalanceSnoc(es: seq<Event>, e: Event, kind: RangeKind, x: int)
    ensures Balance(es + [e], kind, x) == Balance(es, kind, x) + if e.pos <= x then Delta(e, kind) else 0
  {
  }

  lemma TotalSnoc(es: seq<Event>, i: nat, kind: RangeKind)
    requires i < |es|
    ensures Total(es[..i + 1], kind) == Total(es[..i], kind) + Delta(es[i], kind)
  {
    assert es[..i + 1][..i] == es[..i];
  }

  lemma {:induction false} InsertKeeps(es: seq<Event>, e: Event, kind: RangeKind, x: int)
    requires SortedByPos(es)
    ensures SortedByPos(Insert(es, e)) && |Insert(es, e)| == |es| + 1
    ensures forall i :: 0 <= i <= |es| ==>
              Insert(es, e)[i].pos <= e.pos || (es != [] && Insert(es, e)[i].pos <= es[|es| - 1].pos)
    ensures Balance(Insert(es, e), kind, x) == Balance(es, kind, x) + if e.pos <= x then Delta(e, kind) else 0
  {
    if es == [] || es[|es| - 1].pos <= e.pos {
      BalanceSnoc(es, e, kind, x);
    } else {
      var front, last := es[..|es| - 1], es[|es| - 1];
      InsertKeeps(front, e, kind, x);
      BalanceSnoc(Insert(front, e), last, kind, x);
    }
  }

  lemma {:induction false} SortKeeps(es: seq<Event>, kind: RangeKind, x: int)
    ensures SortedByPos(SortEvents(es)) && Balance(SortEvents(es), kind, x) == Balance(es, kind, x)
  {
    if es != [] {
      SortKeeps(es[..|es| - 1], kind, x);
      InsertKeeps(SortEvents(es[..|es| - 1]), es[|es| - 1], kind, x);
    }
  }

  /** How many ranges of a kind cover a byte. */
  function CoverCount(rs: seq<ErrorRange>, kind: RangeKind, x: int): nat {
    if rs == [] then 0
    else CoverCount(rs[..|rs| - 1], kind, x) + if rs[|rs| - 1].kind == kind && rs[|rs| - 1].Covers(x) then 1 else 0
  }

  lemma {:induction false} BalanceIsCoverCount(rs: seq<ErrorRange>, kind: RangeKind, x: int)
    ensures Balance(EventsOf(rs), kind, x) == CoverCount(rs, kind, x)
  {
    if rs != [] {
      var front, r := rs[..|rs| - 1], rs[|rs| - 1];
      BalanceIsCoverCount(front, kind, x);
      if r.length == 0 {
        assert EventsOf(rs) == EventsOf(front);
      } else {
        var up, down := Event(r.offset, 1, r.kind), Event(r.End(), -1, r.kind);
        assert EventsOf(rs) == EventsOf(front) + [up] + [down];
        assert CoverCount(rs, kind, x)
            == CoverCount(front, kind, x) + if r.kind == kind && r.Covers(x) then 1 else 0;
        hide Balance, EventsOf, CoverCount;
        BalanceSnoc(EventsOf(front), up, kind, x);
        BalanceSnoc(EventsOf(front) + [up], down, kind, x);
      }
    }
  }

  lemma {:induction false} CoverCountPositive(rs: seq<ErrorRange>, kind: RangeKind, x: int)
    ensures CoverCount(rs, kind, x) > 0 <==> Covered(rs, kind, x)
  {
    if rs != [] {
      var front, r := rs[..|rs| - 1], rs[|rs| - 1];
      assert rs == front + [r];
      CoverCountPositive(front, kind, x);
    }
  }

  /** When the first i sorted events are those up to x, their total is the coverage of x. */
  lemma {:induction false} TotalIsBalance(es: seq<Event>, i: nat, kind: RangeKind, x: int)
    requires i <= |es| && (forall j :: 0 <= j < i ==> es[j].pos <= x) && (forall j :: i <= j < |es| ==> es[j].pos > x)
    ensures Total(es[..i], kind) == Balance(es, kind, x)
    decreases |es|
  {
    if es != [] {
      var n := |es| - 1;
      if i == |es| {
        TotalIsBalance(es[..n], n, kind, x);
        assert es[..n][..n] == es[..n];
        TotalSnoc(es, n, kind);
        assert es[..i] == es;
      } else {
        TotalIsBalance(es[..n], i, kind, x);
        assert es[..n][..i] == es[..i];
      }
    }
  }

  function Current(substituted: int, unread: int): Option<RangeKind> {
    if unread > 0 then Some(Unread) else if substituted > 0 then Some(Substituted) else None
  }

  lemma CurrentIsKindAt(rs: seq<ErrorRange>, i: nat, x: int)
    requires var es := SortEvents(EventsOf(rs));
             i <= |es| && (forall j :: 0 <= j < i ==> es[j].pos <= x) && (forall j :: i <= j < |es| ==> es[j].pos > x)
    ensures var es := SortEvents(EventsOf(rs));
            Current(Total(es[..i], Substituted), Total(es[..i], Unread)) == KindAt(rs, x)
  {
    var es := SortEvents(EventsOf(rs));
    forall k: RangeKind
      ensures Total(es[..i], k) > 0 <==> Covered(rs, k, x)
    {
      SortKeeps(EventsOf(rs), k, x);
      BalanceIsCoverCount(rs, k, x);
      CoverCountPositive(rs, k, x);
      TotalIsBalance(es, i, k, x);
    }
  }

  /** No range goes beyond the u64 limit. */
  predicate AllFit(rs: seq<ErrorRange>) {
    forall i :: 0 <= i < |rs| ==> rs[i].offset + rs[i].length <= U64_MAX
  }

  /** What is written for the segment [from, to): a new range, or the last one made longer. */
  function Emit(out: seq<ErrorRange>, from: u64, to: u64, current: Option<RangeKind>): seq<ErrorRange>
    requires from <= to && (out == [] || out[|out| - 1].offset <= from)
  {
    if current == None || to == from then out
    else
      var last := |out| - 1;
      if out != [] && out[last].End() == from && out[last].kind == current.value
      then out[..last] + [out[last].(length := to - out[last].offset)]
      else out + [ErrorRange(from, to - from, current.value)]
  }

  lemma EmitMeaning(out: seq<ErrorRange>, from: u64, to: u64, current: Option<RangeKind>, x: int)
    requires from <= to && Normalised(out) && (out == [] || out[|out| - 1].End() <= from)
    ensures var r := Emit(out, from, to, current);
            && Normalised(r) && (r == [] || r[|r| - 1].End() <= to)
            && KindAt(r, x) == if from <= x < to then current else KindAt(out, x)
  {
    var last := |out| - 1;
    if current == None || to == from {
      if x >= from {
        NothingAfter(out, x);
      }
    } else if out != [] && out[last].End() == from && out[last].kind == current.value {
      ExtendMeaning(out, to, x);
    } else {
      AppendMeaning(out, ErrorRange(from, to - from, current.value), x);
    }
  }

  lemma AppendMeaning(out: seq<ErrorRange>, r: ErrorRange, x: int)
    requires Normalised(out) && r.length > 0 && (out == [] || Follows(out[|out| - 1], r))
    ensures Normalised(out + [r])
    ensures KindAt(out + [r], x) == if r.Covers(x) then Some(r.kind) else KindAt(out, x)
  {
    KindAtConcat(out, [r], x);
    KindAtOne(r, x);
    if r.Covers(x) {
      NothingAfter(out, x);
    }
  }

  lemma ExtendMeaning(out: seq<ErrorRange>, to: u64, x: int)
    requires Normalised(out) && out != [] && out[|out| - 1].End() < to
    ensures var last := out[|out| - 1];
            var r := out[..|out| - 1] + [last.(length := to - last.offset)];
            && Normalised(r) && r[|r| - 1].End() == to
            && KindAt(r, x) == if last.End() <= x < to then Some(last.kind) else KindAt(out, x)
  {
    hide KindAt, Covered;
    var last, front := out[|out| - 1], out[..|out| - 1];
    assert out == front + [last];
    assert Normalised(front) by {
      assert forall i :: 0 <= i < |front| - 1 ==> Follows(out[i], out[i + 1]);
    }
    if front != [] {
      assert Follows(out[|front| - 1], out[|front|]);
    }
    AppendMeaning(front, last, x);
    AppendMeaning(front, last.(length := to - last.offset), x);
    if x >= last.offset {
      NothingAfter(front, x);
    }
  }

  // ---- The table ----

  /** What the sweep has written up to `pos` says what the ranges say, and nothing beyond. */
  ghost predicate SweptTo(rs: seq<ErrorRange>, out: seq<ErrorRange>, pos: u64) {
    && Normalised(out) && AllFit(out) && (out == [] || out[|out| - 1].End() <= pos)
    && forall x: int :: KindAt(out, x) == if 0 <= x < pos then KindAt(rs, x) else None
  }

  /** Between two neighbouring boundaries the coverage does not change. */
  lemma SegmentConstant(rs: seq<ErrorRange>, i: nat, from: u64, to: u64, x: int)
    requires var es := SortEvents(EventsOf(rs));
             && i < |es| && es[i].pos == to && from <= x < to
             && (forall j :: 0 <= j < i ==> es[j].pos <= from) && (i == 0 ==> from == 0)
    ensures var es := SortEvents(EventsOf(rs));
            KindAt(rs, x) == Current(Total(es[..i], Substituted), Total(es[..i], Unread))
  {
    hide SortEvents, EventsOf, Total, KindAt, Balance, Current;
    var es := SortEvents(EventsOf(rs));
    SortKeeps(EventsOf(rs), Unread, x);
    CurrentIsKindAt(rs, i, x);
  }

  lemma EmitFits(out: seq<ErrorRange>, from: u64, to: u64, current: Option<RangeKind>)
    requires from <= to && AllFit(out) && (out == [] || out[|out| - 1].offset <= from)
    ensures AllFit(Emit(out, from, to, current))
  {
  }

  lemma SweepSegment(rs: seq<ErrorRange>, out: seq<ErrorRange>, i: nat, from: u64, to: u64)
    requires var es := SortEvents(EventsOf(rs));
             && i < |es| && es[i].pos == to && from <= to
             && (forall j :: 0 <= j < i ==> es[j].pos <= from) && (i == 0 ==> from == 0)
    requires SweptTo(rs, out, from)
    ensures var es := SortEvents(EventsOf(rs));
            SweptTo(rs, Emit(out, from, to, Current(Total(es[..i], Substituted), Total(es[..i], Unread))), to)
  {
    hide KindAt, Emit, SortEvents, EventsOf, Total, Normalised;
    var es := SortEvents(EventsOf(rs));
    var current := Current(Total(es[..i], Substituted), Total(es[..i], Unread));
    EmitMeaning(out, from, to, current, 0);
    EmitFits(out, from, to, current);
    forall x: int
      ensures KindAt(Emit(out, from, to, current), x) == if 0 <= x < to then KindAt(rs, x) else None
    {
      EmitMeaning(out, from, to, current, x);
      if from <= x < to {
        SegmentConstant(rs, i, from, to, x);
      }
    }
  }

  /** Beyond the last boundary nothing is covered. */
  lemma SweepEnd(rs: seq<ErrorRange>, out: seq<ErrorRange>, pos: u64)
    requires var es := SortEvents(EventsOf(rs));
             (forall j :: 0 <= j < |es| ==> es[j].pos <= pos) && SweptTo(rs, out, pos)
    ensures SameMeaning(out, rs)
  {
    hide KindAt;
    var es := SortEvents(EventsOf(rs));
    assert es[..|es|] == es;
    forall x: int | x >= pos
      ensures KindAt(rs, x) == None
    {
      CurrentIsKindAt(rs, |es|, x);
      CurrentIsKindAt(rs, |es|, U64_MAX);
      NothingAtMax(rs);
    }
  }

  lemma NothingAtMax(rs: seq<ErrorRange>)
    ensures KindAt(rs, U64_MAX) == None
  {
  }

  /** The inner loop over the events at one position. */
  method TakeGroup(es: seq<Event>, i0: nat, substituted0: int, unread0: int)
    returns (i: nat, substituted: int, unread: int)
    requires i0 < |es| && SortedByPos(es)
    requires substituted0 == Total(es[..i0], Substituted) && unread0 == Total(es[..i0], Unread)
    ensures i0 < i <= |es| && (forall j :: i0 <= j < i ==> es[j].pos == es[i0].pos)
    ensures forall j :: i <= j < |es| ==> es[j].pos > es[i0].pos
    ensures substituted == Total(es[..i], Substituted) && unread == Total(es[..i], Unread)
  {
    hide Total;
    i, substituted, unread := i0, substituted0, unread0;
    while i < |es| && es[i].pos == es[i0].pos
      invariant i0 <= i <= |es| && (forall j :: i0 <= j < i ==> es[j].pos == es[i0].pos)
      invariant substituted == Total(es[..i], Substituted) && unread == Total(es[..i], Unread)
    {
      TotalSnoc(es, i, Substituted);
      TotalSnoc(es, i, Unread);
      match es[i].kind {
        case Substituted => substituted := substituted + es[i].delta;
        case Unread => unread := unread + es[i].delta;
      }
      i := i + 1;
    }
  }

  /** The sweep: counts the ranges of each kind that cover the current position. */
  method Sweep(rs: seq<ErrorRange>) returns (out: seq<ErrorRange>)
    ensures Normalised(out) && AllFit(out) && SameMeaning(out, rs)
  {
    hide KindAt, Total, Emit;
    var es := SortEvents(EventsOf(rs));
    SortKeeps(EventsOf(rs), Unread, 0);
    out := [];
    var substituted, unread, i, prev: u64 := 0, 0, 0, 0;
    EmptyTotals(es);
    StartSwept(rs);
    while i < |es|
      invariant i <= |es| && (forall j :: 0 <= j < i ==> es[j].pos <= prev) && (i == 0 ==> prev == 0)
      invariant forall j :: i <= j < |es| ==> prev <= es[j].pos
      invariant substituted == Total(es[..i], Substituted) && unread == Total(es[..i], Unread)
      invariant SweptTo(rs, out, prev)
      decreases |es| - i
    {
      var pos := es[i].pos;
      SweepSegment(rs, out, i, prev, pos);
      out := Emit(out, prev, pos, Current(substituted, unread));
      i, substituted, unread := TakeGroup(es, i, substituted, unread);
      prev := pos;
    }
    SweepEnd(rs, out, prev);
  }

  lemma EmptyTotals(es: seq<Event>)
    ensures Total(es[..0], Substituted) == 0 && Total(es[..0], Unread) == 0
  {
  }

  lemma StartSwept(rs: seq<ErrorRange>)
    ensures SweptTo(rs, [], 0)
  {
  }

  ghost predicate SameMeaning(a: seq<ErrorRange>, b: seq<ErrorRange>) {
    forall x: int :: x >= 0 ==> KindAt(a, x) == KindAt(b, x)
  }

  /** Bytes in the ranges of a kind. */
  function LengthOf(rs: seq<ErrorRange>, kind: RangeKind): nat {
    if rs == [] then 0
    else LengthOf(rs[..|rs| - 1], kind) + if rs[|rs| - 1].kind == kind then rs[|rs| - 1].length else 0
  }

  lemma LengthOfSnoc(rs: seq<ErrorRange>, r: ErrorRange, kind: RangeKind)
    ensures LengthOf(rs + [r], kind) == LengthOf(rs, kind) + if r.kind == kind then r.length else 0
  {
  }

  /** Everything in the table lies below `limit`, and nothing saturates. */
  predicate Below(rs: seq<ErrorRange>, limit: int) {
    rs == [] || rs[|rs| - 1].offset + rs[|rs| - 1].length <= limit
  }

  /** Where the image does not hold what was read from the source. */
  class ReadErrorTable {
    var ranges: seq<ErrorRange>

    constructor ()
      ensures ranges == []
    {
      ranges := [];
    }

    /** Restore the normal form; what the table says of every byte stays. */
    method Normalise()
      modifies this
      ensures Normalised(ranges) && SameMeaning(ranges, old(ranges)) && (AllFit(old(ranges)) ==> AllFit(ranges))
      ensures Normalised(old(ranges)) ==> ranges == old(ranges)
    {
      if !Normalised(ranges) {
        ranges := Sweep(ranges);
      }
    }

    /** Add a range. Each byte keeps the worse of what was and what is now said of it; appending in
        ascending order adds exactly the range's bytes. */
    method Push(offset: u64, length: u64, kind: RangeKind)
      requires Normalised(ranges)
      modifies this
      ensures Normalised(ranges) <==> !Degenerate(old(ranges), offset, length, kind)
      ensures forall x: int :: x >= 0 ==>
                KindAt(ranges, x) == Worse(KindAt(old(ranges), x), KindAt([ErrorRange(offset, length, kind)], x))
      ensures TakenIn(old(ranges), ranges, ErrorRange(offset, length, kind))
      ensures AllFit(old(ranges)) && offset + length <= U64_MAX ==> AllFit(ranges)
      ensures Below(old(ranges), offset) && offset + length <= U64_MAX ==>
                && Below(ranges, offset + length)
                && forall k :: LengthOf(ranges, k) == LengthOf(old(ranges), k) + if k == kind then length else 0
    {
      hide KindAt, LengthOf, Normalised;
      var range := ErrorRange(offset, length, kind);
      ghost var before := ranges;
      if length == 0 {
        EmptyRange(before, range);
        WorseIsTaken(before, ranges, range);
        return;
      }
      if ranges == [] || range.offset > ranges[|ranges| - 1].End() {
        PushBehind(before, range);
        ranges := ranges + [range];
      } else {
        var last := |ranges| - 1;
        if range.offset == ranges[last].End() && range.kind == ranges[last].kind {
          PushExtends(before, range);
          ranges := Extended(ranges, range);
        } else if range.offset == ranges[last].End() {
          PushBehind(before, range);
          ranges := ranges + [range];
        } else {
          ranges := ranges + [range];
          PushInside(before, range);
          Normalise();
        }
      }
      WorseIsTaken(before, ranges, range);
    }
  }

  // ---- One table for one meaning ----

  /** The first range tells where the table's meaning starts and how it goes on. */
  lemma FirstRange(rs: seq<ErrorRange>, x: int)
    requires Normalised(rs) && rs != []
    ensures Normalised(rs[1..])
    ensures x < rs[0].End() ==>
              KindAt(rs[1..], x) == None && KindAt(rs, x) == if rs[0].Covers(x) then Some(rs[0].kind) else None
    ensures x >= rs[0].End() ==> KindAt(rs, x) == KindAt(rs[1..], x)
  {
    hide KindAt;
    var rest := rs[1..];
    assert rs == [rs[0]] + rest;
    KindAtConcat([rs[0]], rest, x);
    KindAtOne(rs[0], x);
    WorseNone(KindAt(rest, x));
    WorseNone(Some(rs[0].kind));
    forall i | 0 <= i < |rest| - 1
      ensures Follows(rest[i], rest[i + 1])
    {
      assert Follows(rs[i + 1], rs[i + 2]);
    }
    if x < rs[0].End() {
      NothingBefore(rs, x);
    }
  }

  lemma NothingBefore(rs: seq<ErrorRange>, x: int)
    requires Normalised(rs) && rs != [] && x < rs[0].End()
    ensures KindAt(rs[1..], x) == None
  {
    forall r | r in rs[1..]
      ensures !r.Covers(x)
    {
      var i :| 0 <= i < |rs| - 1 && rs[1..][i] == r;
      NormalisedOrder(rs, 0, i + 1);
    }
  }

  lemma FirstOffset(rs: seq<ErrorRange>)
    requires Normalised(rs) && AllFit(rs) && rs != []
    ensures KindAt(rs, rs[0].offset) == Some(rs[0].kind)
    ensures forall x: int :: x < rs[0].offset ==> KindAt(rs, x) == None
    ensures forall x: int :: rs[0].Covers(x) ==> KindAt(rs, x) == Some(rs[0].kind)
  {
    hide KindAt, Normalised;
    assert rs[0].length > 0 by {
      LengthPositive(rs);
    }
    forall x: int | x < rs[0].End()
      ensures KindAt(rs, x) == if rs[0].Covers(x) then Some(rs[0].kind) else None
    {
      FirstRange(rs, x);
    }
  }

  lemma LengthPositive(rs: seq<ErrorRange>)
    requires Normalised(rs) && rs != []
    ensures rs[0].length > 0
  {
  }

  lemma FirstOf(a: seq<ErrorRange>, b: seq<ErrorRange>)
    requires Normalised(a) && AllFit(a) && Normalised(b) && AllFit(b) && a != [] && SameMeaning(a, b)
    ensures b != [] && a[0].offset >= b[0].offset
    ensures a[0].offset == b[0].offset ==> a[0].kind == b[0].kind && a[0].End() <= b[0].End()
  {
    hide KindAt, Normalised;
    FirstOffset(a);
    if b == [] {
      NothingAfter(b, a[0].offset);
    } else {
      FirstOffset(b);
      if a[0].offset == b[0].offset && b[0].End() < a[0].End() {
        NextDiffers(b);
      }
    }
  }

  /** Where a range of the normal form ends, its kind ends. */
  lemma NextDiffers(rs: seq<ErrorRange>)
    requires Normalised(rs) && AllFit(rs) && rs != []
    ensures KindAt(rs, rs[0].End()) != Some(rs[0].kind)
  {
    var x := rs[0].End();
    FirstRange(rs, x);
    if |rs| > 1 {
      assert Follows(rs[0], rs[1]);
      FirstRange(rs[1..], x);
    } else {
      NothingAfter(rs[1..], x);
    }
  }

  /** Two tables in normal form that say the same of every byte are the same table. */
  lemma {:induction false} NormalFormUnique(a: seq<ErrorRange>, b: seq<ErrorRange>)
    requires Normalised(a) && AllFit(a) && Normalised(b) && AllFit(b) && SameMeaning(a, b)
    ensures a == b
    decreases |a|
  {
    hide KindAt;
    if a == [] {
      if b != [] {
        FirstOf(b, a);
      }
    } else {
      FirstOf(a, b);
      FirstOf(b, a);
      forall x: int | x >= 0
        ensures KindAt(a[1..], x) == KindAt(b[1..], x)
      {
        FirstRange(a, x);
        FirstRange(b, x);
      }
      FirstRange(a, 0);
      FirstRange(b, 0);
      NormalFormUnique(a[1..], b[1..]);
      assert a == [a[0]] + a[1..] && b == [b[0]] + b[1..];
    }
  }

  /** Pushing ranges one after the other onto an empty table. */
  method PushAll(rs: seq<ErrorRange>) returns (ranges: seq<ErrorRange>)
    requires AllFit(rs)
    ensures Normalised(ranges) && AllFit(ranges) && SameMeaning(ranges, rs)
  {
    hide KindAt;
    var table := new ReadErrorTable();
    assert rs[..0] == [];
    for i := 0 to |rs|
      invariant Normalised(table.ranges) && AllFit(table.ranges) && SameMeaning(table.ranges, rs[..i])
    {
      forall x: int
        ensures KindAt(rs[..i + 1], x) == Worse(KindAt(rs[..i], x), KindAt([rs[i]], x))
      {
        assert rs[..i + 1] == rs[..i] + [rs[i]];
        KindAtConcat(rs[..i], [rs[i]], x);
      }
      table.Push(rs[i].offset, rs[i].length, rs[i].kind);
    }
    assert rs[..|rs|] == rs;
    ranges := table.ranges;
  }

  lemma SameRangesSameMeaning(a: seq<ErrorRange>, b: seq<ErrorRange>)
    requires forall r :: r in a <==> r in b
    ensures SameMeaning(a, b)
  {
  }

  /** Any normal form with the meaning of `a` is the one with the meaning of `b`. */
  lemma PushOrderIrrelevant(a: seq<ErrorRange>, b: seq<ErrorRange>, tableA: seq<ErrorRange>, tableB: seq<ErrorRange>)
    requires forall r :: r in a <==> r in b
    requires Normalised(tableA) && AllFit(tableA) && SameMeaning(tableA, a)
    requires Normalised(tableB) && AllFit(tableB) && SameMeaning(tableB, b)
    ensures tableA == tableB
  {
    SameRangesSameMeaning(a, b);
    NormalFormUnique(tableA, tableB);
  }

  /** The order in which ranges are pushed, and pushing one twice, make no difference to the table. */
  method PushInTwoOrders(a: seq<ErrorRange>, b: seq<ErrorRange>)
    returns (tableA: seq<ErrorRange>, tableB: seq<ErrorRange>)
    requires AllFit(a) && AllFit(b) && forall r :: r in a <==> r in b
    ensures tableA == tableB && Normalised(tableA) && SameMeaning(tableA, a)
  {
    tableA := PushAll(a);
    tableB := PushAll(b);
    PushOrderIrrelevant(a, b, tableA, tableB);
  }

  // ---- Lengths count bytes ----

  function BytesAt(rs: seq<ErrorRange>, kind: RangeKind): set<int> {
    if rs == [] then {}
    else
      var r := rs[|rs| - 1];
      BytesAt(rs[..|rs| - 1], kind) + if r.kind == kind then Span(r.offset, r.End()) else {}
  }

  function Span(lo: int, hi: int): (s: set<int>)
    ensures forall x: int :: x in s <==> lo <= x < hi
    decreases hi - lo
  {
    if lo < hi then Span(lo, hi - 1) + {hi - 1} else {}
  }

  lemma {:induction false} SpanSize(lo: int, hi: int)
    requires lo <= hi
    ensures |Span(lo, hi)| == hi - lo
    decreases hi - lo
  {
    if lo < hi {
      SpanSize(lo, hi - 1);
    }
  }

  lemma NormalisedFront(rs: seq<ErrorRange>)
    requires Normalised(rs) && rs != []
    ensures var front, last := rs[..|rs| - 1], rs[|rs| - 1];
            Normalised(front) && last.length > 0 && (front == [] || Follows(front[|front| - 1], last))
  {
  }

  lemma {:induction false} BytesAtMeaning(rs: seq<ErrorRange>, kind: RangeKind, x: int)
    requires Normalised(rs)
    ensures x in BytesAt(rs, kind) <==> KindAt(rs, x) == Some(kind)
  {
    hide KindAt, Normalised;
    if rs == [] {
      NothingAfter(rs, x);
    } else {
      var front, r := rs[..|rs| - 1], rs[|rs| - 1];
      NormalisedFront(rs);
      BytesAtMeaning(front, kind, x);
      assert rs == front + [r];
      AppendMeaning(front, r, x);
      if r.Covers(x) {
        NothingAfter(front, x);
      }
    }
  }

  lemma LastApart(rs: seq<ErrorRange>, kind: RangeKind)
    requires Normalised(rs) && rs != []
    ensures var r := rs[|rs| - 1]; BytesAt(rs[..|rs| - 1], kind) !! Span(r.offset, r.End())
  {
    var front, r := rs[..|rs| - 1], rs[|rs| - 1];
    NormalisedFront(rs);
    hide KindAt, Normalised, BytesAt, Span;
    forall x: int | x in Span(r.offset, r.End())
      ensures x !in BytesAt(front, kind)
    {
      BytesAtMeaning(front, kind, x);
      NothingAfter(front, x);
    }
  }

  lemma {:induction false} LengthIsSize(rs: seq<ErrorRange>, kind: RangeKind)
    requires Normalised(rs) && AllFit(rs)
    ensures |BytesAt(rs, kind)| == LengthOf(rs, kind)
  {
    hide Normalised;
    if rs != [] {
      var front, r := rs[..|rs| - 1], rs[|rs| - 1];
      NormalisedFront(rs);
      LengthIsSize(front, kind);
      LastApart(rs, kind);
      SpanSize(r.offset, r.End());
      hide Span;
    }
  }

  /** In the normal form the lengths of a kind add up to the number of bytes the table says it of. */
  lemma LengthIsCount(rs: seq<ErrorRange>, kind: RangeKind)
    requires Normalised(rs) && AllFit(rs)
    ensures |BytesAt(rs, kind)| == LengthOf(rs, kind)
    ensures forall x: int :: x in BytesAt(rs, kind) <==> KindAt(rs, x) == Some(kind)
  {
    hide KindAt, Normalised, BytesAt, LengthOf;
    LengthIsSize(rs, kind);
    forall x: int
      ensures x in BytesAt(rs, kind) <==> KindAt(rs, x) == Some(kind)
    {
      BytesAtMeaning(rs, kind, x);
    }
  }

  /** What a push must come to. */
  ghost predicate Pushed(before: seq<ErrorRange>, r: ErrorRange, after: seq<ErrorRange>) {
    && (forall x: int :: x >= 0 ==> KindAt(after, x) == Worse(KindAt(before, x), KindAt([r], x)))
    && (AllFit(before) && r.offset + r.length <= U64_MAX ==> AllFit(after))
    && (Below(before, r.offset) && r.offset + r.length <= U64_MAX ==>
          && Below(after, r.offset + r.length)
          && forall k :: LengthOf(after, k) == LengthOf(before, k) + if k == r.kind then r.length else 0)
  }

  lemma EmptyRange(before: seq<ErrorRange>, r: ErrorRange)
    requires r.length == 0
    ensures Pushed(before, r, before)
  {
  }

  lemma PushBehind(before: seq<ErrorRange>, r: ErrorRange)
    requires Normalised(before) && r.length > 0 && (before == [] || Follows(before[|before| - 1], r))
    ensures Normalised(before + [r]) && Pushed(before, r, before + [r])
  {
    hide KindAt, LengthOf;
    AppendMeaning(before, r, 0);
    forall x: int
      ensures KindAt(before + [r], x) == Worse(KindAt(before, x), KindAt([r], x))
    {
      KindAtConcat(before, [r], x);
    }
    LengthOfSnoc(before, r, Substituted);
    LengthOfSnoc(before, r, Unread);
  }

  /** Pushing to the very end of the u64 range what is there already: nothing is left of the range. */
  predicate Degenerate(rs: seq<ErrorRange>, offset: u64, length: u64, kind: RangeKind) {
    && length > 0 && offset == U64_MAX
    && rs != [] && rs[|rs| - 1].offset == U64_MAX && rs[|rs| - 1].kind == kind
  }

  function Extended(before: seq<ErrorRange>, r: ErrorRange): seq<ErrorRange>
    requires before != [] && before[|before| - 1].offset <= r.End()
  {
    var last := before[|before| - 1];
    before[..|before| - 1] + [last.(length := r.End() - last.offset)]
  }

  lemma PushExtends(before: seq<ErrorRange>, r: ErrorRange)
    requires Normalised(before) && r.length > 0 && before != []
    requires r.offset == before[|before| - 1].End() && r.kind == before[|before| - 1].kind
    ensures Pushed(before, r, Extended(before, r))
    ensures Normalised(Extended(before, r)) <==> !Degenerate(before, r.offset, r.length, r.kind)
  {
    hide KindAt, Covered, LengthOf;
    var front, last := before[..|before| - 1], before[|before| - 1];
    var longer := last.(length := r.End() - last.offset);
    assert before == front + [last];
    forall x: int
      ensures KindAt(Extended(before, r), x) == Worse(KindAt(before, x), KindAt([r], x))
    {
      KindAtConcat(front, [last], x);
      KindAtConcat(front, [longer], x);
      KindAtOne(last, x);
      KindAtOne(longer, x);
      KindAtOne(r, x);
    }
    LengthOfSnoc(front, last, Substituted);
    LengthOfSnoc(front, last, Unread);
    LengthOfSnoc(front, longer, Substituted);
    LengthOfSnoc(front, longer, Unread);
    ExtendedNormalised(before, r);
  }

  lemma ExtendedNormalised(before: seq<ErrorRange>, r: ErrorRange)
    requires Normalised(before) && r.length > 0 && before != []
    requires r.offset == before[|before| - 1].End() && r.kind == before[|before| - 1].kind
    ensures Normalised(Extended(before, r)) <==> !Degenerate(before, r.offset, r.length, r.kind)
  {
    var after, last := Extended(before, r), |before| - 1;
    assert after[last].length > 0 <==> !Degenerate(before, r.offset, r.length, r.kind);
    assert forall i :: 0 <= i < last ==> after[i] == before[i] && Follows(before[i], before[i + 1]);
  }

  lemma PushInside(before: seq<ErrorRange>, r: ErrorRange)
    requires before != [] && r.offset < before[|before| - 1].End()
    ensures Pushed(before, r, before + [r])
  {
  }
}
