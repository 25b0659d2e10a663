/** Checking an image stream against a pieces file: the report of a whole image, and the streaming
    checker that computes it. */
module PieceCheck {
  import opened Wrappers
  import opened Pieces
  import opened PiecesFile

  /** Mismatching pieces listed one by one; all of them are counted. */
  const MAX_LISTED: nat := 1000

  datatype PieceMismatch = PieceMismatch(index: nat, offset: nat, length: nat, expected: string, computed: string,
                                         present: nat)

  datatype Report = Report(
    piecesChecked: nat,
    bytesChecked: nat,
    mismatches: seq<PieceMismatch>,
    mismatchCount: nat,
    coveredBytes: nat,
    imageBytes: nat)
  {
    /** At least one piece, none that differs, and not a byte of the image outside them. */
    predicate AllMatch() {
      piecesChecked > 0 && mismatches == [] && mismatchCount == 0 && imageBytes == coveredBytes
    }
  }

  // ---- The whole image ----

  /** Bytes of the piece that are in the image. */
  function Present(image: seq<byte>, r: PieceRecord): nat {
    if |image| <= r.offset then 0 else Clip(|image| - r.offset, r.length)
  }

  function BytesOf(image: seq<byte>, r: PieceRecord): seq<byte> {
    if |image| <= r.offset then [] else image[r.offset..r.offset + Present(image, r)]
  }

  /** The digest of the bytes present; none for a piece the image ends before. */
  function Computed(image: seq<byte>, r: PieceRecord, H: Hash): string {
    if Present(image, r) == 0 then "" else H(BytesOf(image, r))
  }

  predicate Differs(image: seq<byte>, r: PieceRecord, H: Hash) {
    Present(image, r) != r.length || Computed(image, r, H) != r.sha256
  }

  function MismatchOf(image: seq<byte>, r: PieceRecord, H: Hash): PieceMismatch {
    PieceMismatch(r.index, r.offset, r.length, r.sha256, Computed(image, r, H), Present(image, r))
  }

  /** The differing pieces, in order. */
  function Mismatches(image: seq<byte>, rs: seq<PieceRecord>, H: Hash): seq<PieceMismatch> {
    if rs == [] then []
    else
      var rest, r := Mismatches(image, rs[..|rs| - 1], H), rs[|rs| - 1];
      if Differs(image, r, H) then rest + [MismatchOf(image, r, H)] else rest
  }

  function FirstListed(ms: seq<PieceMismatch>): seq<PieceMismatch> {
    ms[..Clip(|ms|, MAX_LISTED)]
  }

  /** What checking the whole image against the records reports. */
  function ReportOf(image: seq<byte>, rs: seq<PieceRecord>, H: Hash): Report {
    var ms := Mismatches(image, rs, H);
    Report(|rs|, Clip(|image|, EndOf(rs, 0)), FirstListed(ms), |ms|, EndOf(rs, 0), |image|)
  }

  lemma {:induction false} InMismatches(image: seq<byte>, rs: seq<PieceRecord>, H: Hash, m: PieceMismatch)
    ensures m in Mismatches(image, rs, H)
       <==> exists r :: r in rs && Differs(image, r, H) && MismatchOf(image, r, H) == m
  {
    if rs != [] {
      var front, last := rs[..|rs| - 1], rs[|rs| - 1];
      assert rs == front + [last];
      InMismatches(image, front, H, m);
    }
  }

  /** Bytes [from, to) of an image, as far as it has them. */
  function Within(image: seq<byte>, from: nat, to: nat): seq<byte>
    requires from <= to
  {
    image[Clip(from, |image|)..Clip(to, |image|)]
  }

  lemma BytesWithin(image: seq<byte>, r: PieceRecord)
    ensures BytesOf(image, r) == Within(image, r.offset, r.End()) && Present(image, r) == |BytesOf(image, r)|
  {
  }

  /** A mismatch repeats what the file says of the piece, and gives the number and the digest of the bytes
      the image has of it: no digest if it has none. */
  predicate Describes(m: PieceMismatch, r: PieceRecord, image: seq<byte>, H: Hash) {
    var bytes := Within(image, r.offset, r.End());
    && m.index == r.index && m.offset == r.offset && m.length == r.length && m.expected == r.sha256
    && m.present == |bytes| && m.computed == if bytes == [] then "" else H(bytes)
  }

  /** Each mismatch describes one of the pieces. */
  lemma MismatchDescribes(image: seq<byte>, rs: seq<PieceRecord>, H: Hash, m: PieceMismatch) returns (r: PieceRecord)
    requires m in Mismatches(image, rs, H)
    ensures r in rs && Differs(image, r, H) && Describes(m, r, image, H)
  {
    InMismatches(image, rs, H, m);
    r :| r in rs && Differs(image, r, H) && MismatchOf(image, r, H) == m;
    BytesWithin(image, r);
  }

  /** The totals are those of the pieces and the image, and each mismatch describes one of the pieces. */
  ghost predicate Reports(report: Report, image: seq<byte>, rs: seq<PieceRecord>, H: Hash) {
    && report.piecesChecked == |rs| && report.coveredBytes == EndOf(rs, 0)
    && report.imageBytes == |image| && report.bytesChecked == Clip(|image|, EndOf(rs, 0))
    && forall m :: m in report.mismatches ==> exists r :: r in rs && Describes(m, r, image, H)
  }

  lemma ReportReports(image: seq<byte>, rs: seq<PieceRecord>, H: Hash)
    ensures Reports(ReportOf(image, rs, H), image, rs, H)
  {
    hide Mismatches, Describes, EndOf;
    var ms := Mismatches(image, rs, H);
    forall m | m in FirstListed(ms)
      ensures exists r :: r in rs && Describes(m, r, image, H)
    {
      assert m in ms;
      var r := MismatchDescribes(image, rs, H, m);
    }
  }

  /** Mismatches are listed by ascending piece number. */
  predicate Ascending(ms: seq<PieceMismatch>) {
    forall i, j :: 0 <= i < j < |ms| ==> ms[i].index < ms[j].index
  }

  lemma {:induction false} MismatchesAscend(image: seq<byte>, rs: seq<PieceRecord>, H: Hash)
    requires Chained(rs, 0, 0)
    ensures Ascending(Mismatches(image, rs, H))
    ensures forall m :: m in Mismatches(image, rs, H) ==> m.index < |rs|
  {
    hide Differs, Computed, Present;
    if rs != [] {
      var n := |rs| - 1;
      ChainedPrefix(rs, 0, 0, n);
      MismatchesAscend(image, rs[..n], H);
      ChainedAt(rs, 0, 0, n);
    }
  }

  lemma SeenInPrefix(image: seq<byte>, more: seq<byte>, r: PieceRecord, H: Hash)
    requires r.End() <= |image|
    ensures Differs(image + more, r, H) == Differs(image, r, H)
    ensures MismatchOf(image + more, r, H) == MismatchOf(image, r, H)
  {
    assert (image + more)[r.offset..r.End()] == image[r.offset..r.End()];
  }

  /** Records that end in the first bytes of an image see only those bytes. */
  lemma {:induction false} MismatchesOfPrefix(image: seq<byte>, more: seq<byte>, rs: seq<PieceRecord>, H: Hash)
    requires forall r :: r in rs ==> r.End() <= |image|
    ensures Mismatches(image + more, rs, H) == Mismatches(image, rs, H)
  {
    hide Differs, MismatchOf;
    if rs != [] {
      var front, last := rs[..|rs| - 1], rs[|rs| - 1];
      assert rs == front + [last];
      MismatchesOfPrefix(image, more, front, H);
      SeenInPrefix(image, more, last, H);
    }
  }

  // ---- The streaming checker ----

  lemma {:induction false} EndOfSnoc(rs: seq<PieceRecord>, r: PieceRecord, offset: nat)
    ensures EndOf(rs + [r], offset) == EndOf(rs, offset) + r.length
  {
    if rs == [] {
      assert (rs + [r])[1..] == [];
    } else {
      assert (rs + [r])[1..] == rs[1..] + [r];
      EndOfSnoc(rs[1..], r, offset + rs[0].length);
    }
  }

  /** The bytes of a piece the image ends in. */
  lemma OpenPiece(image: seq<byte>, r: PieceRecord)
    requires r.offset <= |image| <= r.End()
    ensures Present(image, r) == |image| - r.offset && BytesOf(image, r) == image[r.offset..]
  {
  }

  lemma OpenBytes(image: seq<byte>, more: seq<byte>, r: PieceRecord)
    requires r.offset <= |image| && |image| + |more| <= r.End()
    ensures Present(image + more, r) == Present(image, r) + |more|
    ensures BytesOf(image + more, r) == BytesOf(image, r) + more
  {
  }

  /** Checks an image against a pieces file, both in passing. `sha` stands for the hash
      state: the bytes of the current piece fed so far. */
  class PieceChecker {
    const H: Hash
    const reader: PiecesReader
    var current: Option<PieceRecord>
    var filled: nat
    var sha: seq<byte>
    var failed: Option<LineError>
    var piecesChecked: nat
    var bytesChecked: nat
    var mismatches: seq<PieceMismatch>
    var mismatchCount: nat
    var coveredBytes: nat
    ghost var fed: seq<byte>        // every byte of the image seen so far
    ghost const all: Reading        // what the file holds after its header
    ghost var closed: nat           // pieces closed so far

    /** What is counted is about the closed pieces and the bytes fed. */
    ghost predicate Tallied()
      reads this
    {
      && closed <= |all.pieces| && piecesChecked == closed
      && mismatches == FirstListed(Mismatches(fed, all.pieces[..closed], H))
      && mismatchCount == |Mismatches(fed, all.pieces[..closed], H)|
    }

    /** The reader has given the pieces before `closed`. */
    ghost predicate AtNext()
      reads this, reader
    {
      && closed <= |all.pieces| && failed == None
      && reader.Remaining() == Reading(all.pieces[closed..], all.failure)
      && coveredBytes == EndOf(all.pieces[..closed], 0)
    }

    /** The reader has given piece `closed` too, or has come to the end or to a line it refuses. */
    ghost predicate Positioned()
      reads this, reader
    {
      && closed <= |all.pieces|
      && (closed < |all.pieces| ==>
            && current == Some(all.pieces[closed]) && failed == None
            && reader.Remaining() == Reading(all.pieces[closed + 1..], all.failure)
            && coveredBytes == EndOf(all.pieces[..closed + 1], 0))
      && (closed == |all.pieces| ==> current == None && failed == all.failure && coveredBytes == EndOf(all.pieces, 0))
    }

    ghost predicate Between()
      reads this, reader
    {
      Chained(all.pieces, 0, 0) && Tallied() && Positioned()
    }

    /** The open piece holds the bytes of it that were fed. */
    ghost predicate Holding()
      reads this
    {
      && closed < |all.pieces|
      && filled == |sha| == Present(fed, all.pieces[closed]) && sha == BytesOf(fed, all.pieces[closed])
    }

    /** No piece is complete and still open. */
    ghost predicate Valid()
      reads this, reader
    {
      && Between()
      && (closed < |all.pieces| ==>
            Holding() && all.pieces[closed].offset <= |fed| < all.pieces[closed].End() && bytesChecked == |fed|)
      && (closed == |all.pieces| ==> filled == 0 && sha == [] && bytesChecked == EndOf(all.pieces, 0) <= |fed|)
    }

    /** `body`: the text after a valid header. */
    constructor (body: string, H: Hash)
      ensures Valid() && fresh(reader) && fed == [] && all == ReadAll(body, 1, 0, 0) && this.H == H
    {
      hide ReadAll;
      this.H := H;
      reader := new PiecesReader(body);
      current, failed := None, None;
      filled, sha, piecesChecked, bytesChecked := 0, [], 0, 0;
      mismatches, mismatchCount, coveredBytes := [], 0, 0;
      fed, closed := [], 0;
      all := ReadAll(body, 1, 0, 0);
      new;
      ReadAllChained(body, 1, 0, 0);
      assert all.pieces[..0] == [] && all.pieces[0..] == all.pieces;
      assert EndOf([], 0) == 0 && FirstListed(Mismatches([], [], H)) == [] == Mismatches([], [], H);
      hide EndOf, Mismatches, FirstListed, Chained, Present, BytesOf;
      Advance();
      EndsAt(all.pieces, 0);
      if all.pieces != [] {
        OpenPiece(fed, all.pieces[0]);
      }
    }

    /** Take the next piece from the reader. */
    method Advance()
      requires AtNext()
      modifies this`current, this`failed, this`coveredBytes, reader
      ensures Positioned()
    {
      hide EndOf, ReadAll;
      ghost var before, left := all.pieces[..closed], all.pieces[closed..];
      var next := reader.NextPiece();
      match next {
        case Ok(Some(p)) =>
          assert left[0] == p && left[1..] == all.pieces[closed + 1..];
          assert all.pieces[..closed + 1] == before + [p];
          EndOfSnoc(before, p, 0);
          coveredBytes := coveredBytes + p.length;
          current := Some(p);
        case Ok(None) =>
          assert |left| == 0 && before == all.pieces;
          current := None;
        case Err(e) =>
          assert |left| == 0 && before == all.pieces;
          failed := Some(e);
          current := None;
      }
    }

    /** Compare the current piece with the bytes of it that were fed. */
    method ClosePiece()
      requires Between() && Holding()
      modifies this`current, this`sha, this`filled, this`piecesChecked, this`mismatches, this`mismatchCount, this`closed
      ensures closed == old(closed) + 1 && sha == [] && filled == 0 && Tallied() && AtNext()
    {
      hide EndOf, ReadAll, Chained, Mismatches, FirstListed;
      var piece := current.value;
      MismatchesNext(fed, all.pieces, closed, H);
      ghost var before := Mismatches(fed, all.pieces[..closed], H);
      assert before + [] == before;
      ListedNext(before, MismatchOf(fed, piece, H));
      current := None;
      var computed := if filled > 0 then H(sha) else "";
      piecesChecked := piecesChecked + 1;
      if filled != piece.length || computed != piece.sha256 {
        mismatchCount := mismatchCount + 1;
        if |mismatches| < MAX_LISTED {
          var m := PieceMismatch(piece.index, piece.offset, piece.length, piece.sha256, computed, filled);
          mismatches := mismatches + [m];
        }
      }
      sha, filled := [], 0;
      closed := closed + 1;
    }

    /** Take in more of the image. */
    method Feed(data0: seq<byte>)
      requires Valid()
      modifies this, reader
      ensures Valid() && fed == old(fed) + data0
    {
      hide EndOf, ReadAll, Mismatches, FirstListed, Chained, Present, BytesOf;
      var data := data0;
      while data != [] && failed == None
        invariant Valid() && fed + data == old(fed) + data0
        decreases |data|
      {
        if current == None {
          // No piece is left: these bytes belong to none
          See(data);
          return;
        }
        data := FeedOpen(data);
      }
      if data != [] {
        See(data);
      }
    }

    /** Feed the open piece, and close it when it is complete. */
    method FeedOpen(data0: seq<byte>) returns (data: seq<byte>)
      requires Valid() && closed < |all.pieces| && data0 != []
      modifies this, reader
      ensures Valid() && |data| < |data0| && fed + data == old(fed) + data0
    {
      hide EndOf, ReadAll, Mismatches, FirstListed, Chained, Present, BytesOf;
      var piece := current.value;
      OpenPiece(fed, piece);
      var take := Clip(piece.length - filled, |data0|);
      assert fed + data0 == (fed + data0[..take]) + data0[take..];
      data := data0[take..];
      TakeIn(data0[..take]);
      OpenPiece(fed, piece);
      if filled == piece.length {
        CloseComplete();
      }
    }

    /** More bytes of the open piece. */
    method TakeIn(part: seq<byte>)
      requires Valid() && closed < |all.pieces| && |fed| + |part| <= all.pieces[closed].End()
      modifies this`fed, this`sha, this`filled, this`bytesChecked
      ensures Between() && Holding() && all.pieces[closed].offset <= |fed| && bytesChecked == |fed|
      ensures fed == old(fed) + part
    {
      hide EndOf, ReadAll, Mismatches, FirstListed, Chained, Present, BytesOf;
      OpenBytes(fed, part, all.pieces[closed]);
      SeeOpen(part);
      sha := sha + part;
      filled := filled + |part|;
      bytesChecked := bytesChecked + |part|;
    }

    /** Close the complete piece and open the next one. */
    method CloseComplete()
      requires Between() && Holding() && |fed| == all.pieces[closed].End() && bytesChecked == |fed|
      modifies this`current, this`sha, this`filled, this`failed, this`piecesChecked, this`mismatches,
               this`mismatchCount, this`closed, this`coveredBytes, reader
      ensures Valid()
    {
      hide EndOf, ReadAll, Mismatches, FirstListed, Chained, Present, BytesOf;
      EndsAt(all.pieces, closed);
      ClosePiece();
      Advance();
      EndsAt(all.pieces, closed);
      if closed < |all.pieces| {
        OpenPiece(fed, all.pieces[closed]);
      }
    }

    /** All pieces are closed: further bytes change nothing that is reported. */
    ghost method See(data: seq<byte>)
      requires Valid() && closed == |all.pieces|
      modifies this`fed
      ensures Valid() && fed == old(fed) + data
    {
      assert all.pieces[..closed] == all.pieces;
      PiecesEnd(all.pieces, closed);
      MismatchesOfPrefix(fed, data, all.pieces[..closed], H);
      fed := fed + data;
    }

    /** Bytes of the open piece leave the closed pieces as they are. */
    ghost method SeeOpen(data: seq<byte>)
      requires Between() && closed < |all.pieces| && all.pieces[closed].offset <= |fed|
      modifies this`fed
      ensures Between() && fed == old(fed) + data
    {
      PiecesEnd(all.pieces, closed);
      EndsAt(all.pieces, closed);
      MismatchesOfPrefix(fed, data, all.pieces[..closed], H);
      fed := fed + data;
    }

    /** Close a piece the image ends in or before, and take the next one. */
    method CloseAtEnd()
      requires Between() && Holding() && |fed| < all.pieces[closed].End()
      modifies this`current, this`sha, this`filled, this`failed, this`piecesChecked, this`mismatches,
               this`mismatchCount, this`closed, this`coveredBytes, reader
      ensures Between() && closed == old(closed) + 1
      ensures closed < |all.pieces| ==> Holding() && |fed| < all.pieces[closed].End()
    {
      hide EndOf, ReadAll, Mismatches, FirstListed, Chained;
      EndsAt(all.pieces, closed);
      ClosePiece();
      Advance();
      EndsAt(all.pieces, closed);
    }

    /** The image has ended: the open piece, and all behind it, are incomplete. Fails exactly when
        the pieces file does not parse. */
    method Finish(imageBytes: nat) returns (r: Result<Report, LineError>)
      requires Valid() && imageBytes == |fed|
      modifies this, reader
      ensures fed == old(fed)
      ensures r == match all.failure
                   case Some(e) => Err(e)
                   case None => Ok(ReportOf(fed, all.pieces, H))
      ensures r.Ok? ==> Reports(r.value, fed, all.pieces, H)
    {
      ReportReports(fed, all.pieces, H);
      hide Reports, EndOf, ReadAll, Mismatches, FirstListed, Chained, BytesOf;
      EndsAt(all.pieces, closed);
      while failed == None && current != None
        invariant Between() && fed == old(fed)
        invariant closed < |all.pieces| ==> Holding() && |fed| < all.pieces[closed].End()
        invariant bytesChecked == Clip(|fed|, EndOf(all.pieces, 0))
        decreases |all.pieces| - closed
      {
        CloseAtEnd();
      }
      assert all.pieces[..closed] == all.pieces;
      if failed != None {
        return Err(failed.value);
      }
      r := Ok(Report(piecesChecked, bytesChecked, mismatches, mismatchCount, coveredBytes, imageBytes));
    }
  }

  lemma ListedNext(ms: seq<PieceMismatch>, m: PieceMismatch)
    ensures |FirstListed(ms)| < MAX_LISTED <==> |ms| < MAX_LISTED
    ensures FirstListed(ms + [m]) == FirstListed(ms) + if |ms| < MAX_LISTED then [m] else []
  {
  }

  lemma MismatchesNext(image: seq<byte>, rs: seq<PieceRecord>, n: nat, H: Hash)
    requires n < |rs|
    ensures Mismatches(image, rs[..n + 1], H)
            == Mismatches(image, rs[..n], H) + if Differs(image, rs[n], H) then [MismatchOf(image, rs[n], H)] else []
  {
    assert rs[..n + 1][..n] == rs[..n];
  }

  /** Piece n starts where the pieces before it end; after the last one the file's coverage ends. */
  lemma EndsAt(rs: seq<PieceRecord>, n: nat)
    requires Chained(rs, 0, 0) && n <= |rs|
    ensures n < |rs| ==> rs[n].offset == EndOf(rs[..n], 0) && rs[n].length > 0
                         && rs[n].End() == EndOf(rs[..n + 1], 0) <= EndOf(rs, 0)
    ensures n + 1 < |rs| ==> rs[n + 1].offset == rs[n].End()
    ensures n == |rs| ==> rs[..n] == rs
    ensures n + 1 == |rs| ==> rs[..n + 1] == rs && rs[n].End() == EndOf(rs, 0)
  {
    if n < |rs| {
      ChainedAt(rs, 0, 0, n);
    }
    if n + 1 < |rs| {
      ChainedAt(rs, 0, 0, n + 1);
    }
  }

  lemma PiecesEnd(rs: seq<PieceRecord>, n: nat)
    requires Chained(rs, 0, 0) && n <= |rs|
    ensures forall r :: r in rs[..n] ==> r.End() <= EndOf(rs[..n], 0)
  {
    forall r | r in rs[..n]
      ensures r.End() <= EndOf(rs[..n], 0)
    {
      var i :| 0 <= i < n && rs[i] == r;
      ChainedPrefix(rs, 0, 0, n);
      ChainedAt(rs[..n], 0, 0, i);
    }
  }
}
