/** From a hashed stream to the verdict on an image, through the pieces file. */
module PiecesEndToEnd {
  import opened Wrappers
  import opened MachineInts
  import opened Pieces
  import opened PiecesFile
  import opened PieceCheck

  /** The pieces of a stream with a non-zero piece size. */
  function RecordsOf(stream: seq<byte>, size: nat, H: Hash): seq<PieceRecord>
    requires size > 0
  {
    PiecesOf(stream, size, H, 0, 0)
  }

  /** A record of the stream carries the digest of the stream's bytes in its range. */
  lemma RecordHolds(stream: seq<byte>, size: nat, H: Hash, r: PieceRecord)
    requires size > 0 && r in RecordsOf(stream, size, H)
    ensures r.length > 0 && r.End() <= |stream| && Present(stream, r) == r.length
    ensures r.sha256 == H(BytesOf(stream, r))
  {
    hide PiecesOf;
    var rs := RecordsOf(stream, size, H);
    var i :| 0 <= i < |rs| && rs[i] == r;
    PieceAt(stream, size, H, 0, 0, i);
  }

  /** The hash does not confuse the two images within any piece. */
  ghost predicate NoCollision(s: seq<byte>, t: seq<byte>, size: nat, H: Hash)
    requires size > 0
  {
    forall r :: r in RecordsOf(s, size, H) && H(BytesOf(t, r)) == H(BytesOf(s, r)) ==> BytesOf(t, r) == BytesOf(s, r)
  }

  /** A piece is reported as differing exactly when its bytes differ. */
  lemma DiffersIff(s: seq<byte>, t: seq<byte>, size: nat, H: Hash, r: PieceRecord)
    requires size > 0 && r in RecordsOf(s, size, H) && NoCollision(s, t, size, H)
    ensures Differs(t, r, H) <==> BytesOf(t, r) != BytesOf(s, r)
  {
    RecordHolds(s, size, H, r);
    assert |BytesOf(s, r)| == r.length && |BytesOf(t, r)| == Present(t, r);
  }

  lemma {:induction false} CoveringPiece(rs: seq<PieceRecord>, index: nat, offset: nat, x: nat) returns (r: PieceRecord)
    requires Chained(rs, index, offset) && offset <= x < EndOf(rs, offset)
    ensures r in rs && r.offset <= x < r.End()
  {
    if x < rs[0].End() {
      r := rs[0];
    } else {
      r := CoveringPiece(rs[1..], index + 1, rs[0].End(), x);
    }
  }

  /** Images of the same length that agree in every piece are equal. */
  lemma AgreeEverywhere(s: seq<byte>, t: seq<byte>, size: nat, H: Hash)
    requires size > 0 && |s| == |t|
    requires forall r :: r in RecordsOf(s, size, H) ==> BytesOf(t, r) == BytesOf(s, r)
    ensures s == t
  {
    hide PiecesOf, Chained, EndOf;
    PiecesChained(s, size, H, 0, 0);
    forall x | 0 <= x < |s|
      ensures s[x] == t[x]
    {
      var r := CoveringPiece(RecordsOf(s, size, H), 0, 0, x);
      RecordHolds(s, size, H, r);
      assert BytesOf(s, r)[x - r.offset] == s[x];
      assert BytesOf(t, r)[x - r.offset] == t[x];
    }
  }

  lemma NoneListed(image: seq<byte>, rs: seq<PieceRecord>, H: Hash)
    ensures Mismatches(image, rs, H) == [] <==> forall r :: r in rs ==> !Differs(image, r, H)
  {
  }

  /** A non-empty stream checked against its own pieces matches; and, the hash not confusing the two,
      any other image does not. */
  lemma AllMatchIff(s: seq<byte>, t: seq<byte>, size: nat, H: Hash)
    requires size > 0 && s != []
    ensures ReportOf(s, RecordsOf(s, size, H), H).AllMatch()
    ensures NoCollision(s, t, size, H) ==> (ReportOf(t, RecordsOf(s, size, H), H).AllMatch() <==> t == s)
  {
    var rs := RecordsOf(s, size, H);
    PiecesChained(s, size, H, 0, 0);
    forall r | r in rs
      ensures !Differs(s, r, H)
    {
      RecordHolds(s, size, H, r);
    }
    NoneListed(s, rs, H);
    NoneListed(t, rs, H);
    if NoCollision(s, t, size, H) && ReportOf(t, rs, H).AllMatch() {
      forall r | r in rs
        ensures BytesOf(t, r) == BytesOf(s, r)
      {
        DiffersIff(s, t, size, H, r);
      }
      AgreeEverywhere(s, t, size, H);
    }
  }

  /** Pieces of a stream that fits u64, hashed by a digest, can be written and read back. */
  lemma RecordsWritable(s: seq<byte>, size: nat, H: Hash)
    requires size > 0 && |s| <= U64_MAX && forall x :: IsDigest(H(x))
    ensures Writable(RecordsOf(s, size, H))
  {
    PiecesChained(s, size, H, 0, 0);
    forall r | r in RecordsOf(s, size, H)
      ensures IsDigest(r.sha256)
    {
      RecordHolds(s, size, H, r);
    }
  }

  /** The verdict on an image, given the text of a pieces file. */
  function CheckAgainst(text: string, image: seq<byte>, H: Hash): Result<Report, LineError> {
    match ReadFile(text)
    case Err(e) => Err(e)
    case Ok(rs) => Ok(ReportOf(image, rs, H))
  }

  /** The pieces of a list whose bytes in the image are not the stream's. */
  ghost function Changed(s: seq<byte>, image: seq<byte>, rs: seq<PieceRecord>): set<PieceRecord> {
    set r | r in rs && Within(image, r.offset, r.End()) != Within(s, r.offset, r.End())
  }

  lemma LastIsNew(rs: seq<PieceRecord>)
    requires Chained(rs, 0, 0) && rs != []
    ensures rs[|rs| - 1] !in rs[..|rs| - 1]
  {
    var n := |rs| - 1;
    ChainedAt(rs, 0, 0, n);
    forall i | 0 <= i < n
      ensures rs[i].index != rs[n].index
    {
      ChainedAt(rs, 0, 0, i);
    }
  }

  lemma ChangedNext(s: seq<byte>, image: seq<byte>, rs: seq<PieceRecord>)
    requires rs != [] && rs[|rs| - 1] !in rs[..|rs| - 1]
    ensures var r := rs[|rs| - 1];
            var here := if Within(image, r.offset, r.End()) != Within(s, r.offset, r.End()) then 1 else 0;
            |Changed(s, image, rs)| == |Changed(s, image, rs[..|rs| - 1])| + here
  {
    hide Within;
    var front, r := rs[..|rs| - 1], rs[|rs| - 1];
    assert rs == front + [r];
    var here := if Within(image, r.offset, r.End()) != Within(s, r.offset, r.End()) then {r} else {};
    assert Changed(s, image, rs) == Changed(s, image, front) + here;
  }

  lemma {:induction false} CountOfChanged(s: seq<byte>, image: seq<byte>, rs: seq<PieceRecord>, H: Hash)
    requires Chained(rs, 0, 0)
    requires forall r :: r in rs ==>
               (Differs(image, r, H) <==> Within(image, r.offset, r.End()) != Within(s, r.offset, r.End()))
    ensures |Mismatches(image, rs, H)| == |Changed(s, image, rs)|
  {
    hide Differs, Within, MismatchOf, Chained;
    if rs == [] {
      assert Changed(s, image, rs) == {};
    } else {
      ChainedPrefix(rs, 0, 0, |rs| - 1);
      LastIsNew(rs);
      ChangedNext(s, image, rs);
      hide Changed;
      CountOfChanged(s, image, rs[..|rs| - 1], H);
    }
  }

  /** What a mismatch says of a piece of the stream: its place, the digest of the stream's bytes there, and the
      number and the digest of the bytes the image has there. */
  predicate Explains(m: PieceMismatch, s: seq<byte>, image: seq<byte>, H: Hash) {
    var have := Within(image, m.offset, m.offset + m.length);
    && m.offset + m.length <= |s| && m.expected == H(s[m.offset..m.offset + m.length])
    && m.present == |have| && m.computed == (if have == [] then "" else H(have))
    && have != s[m.offset..m.offset + m.length]
  }

  /** The report lists the first mismatches, by ascending number, and counts all: one for each changed piece. */
  ghost predicate ListsChanged(report: Report, s: seq<byte>, image: seq<byte>, size: nat, H: Hash)
    requires size > 0
  {
    var ms, rs := Mismatches(image, RecordsOf(s, size, H), H), RecordsOf(s, size, H);
    && report.mismatchCount == |ms| == |Changed(s, image, rs)|
    && report.mismatches <= ms && |report.mismatches| == Clip(|ms|, MAX_LISTED)
    && Ascending(ms) && (forall m :: m in ms ==> Explains(m, s, image, H))
  }

  /** A report vouches for the stream `s`: it matches exactly when the image is `s`, the pieces it reports
      are those whose bytes differ, and its totals are those of the stream and the image. */
  ghost predicate Vouches(checked: Result<Report, LineError>, s: seq<byte>, image: seq<byte>, size: nat, H: Hash)
    requires size > 0
  {
    var rs := RecordsOf(s, size, H);
    && checked.Ok?
    && (checked.value.AllMatch() <==> image == s)
    && ListsChanged(checked.value, s, image, size, H)
    && checked.value.piecesChecked == |rs| && checked.value.coveredBytes == |s|
    && checked.value.imageBytes == |image| && checked.value.bytesChecked == Clip(|image|, |s|)
    && forall r :: r in rs ==> (MismatchOf(image, r, H) in Mismatches(image, rs, H)
        <==> BytesOf(image, r) != BytesOf(s, r))
  }

  lemma ChangedAreListed(s: seq<byte>, image: seq<byte>, size: nat, H: Hash)
    requires size > 0 && NoCollision(s, image, size, H)
    ensures ListsChanged(ReportOf(image, RecordsOf(s, size, H), H), s, image, size, H)
  {
    hide Differs, Computed, Mismatches, Chained;
    var rs := RecordsOf(s, size, H);
    PiecesChained(s, size, H, 0, 0);
    MismatchesAscend(image, rs, H);
    forall r | r in rs
      ensures Differs(image, r, H) <==> Within(image, r.offset, r.End()) != Within(s, r.offset, r.End())
    {
      DiffersIff(s, image, size, H, r);
      BytesWithin(image, r);
      BytesWithin(s, r);
    }
    CountOfChanged(s, image, rs, H);
    forall m | m in Mismatches(image, rs, H)
      ensures Explains(m, s, image, H)
    {
      var r := MismatchDescribes(image, rs, H, m);
      RecordHolds(s, size, H, r);
      DiffersIff(s, image, size, H, r);
      BytesWithin(image, r);
      BytesWithin(s, r);
    }
  }

  lemma RecordsVouch(s: seq<byte>, image: seq<byte>, size: nat, H: Hash, text: string)
    requires size > 0 && s != [] && NoCollision(s, image, size, H)
    requires ReadFile(text) == Ok(RecordsOf(s, size, H))
    ensures Vouches(CheckAgainst(text, image, H), s, image, size, H)
  {
    var rs := RecordsOf(s, size, H);
    AllMatchIff(s, image, size, H);
    PiecesChained(s, size, H, 0, 0);
    ChangedAreListed(s, image, size, H);
    forall r | r in rs
      ensures MismatchOf(image, r, H) in Mismatches(image, rs, H) <==> BytesOf(image, r) != BytesOf(s, r)
    {
      DiffersIff(s, image, size, H, r);
      InMismatches(image, rs, H, MismatchOf(image, r, H));
    }
  }

  /** End to end: the file written from the records of a stream and read back, in any line-end and digest-case
      variant, vouches for the stream and, the hash not confusing the two, for no other image. */
  lemma EndToEnd(s: seq<byte>, image: seq<byte>, size: nat, H: Hash, vs: seq<Variant>, crlfHeader: bool)
    requires size > 0 && s != [] && |s| <= U64_MAX && forall x :: IsDigest(H(x))
    requires var rs := RecordsOf(s, size, H);
             |vs| == |rs| && forall i :: 0 <= i < |rs| ==> VariantOf(vs[i], rs[i])
    requires NoCollision(s, image, size, H)
    ensures var rs := RecordsOf(s, size, H);
            Vouches(CheckAgainst(HEADER + Eol(crlfHeader) + CopyLines(rs, vs), image, H), s, image, size, H)
  {
    var rs := RecordsOf(s, size, H);
    RecordsWritable(s, size, H);
    ReadBack(rs, vs, crlfHeader);
    RecordsVouch(s, image, size, H, HEADER + Eol(crlfHeader) + CopyLines(rs, vs));
  }
}
