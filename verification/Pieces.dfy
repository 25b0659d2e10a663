/** Pieces of a byte stream: what they are for a whole stream, and the streaming hasher. */
module Pieces {
  import opened Text

  type byte = bv8

  /** The hash, an uninterpreted function to 64 lower-case hex digits (see IsDigest). */
  type Hash = seq<byte> -> string

  predicate IsHexDigit(c: char) {
    '0' <= c <= '9' || 'a' <= c <= 'f' || 'A' <= c <= 'F'
  }

  predicate Is64Hex(s: string) {
    |s| == 64 && forall c :: c in s ==> IsHexDigit(c)
  }

  predicate IsDigest(s: string) {
    Is64Hex(s) && Lower(s) == s
  }

  datatype PieceRecord = PieceRecord(index: nat, offset: nat, length: nat, sha256: string) {
    function End(): nat {
      offset + length
    }
  }

  /** The pieces of a whole stream, the first one numbered `index` and starting at `offset`. */
  function PiecesOf(stream: seq<byte>, size: nat, H: Hash, index: nat, offset: nat): seq<PieceRecord>
    requires size > 0
    decreases |stream|
  {
    if stream == [] then []
    else
      var n := if |stream| < size then |stream| else size;
      [PieceRecord(index, offset, n, H(stream[..n]))] + PiecesOf(stream[n..], size, H, index + 1, offset + n)
  }

  /** A length that is a whole number of pieces. */
  predicate Whole(n: nat, size: nat)
    requires size > 0
  {
    n == 0 || (n >= size && Whole(n - size, size))
  }

  lemma {:induction false} WholeNext(n: nat, size: nat)
    requires size > 0 && Whole(n, size)
    ensures Whole(n + size, size)
  {
  }

  /** Bytes behind a first whole piece only change the pieces behind it. */
  lemma FirstWhole(a: seq<byte>, b: seq<byte>, size: nat, H: Hash, index: nat, offset: nat)
    requires 0 < size <= |a|
    ensures PiecesOf(a + b, size, H, index, offset)
         == [PieceRecord(index, offset, size, H(a[..size]))]
             + PiecesOf(a[size..] + b, size, H, index + 1, offset + size)
  {
    assert (a + b)[..size] == a[..size] && (a + b)[size..] == a[size..] + b;
  }

  lemma LastPiece(piece: seq<byte>, size: nat, H: Hash, index: nat, offset: nat)
    requires 0 < |piece| <= size
    ensures PiecesOf(piece, size, H, index, offset) == [PieceRecord(index, offset, |piece|, H(piece))]
  {
    assert piece[..|piece|] == piece && piece[|piece|..] == [];
  }

  lemma Regroup(first: PieceRecord, middle: seq<PieceRecord>, last: PieceRecord)
    ensures [first] + (middle + [last]) == ([first] + middle) + [last]
  {
  }

  /** After whole pieces, up to one piece more of bytes adds one record. */
  lemma {:induction false} PiecesSnoc(a: seq<byte>, b: seq<byte>, size: nat, H: Hash, index: nat, offset: nat)
    requires size > 0 && Whole(|a|, size) && 0 < |b| <= size
    ensures var before := PiecesOf(a, size, H, index, offset);
            PiecesOf(a + b, size, H, index, offset)
            == before + [PieceRecord(index + |before|, offset + |a|, |b|, H(b))]
    decreases |a|
  {
    if a == [] {
      LastPiece(b, size, H, index, offset);
      assert a + b == b;
    } else {
      var rest, first := a[size..], PieceRecord(index, offset, size, H(a[..size]));
      var middle := PiecesOf(rest, size, H, index + 1, offset + size);
      assert PiecesOf(a, size, H, index, offset) == [first] + middle;
      hide PiecesOf;
      FirstWhole(a, b, size, H, index, offset);
      PiecesSnoc(rest, b, size, H, index + 1, offset + size);
      Regroup(first, middle, PieceRecord(index + 1 + |middle|, offset + |a|, |b|, H(b)));
    }
  }

  /** Records numbered from `index`, contiguous from `offset`, none of them empty. */
  predicate Chained(rs: seq<PieceRecord>, index: nat, offset: nat) {
    rs == [] ||
    (rs[0].index == index && rs[0].offset == offset && rs[0].length > 0 && Chained(rs[1..], index + 1, rs[0].End()))
  }

  /** First byte after the last record. */
  function EndOf(rs: seq<PieceRecord>, offset: nat): nat {
    if rs == [] then offset else EndOf(rs[1..], offset + rs[0].length)
  }

  lemma {:induction false} ChainedAt(rs: seq<PieceRecord>, index: nat, offset: nat, i: nat)
    requires Chained(rs, index, offset) && i < |rs|
    ensures rs[i].index == index + i && rs[i].length > 0
    ensures rs[i].offset == EndOf(rs[..i], offset) && rs[i].End() == EndOf(rs[..i + 1], offset) <= EndOf(rs, offset)
    decreases |rs|
  {
    EndGrows(rs[1..], offset + rs[0].length);
    assert rs[..i + 1][1..] == rs[1..][..i];
    if i > 0 {
      ChainedAt(rs[1..], index + 1, rs[0].End(), i - 1);
      assert rs[..i][1..] == rs[1..][..i - 1];
    }
  }

  lemma {:induction false} EndGrows(rs: seq<PieceRecord>, offset: nat)
    ensures EndOf(rs, offset) >= offset
  {
    if rs != [] {
      EndGrows(rs[1..], offset + rs[0].length);
    }
  }

  lemma {:induction false} ChainedSnoc(rs: seq<PieceRecord>, r: PieceRecord, index: nat, offset: nat)
    requires Chained(rs, index, offset)
    ensures EndOf(rs + [r], offset) == EndOf(rs, offset) + r.length
    ensures Chained(rs + [r], index, offset)
       <==> r.index == index + |rs| && r.offset == EndOf(rs, offset) && r.length > 0
  {
    if rs == [] {
      assert (rs + [r])[1..] == [];
    } else {
      assert (rs + [r])[1..] == rs[1..] + [r];
      ChainedSnoc(rs[1..], r, index + 1, rs[0].End());
    }
  }

  /** The pieces of a stream are contiguous, none is empty, and their lengths sum up to the stream's. */
  lemma {:induction false} PiecesChained(stream: seq<byte>, size: nat, H: Hash, index: nat, offset: nat)
    requires size > 0
    ensures var rs := PiecesOf(stream, size, H, index, offset);
            Chained(rs, index, offset) && EndOf(rs, offset) == offset + |stream| && (rs == [] <==> stream == [])
    decreases |stream|
  {
    if stream != [] {
      var n := if |stream| < size then |stream| else size;
      PiecesChained(stream[n..], size, H, index + 1, offset + n);
    }
  }

  function Clip(n: nat, limit: nat): nat {
    if n < limit then n else limit
  }

  /** The record of bytes [from, from + size) of a stream, cut off at its end. */
  function RecordOf(stream: seq<byte>, size: nat, H: Hash, index: nat, offset: nat, from: nat): PieceRecord
    requires from < |stream|
  {
    var to := Clip(from + size, |stream|);
    PieceRecord(index, offset + from, to - from, H(stream[from..to]))
  }

  lemma {:induction false} PieceFrom(stream: seq<byte>, size: nat, H: Hash, index: nat, offset: nat, i: nat, from: int)
    requires size > 0 && i < |PiecesOf(stream, size, H, index, offset)| && from == i * size
    ensures 0 <= from < |stream|
    ensures PiecesOf(stream, size, H, index, offset)[i] == RecordOf(stream, size, H, index + i, offset, from)
    decreases i
  {
    hide PiecesOf;
    if i == 0 {
      FirstPiece(stream, size, H, index, offset);
    } else {
      PieceInRest(stream, size, H, index, offset, i);
      MulPred(i, size);
      PieceFrom(stream[size..], size, H, index + 1, offset + size, i - 1, from - size);
      SliceOfRest(stream, size, from, Clip(from + size, |stream|));
    }
  }

  lemma FirstPiece(stream: seq<byte>, size: nat, H: Hash, index: nat, offset: nat)
    requires size > 0 && PiecesOf(stream, size, H, index, offset) != []
    ensures stream != [] && PiecesOf(stream, size, H, index, offset)[0] == RecordOf(stream, size, H, index, offset, 0)
  {
  }

  lemma PieceInRest(stream: seq<byte>, size: nat, H: Hash, index: nat, offset: nat, i: nat)
    requires size > 0 && 0 < i < |PiecesOf(stream, size, H, index, offset)|
    ensures |stream| > size
    ensures var rest := PiecesOf(stream[size..], size, H, index + 1, offset + size);
            i - 1 < |rest| && PiecesOf(stream, size, H, index, offset)[i] == rest[i - 1]
  {
  }

  /** Piece i holds bytes [i * size, min((i + 1) * size, n)) of the stream. */
  lemma PieceAt(stream: seq<byte>, size: nat, H: Hash, index: nat, offset: nat, i: nat)
    requires size > 0 && i < |PiecesOf(stream, size, H, index, offset)|
    ensures 0 <= i * size < |stream|
    ensures PiecesOf(stream, size, H, index, offset)[i] == RecordOf(stream, size, H, index + i, offset, i * size)
  {
    PieceFrom(stream, size, H, index, offset, i, i * size);
  }

  lemma MulPred(i: nat, size: nat)
    ensures (i - 1) * size == i * size - size
  {
  }

  lemma SliceOfRest(stream: seq<byte>, size: nat, from: nat, to: nat)
    requires size <= from <= to <= |stream|
    ensures stream[size..][from - size..to - size] == stream[from..to]
  {
  }

  function Flatten(slices: seq<seq<byte>>): seq<byte> {
    if slices == [] then [] else Flatten(slices[..|slices| - 1]) + slices[|slices| - 1]
  }

  lemma FlattenEmpty()
    ensures Flatten([]) == []
  {
  }

  lemma FlattenSnoc(slices: seq<seq<byte>>, i: nat)
    requires i < |slices|
    ensures Flatten(slices[..i + 1]) == Flatten(slices[..i]) + slices[i]
  {
    assert slices[..i + 1][..i] == slices[..i];
  }

  /** Cuts a stream into pieces and hashes each. `sha` stands for the hash state: the bytes fed
      to it since the last piece. */
  class PieceHasher {
    const H: Hash
    const pieceSize: nat
    var nextIndex: nat
    var start: nat
    var filled: nat
    var sha: seq<byte>
    ghost var stream: seq<byte>
    ghost var emitted: seq<PieceRecord>

    /** The bytes before `start` are hashed in whole pieces, the others are in the hash state. */
    ghost predicate Split()
      reads this
    {
      && pieceSize > 0 && start <= |stream| && Whole(start, pieceSize)
      && sha == stream[start..] && filled == |sha| <= pieceSize
      && emitted == PiecesOf(stream[..start], pieceSize, H, 0, 0) && nextIndex == |emitted|
    }

    ghost predicate Valid()
      reads this
    {
      Split() && filled < pieceSize
    }

    constructor (pieceSize: nat, H: Hash)
      ensures Valid() && stream == [] && emitted == []
      ensures this.pieceSize == (if pieceSize == 0 then 1 else pieceSize) && this.H == H
    {
      this.pieceSize := if pieceSize == 0 then 1 else pieceSize;
      this.H := H;
      nextIndex, start, filled, sha := 0, 0, 0, [];
      stream, emitted := [], [];
    }

    /** Feed the next bytes; `out` is what is emitted meanwhile. */
    method Update(data0: seq<byte>) returns (out: seq<PieceRecord>)
      requires Valid()
      modifies this
      ensures Valid() && stream == old(stream) + data0 && emitted == old(emitted) + out
    {
      out := [];
      var data := data0;
      while data != []
        invariant Valid() && stream + data == old(stream) + data0 && emitted == old(emitted) + out
      {
        var take := if pieceSize - filled < |data| then pieceSize - filled else |data|;
        assert stream + data == (stream + data[..take]) + data[take..];
        assert (stream + data[..take])[..start] == stream[..start];
        sha := sha + data[..take];
        stream := stream + data[..take];
        filled := filled + take;
        data := data[take..];
        if filled == pieceSize {
          var rec := TakePiece();
          out := out + [rec];
        }
      }
    }

    /** Close the pending piece. A shorter one can only be the last. */
    method TakePiece() returns (rec: PieceRecord)
      requires Split() && filled > 0
      modifies this
      ensures stream == old(stream) && emitted == old(emitted) + [rec]
      ensures emitted == PiecesOf(stream, pieceSize, H, 0, 0)
      ensures old(filled) == pieceSize ==> Valid()
    {
      rec := PieceRecord(nextIndex, start, filled, H(sha));
      PiecesSnoc(stream[..start], sha, pieceSize, H, 0, 0);
      assert stream == stream[..start] + sha;
      assert stream[..start + filled] == stream;
      if filled == pieceSize {
        WholeNext(start, pieceSize);
      }
      nextIndex := nextIndex + 1;
      start := start + filled;
      filled := 0;
      sha := [];
      emitted := emitted + [rec];
    }

    /** The last, shorter piece, if any bytes are pending. Nothing may be fed afterwards. */
    method Finish() returns (out: seq<PieceRecord>)
      requires Valid()
      modifies this
      ensures old(emitted) + out == PiecesOf(stream, pieceSize, H, 0, 0) && stream == old(stream)
    {
      out := [];
      if filled > 0 {
        var rec := TakePiece();
        out := [rec];
      } else {
        assert stream[..start] == stream;
      }
    }
  }

  /** However a stream is cut into updates, its records are those of the whole stream. */
  method HashInSlices(slices: seq<seq<byte>>, pieceSize: nat, H: Hash) returns (rs: seq<PieceRecord>)
    ensures rs == PiecesOf(Flatten(slices), if pieceSize == 0 then 1 else pieceSize, H, 0, 0)
  {
    hide PiecesOf, Flatten, PieceHasher.Split;
    var hasher := new PieceHasher(pieceSize, H);
    rs := [];
    FlattenEmpty();
    for i := 0 to |slices|
      invariant hasher.Valid() && hasher.stream == Flatten(slices[..i]) && hasher.emitted == rs
    {
      FlattenSnoc(slices, i);
      var out := hasher.Update(slices[i]);
      rs := rs + out;
    }
    assert slices[..|slices|] == slices;
    var last := hasher.Finish();
    rs := rs + last;
  }
}
