/** The live count of bad sectors, and when it is the number of sectors that bad blocks touch. */
module BadSectorCount {
  import opened ReadErrors
  import opened DdrescueMap

  function DivCeil(n: nat, s: nat): nat
    requires s > 0
  {
    if n == 0 then 0 else (n - 1) / s + 1
  }

  /** The sectors of a block, from the one of its first byte to the one of its last. */
  function SectorsOf(b: MapBlock, s: nat): set<int>
    requires s > 0
  {
    Span(b.pos / s, DivCeil(b.End(), s))
  }

  /** The program's count, block by block. */
  function BadSectors(bs: seq<MapBlock>, s: nat): int
    requires s > 0
  {
    if bs == [] then 0
    else
      var b := bs[|bs| - 1];
      BadSectors(bs[..|bs| - 1], s) + if b.status == BadSector then DivCeil(b.End(), s) - b.pos / s else 0
  }

  /** Every sector that some bad block touches, once. */
  function TouchedSectors(bs: seq<MapBlock>, s: nat): set<int>
    requires s > 0
  {
    if bs == [] then {}
    else
      var b := bs[|bs| - 1];
      TouchedSectors(bs[..|bs| - 1], s) + if b.status == BadSector then SectorsOf(b, s) else {}
  }

  /** The first byte of a sector. */
  function StartOf(q: nat, s: nat): nat {
    q * s
  }

  lemma StartOrder(a: nat, b: nat, s: nat)
    requires a <= b
    ensures StartOf(a, s) <= StartOf(b, s)
  {
  }

  lemma StartNext(q: nat, s: nat)
    ensures StartOf(q + 1, s) == StartOf(q, s) + s
  {
  }

  lemma SectorOf(n: nat, s: nat)
    requires s > 0
    ensures n / s >= 0 && StartOf(n / s, s) <= n < StartOf(n / s, s) + s
  {
  }

  /** A byte lies in exactly one sector. */
  lemma InSectorIff(x: nat, q: nat, s: nat)
    requires s > 0
    ensures x / s == q <==> StartOf(q, s) <= x < StartOf(q, s) + s
  {
    hide StartOf;
    SectorOf(x, s);
    var d := x / s;
    if d < q {
      StartNext(d, s);
      StartOrder(d + 1, q, s);
    } else if d > q {
      StartNext(q, s);
      StartOrder(q + 1, d, s);
    }
  }

  lemma DivOrder(a: nat, b: nat, s: nat)
    requires s > 0 && a <= b
    ensures a / s <= b / s
  {
    hide StartOf;
    SectorOf(a, s);
    SectorOf(b, s);
    if a / s > b / s {
      StartNext(b / s, s);
      StartOrder(b / s + 1, a / s, s);
    }
  }

  /** A sector is touched exactly when it holds a byte of the block. */
  lemma SectorsHoldBytes(b: MapBlock, s: nat, q: int)
    requires s > 0 && b.size > 0
    ensures q in SectorsOf(b, s) <==> exists x: nat :: b.Holds(x) && x / s == q
  {
    hide StartOf;
    var last := b.End() - 1;
    SectorOf(b.pos, s);
    SectorOf(last, s);
    if q in SectorsOf(b, s) {
      var x := if q == b.pos / s then b.pos else StartOf(q, s);
      if q != b.pos / s {
        StartNext(b.pos / s, s);
        StartOrder(b.pos / s + 1, q, s);
        StartOrder(q, last / s, s);
        InSectorIff(x, q, s);
      }
      assert b.Holds(x) && x / s == q;
    }
    if x: nat :| b.Holds(x) && x / s == q {
      DivOrder(b.pos, x, s);
      DivOrder(x, last, s);
    }
  }

  lemma {:induction false} InTouched(bs: seq<MapBlock>, s: nat, q: int)
    requires s > 0
    ensures q in TouchedSectors(bs, s) <==> exists b :: b in bs && b.status == BadSector && q in SectorsOf(b, s)
  {
    if bs != [] {
      var front, last := bs[..|bs| - 1], bs[|bs| - 1];
      assert bs == front + [last];
      InTouched(front, s, q);
    }
  }

  /** No sector is touched by two bad blocks. */
  ghost predicate NoSharedSector(bs: seq<MapBlock>, s: nat)
    requires s > 0
  {
    forall i, j :: 0 <= i < j < |bs| && bs[i].status == BadSector && bs[j].status == BadSector ==>
                     SectorsOf(bs[i], s) !! SectorsOf(bs[j], s)
  }

  lemma SizeOfSectors(b: MapBlock, s: nat)
    requires s > 0 && b.size > 0
    ensures |SectorsOf(b, s)| == DivCeil(b.End(), s) - b.pos / s
  {
    DivOrder(b.pos, b.End() - 1, s);
    SpanSize(b.pos / s, DivCeil(b.End(), s));
  }

  lemma UnionSize(u: set<int>, b: set<int>)
    ensures |u + b| == |u| + |b| - |u * b|
    ensures |u * b| == 0 <==> u !! b
  {
    assert u + b == u + (b - u);
    assert b == (b - u) + u * b;
  }

  lemma SharedWithLast(bs: seq<MapBlock>, s: nat)
    requires s > 0 && bs != [] && bs[|bs| - 1].status == BadSector
    ensures var front, b := bs[..|bs| - 1], bs[|bs| - 1];
            NoSharedSector(bs, s) <==> NoSharedSector(front, s) && TouchedSectors(front, s) !! SectorsOf(b, s)
  {
    var front, b := bs[..|bs| - 1], bs[|bs| - 1];
    assert bs == front + [b];
    if NoSharedSector(bs, s) {
      forall q | q in TouchedSectors(front, s)
        ensures q !in SectorsOf(b, s)
      {
        InTouched(front, s, q);
      }
    }
    if NoSharedSector(front, s) && TouchedSectors(front, s) !! SectorsOf(b, s) {
      forall i | 0 <= i < |front| && bs[i].status == BadSector
        ensures SectorsOf(bs[i], s) !! SectorsOf(b, s)
      {
        forall q | q in SectorsOf(bs[i], s)
          ensures q in TouchedSectors(front, s)
        {
          assert front[i] in front;
          InTouched(front, s, q);
        }
      }
    }
  }

  /** The count is never too low, and it is the number of sectors touched exactly when no sector is
      touched by two bad blocks; such a sector is counted twice. */
  lemma {:induction false} BadSectorsExactIff(bs: seq<MapBlock>, s: nat)
    requires s > 0 && forall b :: b in bs ==> b.size > 0
    ensures BadSectors(bs, s) >= |TouchedSectors(bs, s)|
    ensures BadSectors(bs, s) == |TouchedSectors(bs, s)| <==> NoSharedSector(bs, s)
  {
    hide NoSharedSector, SectorsOf;
    if bs == [] {
      assert NoSharedSector(bs, s) by { NothingShared(s); }
    } else {
      var front, b := bs[..|bs| - 1], bs[|bs| - 1];
      BadSectorsExactIff(front, s);
      if b.status == BadSector {
        SizeOfSectors(b, s);
        UnionSize(TouchedSectors(front, s), SectorsOf(b, s));
        SharedWithLast(bs, s);
      } else {
        SharedWithoutLast(bs, s);
      }
    }
  }

  lemma NothingShared(s: nat)
    requires s > 0
    ensures NoSharedSector([], s)
  {
  }

  lemma SharedWithoutLast(bs: seq<MapBlock>, s: nat)
    requires s > 0 && bs != [] && bs[|bs| - 1].status != BadSector
    ensures NoSharedSector(bs, s) <==> NoSharedSector(bs[..|bs| - 1], s)
  {
  }

  /** Two bad blocks in one sector of 512 bytes: counted as two. */
  lemma OneSectorCountedTwice()
    ensures var bs := [MapBlock(0, 1, BadSector), MapBlock(2, 1, BadSector)];
            WellFormed(bs) && BadSectors(bs, 512) == 2 && TouchedSectors(bs, 512) == {0}
  {
  }
}
