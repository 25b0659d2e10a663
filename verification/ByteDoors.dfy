/** What the carried ranges mean: single bytes, followed down to the nodes the source is stored on
    and up again through the windows of loop devices. */
module ByteDoors {
  import opened Wrappers
  import opened Reachability
  import opened BlockGraph
  import opened MachineInts
  import opened ByteRanges
  import opened LowerPlaces
  import opened LoopDoors
  import DependentTree

  datatype Spot = Spot(node: Kname, byte: nat)

  /** Byte `a` is (or, where the mapping is not read, may be) stored at byte `b` one level down. */
  ghost predicate StoredAt(g: Graph, source: Kname, a: Spot, b: Spot) {
    && !g.IsLoop(a.node) && b.node != source && b.byte < U64_MAX
    && if g.Slaves(a.node) != [] then b.node in g.Slaves(a.node)
       else
         && g.ParentDisk(a.node) == Some(b.node)
         && (ExtentKnown(g, a.node) ==>
               b.byte == g.Start(a.node).value * 512 + a.byte && a.byte < g.Size(a.node).value * 512)
  }

  /** Byte `a` shows as byte `b` of a loop device over its node. */
  ghost predicate ShownAt(g: Graph, source: Kname, a: Spot, b: Spot) {
    && b.node != source && g.LoopOver(b.node, a.node)
    && a.byte == b.byte + g.LoopOffset(b.node) && a.byte < U64_MAX
    && (g.LoopSizeLimit(b.node) == 0 || b.byte < g.LoopSizeLimit(b.node))
  }

  ghost function StoredStep(g: Graph, source: Kname): (Spot, Spot) -> bool {
    (a, b) => StoredAt(g, source, a, b)
  }

  ghost function ShownStep(g: Graph, source: Kname): (Spot, Spot) -> bool {
    (a, b) => ShownAt(g, source, a, b)
  }

  /** Byte `t` of a node below the source may hold a byte of the source. */
  ghost predicate HoldsData(g: Graph, source: Kname, t: Spot) {
    t.node != source
    && exists x: nat :: x < U64_MAX && Reaches(StoredStep(g, source), Spot(source, x), t)
  }

  /** Byte `d` of a loop device is a way to a byte of the source stored below it. */
  ghost predicate Door(g: Graph, source: Kname, d: Spot) {
    exists t, u :: HoldsData(g, source, t) && ShownAt(g, source, t, u) && Reaches(ShownStep(g, source), u, d)
  }

  ghost predicate CoveredBelow(g: Graph, source: Kname, s: Spot) {
    exists a: Place :: a.node == s.node && a.range.Holds(s.byte) && Reaches(LowerStep(g, source), Top(source), a)
  }

  ghost predicate CoveredAbove(g: Graph, source: Kname, s: Spot) {
    exists q: Place :: q.node == s.node && q.range.Holds(s.byte) && Reached(g, source, q)
  }

  lemma StoredCovered(g: Graph, source: Kname, a: Spot, b: Spot)
    requires CoveredBelow(g, source, a) && StoredAt(g, source, a, b)
    ensures CoveredBelow(g, source, b)
  {
    var pa: Place :| pa.node == a.node && pa.range.Holds(a.byte) && Reaches(LowerStep(g, source), Top(source), pa);
    var lower := LowerOf(g, pa);
    var pb: Place;
    if g.Slaves(a.node) != [] {
      pb := Place(b.node, WHOLE);
      var i :| 0 <= i < |g.Slaves(a.node)| && g.Slaves(a.node)[i] == b.node;
      assert lower[i] == pb;
    } else {
      pb := Place(b.node, OnDisk(pa.range, PartitionRange(g, a.node)));
      assert lower == [pb];
    }
    assert LowerStep(g, source)(pa, pb);
    ReachesStep(LowerStep(g, source), Top(source), pa, pb);
  }

  lemma ShownCovered(g: Graph, source: Kname, a: Spot, b: Spot)
    requires CoveredAbove(g, source, a) && ShownAt(g, source, a, b)
    ensures CoveredAbove(g, source, b)
  {
    var pa: Place :| pa.node == a.node && pa.range.Holds(a.byte) && Reached(g, source, pa);
    var pb := Place(b.node, OnLoop(pa.range, LoopWindow(g, b.node)));
    LoopHopExact(pa.range, LoopWindow(g, b.node), b.byte);
    ReachedNext(g, source, pa, pb);
  }

  /** Every loop device through which some byte of the source can be reached is reached by the walk
      over ranges, with a range that holds the byte. */
  lemma EveryDoorIsReached(g: Graph, source: Kname, d: Spot)
    requires Door(g, source, d)
    ensures CoveredAbove(g, source, d)
  {
    var t, u :| HoldsData(g, source, t) && ShownAt(g, source, t, u) && Reaches(ShownStep(g, source), u, d);
    var x: nat :| x < U64_MAX && Reaches(StoredStep(g, source), Spot(source, x), t);
    ReachesSelf(LowerStep(g, source), Top(source));
    assert CoveredBelow(g, source, Spot(source, x)) by {
      assert Top(source).range.Holds(x);
    }
    forall a, b | CoveredBelow(g, source, a) && StoredStep(g, source)(a, b)
      ensures CoveredBelow(g, source, b)
    {
      StoredCovered(g, source, a, b);
    }
    ReachesKeeps(StoredStep(g, source), s => CoveredBelow(g, source, s), Spot(source, x), t);
    var pt: Place :| pt.node == t.node && pt.range.Holds(t.byte) && Reaches(LowerStep(g, source), Top(source), pt);
    var pu := Place(u.node, OnLoop(pt.range, LoopWindow(g, u.node)));
    LoopHopExact(pt.range, LoopWindow(g, u.node), u.byte);
    ReachedFirst(g, source, pt, pu);
    forall a, b | CoveredAbove(g, source, a) && ShownStep(g, source)(a, b)
      ensures CoveredAbove(g, source, b)
    {
      ShownCovered(g, source, a, b);
    }
    ReachesKeeps(ShownStep(g, source), s => CoveredAbove(g, source, s), u, d);
  }

  /** `root` is a partition of the door's loop device that holds the byte (or whose extent is not
      known), or a device stacked on that loop device. */
  ghost predicate OnDoor(g: Graph, d: Spot, root: Kname) {
    || (root in g.Partitions(d.node)
        && (PartitionRange(g, root).None? || PartitionRange(g, root).value.Holds(d.byte)))
    || root in g.Holders(d.node)
  }

  /** The door's loop device, and everything on its partitions and holders that can reach the byte,
      is shown or counted as possibly of the source. */
  lemma DoorsAreFound(g: Graph, source: Kname, d: Spot, n: Kname)
    requires Door(g, source, d)
    requires n == d.node || exists root :: OnDoor(g, d, root) && n in DependentTree.Walked(g, root)
    ensures ShownByLoop(g, source, n) || MaybeByLoop(g, source, n)
  {
    EveryDoorIsReached(g, source, d);
    var q: Place :| q.node == d.node && q.range.Holds(d.byte) && Reached(g, source, q);
    if n != d.node {
      var root :| OnDoor(g, d, root) && n in DependentTree.Walked(g, root);
      assert Shows(g, q, root) || MayShow(g, q, root);
    }
  }

  // ---- The other direction: nothing is carried that is not a way to the source's data ----

  /** A partition is not itself divided into partitions, and a known extent is not empty. */
  ghost predicate PlainPartitions(g: Graph) {
    forall p :: g.ParentDisk(p).Some? ==>
      && g.ParentDisk(g.ParentDisk(p).value).None?
      && (PartitionRange(g, p).Some? ==> PartitionRange(g, p).value.start < PartitionRange(g, p).value.end)
  }

  ghost predicate FromSource(g: Graph, source: Kname, t: Spot) {
    exists x: nat :: x < U64_MAX && Reaches(StoredStep(g, source), Spot(source, x), t)
  }

  ghost predicate AllFromSource(g: Graph, source: Kname, a: Place) {
    && a.range.start < a.range.end
    && (g.ParentDisk(a.node).Some? ==> a.range == WHOLE)
    && forall x: nat :: a.range.Holds(x) ==> FromSource(g, source, Spot(a.node, x))
  }

  ghost predicate AllDoors(g: Graph, source: Kname, q: Place) {
    && q.range.start < q.range.end
    && forall y: nat :: q.range.Holds(y) ==> Door(g, source, Spot(q.node, y))
  }

  lemma LowerFromSource(g: Graph, source: Kname, a: Place, b: Place)
    requires PlainPartitions(g) && AllFromSource(g, source, a) && Lower(g, source, a, b)
    ensures AllFromSource(g, source, b)
  {
    var extent := PartitionRange(g, a.node);
    forall x: nat | b.range.Holds(x)
      ensures FromSource(g, source, Spot(b.node, x))
    {
      var y: nat := if g.Slaves(a.node) == [] && extent.Some? then x - extent.value.start else a.range.start;
      assert a.range.Holds(y);
      var x0: nat :| x0 < U64_MAX && Reaches(StoredStep(g, source), Spot(source, x0), Spot(a.node, y));
      assert StoredStep(g, source)(Spot(a.node, y), Spot(b.node, x));
      ReachesStep(StoredStep(g, source), Spot(source, x0), Spot(a.node, y), Spot(b.node, x));
    }
  }

  lemma FirstHopDoors(g: Graph, source: Kname, a: Place, b: Place)
    requires AllFromSource(g, source, a) && a.node != source && Hop(g, source, a, b)
    ensures AllDoors(g, source, b)
  {
    var window := LoopWindow(g, b.node);
    forall y: nat | b.range.Holds(y)
      ensures Door(g, source, Spot(b.node, y))
    {
      LoopHopExact(a.range, window, y);
      var t := Spot(a.node, y + window.start);
      assert FromSource(g, source, t);
      ReachesSelf(ShownStep(g, source), Spot(b.node, y));
      assert ShownAt(g, source, t, Spot(b.node, y));
    }
  }

  lemma NextHopDoors(g: Graph, source: Kname, a: Place, b: Place)
    requires AllDoors(g, source, a) && Hop(g, source, a, b)
    ensures AllDoors(g, source, b)
  {
    var window := LoopWindow(g, b.node);
    forall y: nat | b.range.Holds(y)
      ensures Door(g, source, Spot(b.node, y))
    {
      LoopHopExact(a.range, window, y);
      var d := Spot(a.node, y + window.start);
      var t, u :| HoldsData(g, source, t) && ShownAt(g, source, t, u) && Reaches(ShownStep(g, source), u, d);
      assert ShownStep(g, source)(d, Spot(b.node, y));
      ReachesStep(ShownStep(g, source), u, d, Spot(b.node, y));
    }
  }

  /** On plain partitions every reached loop device carries a non-empty range of doors. */
  lemma ReachedIsDoors(g: Graph, source: Kname, q: Place)
    requires PlainPartitions(g) && Reached(g, source, q)
    ensures AllDoors(g, source, q)
  {
    var a, b :| Below(g, source, a) && Hop(g, source, a, b) && Reaches(HopStep(g, source), b, q);
    forall x: nat | x < U64_MAX
      ensures FromSource(g, source, Spot(source, x))
    {
      ReachesSelf(StoredStep(g, source), Spot(source, x));
    }
    forall x, y | AllFromSource(g, source, x) && LowerStep(g, source)(x, y)
      ensures AllFromSource(g, source, y)
    {
      LowerFromSource(g, source, x, y);
    }
    ReachesKeeps(LowerStep(g, source), x => AllFromSource(g, source, x), Top(source), a);
    FirstHopDoors(g, source, a, b);
    forall x, y | AllDoors(g, source, x) && HopStep(g, source)(x, y)
      ensures AllDoors(g, source, y)
    {
      NextHopDoors(g, source, x, y);
    }
    ReachesKeeps(HopStep(g, source), x => AllDoors(g, source, x), b, q);
  }

  /** On plain partitions the walk over ranges carries exactly the bytes of the doors. */
  lemma CarriedIffDoor(g: Graph, source: Kname, d: Spot)
    requires PlainPartitions(g)
    ensures CoveredAbove(g, source, d) <==> Door(g, source, d)
  {
    if Door(g, source, d) {
      EveryDoorIsReached(g, source, d);
    }
    if CoveredAbove(g, source, d) {
      var q: Place :| q.node == d.node && q.range.Holds(d.byte) && Reached(g, source, q);
      ReachedIsDoors(g, source, q);
    }
  }

  // ---- What a shown partition or holder means ----

  /** On plain partitions: where all of the loop device is the source's data, every byte of it is a door. */
  lemma AllSourceIsDoors(g: Graph, source: Kname, q: Place, y: nat)
    requires PlainPartitions(g) && Reached(g, source, q) && AllSource(g, q)
    requires y < Bytes(g, q.node).value
    ensures Door(g, source, Spot(q.node, y))
  {
    AllSourceIff(g, q);
    ReachedIsDoors(g, source, q);
    hide Door, Reached;
    assert q.range.Holds(y);
  }

  /** A reached loop device shows the partition. */
  ghost predicate PartitionShown(g: Graph, source: Kname, lo: Kname, p: Kname) {
    exists q: Place :: q.node == lo && Reached(g, source, q) && ShowsPartition(g, q, p)
  }

  /** The partition has a byte that is a door. */
  ghost predicate HoldsDoor(g: Graph, source: Kname, lo: Kname, extent: Range) {
    exists y: nat :: extent.Holds(y) && Door(g, source, Spot(lo, y))
  }

  /** On plain partitions: a partition of known, non-empty extent is shown to be the source's exactly when it
      holds a byte that leads to a byte of the source. */
  lemma PartitionShownIff(g: Graph, source: Kname, lo: Kname, p: Kname, extent: Range)
    requires PlainPartitions(g) && PartitionRange(g, p) == Some(extent) && extent.start < extent.end
    ensures PartitionShown(g, source, lo, p) <==> HoldsDoor(g, source, lo, extent)
  {
    hide Door, Reached, PartitionRange, PlainPartitions;
    if PartitionShown(g, source, lo, p) {
      var q: Place :| q.node == lo && Reached(g, source, q) && ShowsPartition(g, q, p);
      ReachedIsDoors(g, source, q);
      OverlapIsSharedByte(extent, q.range);
      var y: int :| extent.Holds(y) && q.range.Holds(y);
      assert q.range.Holds(y) && Door(g, source, Spot(lo, y));
    }
    if HoldsDoor(g, source, lo, extent) {
      var y: nat :| extent.Holds(y) && Door(g, source, Spot(lo, y));
      EveryDoorIsReached(g, source, Spot(lo, y));
      var q: Place :| q.node == lo && q.range.Holds(y) && Reached(g, source, q);
      assert Overlaps(extent, q.range);
    }
  }

  /** On plain partitions: what is shown to be the source's through a loop device is a partition that holds a
      door, or lies on a loop device all of whose bytes are doors, as every shown holder does. */
  lemma ShownIsDoors(g: Graph, source: Kname, q: Place, root: Kname)
    requires PlainPartitions(g) && Reached(g, source, q) && Shows(g, q, root)
    requires PartitionRange(g, root).Some? ==> PartitionRange(g, root).value.start < PartitionRange(g, root).value.end
    ensures || (root in g.Partitions(q.node) && PartitionRange(g, root).Some?
                && HoldsDoor(g, source, q.node, PartitionRange(g, root).value))
            || (Bytes(g, q.node).Some?
                && forall y: nat :: y < Bytes(g, q.node).value ==> Door(g, source, Spot(q.node, y)))
  {
    hide Door, Reached, PlainPartitions;
    if AllSource(g, q) {
      AllSourceIff(g, q);
      forall y: nat | y < Bytes(g, q.node).value
        ensures Door(g, source, Spot(q.node, y))
      {
        AllSourceIsDoors(g, source, q, y);
      }
    } else {
      assert PartitionShown(g, source, q.node, root);
      PartitionShownIff(g, source, q.node, root, PartitionRange(g, root).value);
    }
  }
}
