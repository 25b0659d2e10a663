/** Loop devices over a node below the source: further ways to reach the source's data. */
module LoopDoors {
  import opened Wrappers
  import opened Reachability
  import opened BlockGraph
  import opened MachineInts
  import opened ByteRanges
  import opened LowerPlaces
  import DependentTree

  /** A node that may or may not map the source's data, the loop device it is stacked on, and the
      node below the source that loop device is set up over. */
  datatype MaybeNode = MaybeNode(node: Kname, onLoop: Kname, over: Kname)

  /** `b` is a loop device over `a`'s node whose window overlaps the carried range. */
  predicate Hop(g: Graph, source: Kname, a: Place, b: Place) {
    && b.node != source
    && g.LoopOver(b.node, a.node)
    && Overlaps(a.range, LoopWindow(g, b.node))
    && b.range == OnLoop(a.range, LoopWindow(g, b.node))
  }

  ghost function HopStep(g: Graph, source: Kname): (Place, Place) -> bool {
    (a, b) => Hop(g, source, a, b)
  }

  /** A loop device reached from a place below the source by one or more overlapping hops. */
  ghost predicate Reached(g: Graph, source: Kname, q: Place) {
    exists a, b :: Below(g, source, a) && Hop(g, source, a, b) && Reaches(HopStep(g, source), b, q)
  }

  lemma ReachedFirst(g: Graph, source: Kname, a: Place, b: Place)
    requires Below(g, source, a) && Hop(g, source, a, b)
    ensures Reached(g, source, b)
  {
    ReachesSelf(HopStep(g, source), b);
  }

  lemma ReachedNext(g: Graph, source: Kname, q: Place, b: Place)
    requires Reached(g, source, q) && Hop(g, source, q, b)
    ensures Reached(g, source, b)
  {
    var a0, b0 :| Below(g, source, a0) && Hop(g, source, a0, b0) && Reaches(HopStep(g, source), b0, q);
    ReachesStep(HopStep(g, source), b0, q, b);
  }

  /** All of the loop device is the source's data. */
  predicate AllSource(g: Graph, q: Place) {
    && q.range.start == 0
    && g.Size(q.node).Some?
    && g.Size(q.node).value * 512 <= U64_MAX
    && q.range.end >= g.Size(q.node).value * 512
  }

  /** The device's size in bytes, when it is known and within u64. */
  function Bytes(g: Graph, n: Kname): Option<nat> {
    if g.Size(n).Some? && g.Size(n).value * 512 <= U64_MAX then Some(g.Size(n).value * 512) else None
  }

  /** All of a loop device is the source's data when every byte of it is in the carried range; of a device of
      unknown size that is never said. */
  lemma AllSourceIff(g: Graph, q: Place)
    ensures Bytes(g, q.node) == None ==> !AllSource(g, q)
    ensures Bytes(g, q.node).Some? && Bytes(g, q.node).value > 0 ==>
              (AllSource(g, q) <==> forall y: nat :: y < Bytes(g, q.node).value ==> q.range.Holds(y))
  {
    if Bytes(g, q.node).Some? && Bytes(g, q.node).value > 0 {
      var n := Bytes(g, q.node).value;
      if forall y: nat :: y < n ==> q.range.Holds(y) {
        assert q.range.Holds(0) && q.range.Holds(n - 1);
      }
    }
  }

  /** A partition of the loop device that is shown to hold the source's data. */
  predicate ShowsPartition(g: Graph, q: Place, p: Kname) {
    match PartitionRange(g, p)
    case Some(r) => Overlaps(r, q.range)
    case None => AllSource(g, q)
  }

  /** `root`, a partition or holder of the loop device, is shown to hold the source's data. */
  predicate Shows(g: Graph, q: Place, root: Kname) {
    || (root in g.Partitions(q.node) && ShowsPartition(g, q, root))
    || (root in g.Holders(q.node) && AllSource(g, q))
  }

  /** `root`, a partition or holder of the loop device, may or may not map the source's data. */
  predicate MayShow(g: Graph, q: Place, root: Kname) {
    && !AllSource(g, q)
    && ((root in g.Partitions(q.node) && PartitionRange(g, root).None?) || root in g.Holders(q.node))
  }

  /** Only what is stacked on a loop device that has bytes outside the carried range, or is of unknown size, may or
      may not be the source's: its holders, and its partitions of unknown extent. */
  lemma MayShowIff(g: Graph, q: Place, root: Kname)
    requires Bytes(g, q.node).Some? ==> Bytes(g, q.node).value > 0
    ensures MayShow(g, q, root) <==>
            && (root in g.Holders(q.node) || (root in g.Partitions(q.node) && !ExtentKnown(g, root)))
            && (Bytes(g, q.node) == None || exists y: nat :: y < Bytes(g, q.node).value && !q.range.Holds(y))
  {
    AllSourceIff(g, q);
    ExtentHolds(g, root, 0);
  }

  /** The loop device itself, and what the walk from a shown partition or holder collects. */
  ghost predicate ShownBy(g: Graph, q: Place, n: Kname) {
    n == q.node || exists root :: Shows(g, q, root) && n in DependentTree.Walked(g, root)
  }

  ghost predicate MaybeBy(g: Graph, q: Place, n: Kname) {
    exists root :: MayShow(g, q, root) && n in DependentTree.Walked(g, root)
  }

  /** The walks that a visit of the loop device makes come to an end. */
  ghost predicate VisitEnds(g: Graph, q: Place) {
    forall root :: Shows(g, q, root) || MayShow(g, q, root) ==> DependentTree.Ends(g, root)
  }

  /** Some reached loop device shows the node. */
  ghost predicate ShownByLoop(g: Graph, source: Kname, n: Kname) {
    exists q :: Reached(g, source, q) && ShownBy(g, q, n)
  }

  /** The node is stacked on a reached loop device and may or may not map the source's data. */
  ghost predicate MaybeByLoop(g: Graph, source: Kname, n: Kname) {
    exists q :: Reached(g, source, q) && MaybeBy(g, q, n)
  }

  function NodesOf(maybe: seq<MaybeNode>): set<Kname> {
    set m | m in maybe :: m.node
  }

  ghost function Trees(g: Graph, roots: seq<Kname>): set<Kname> {
    if roots == [] then {} else Trees(g, roots[..|roots| - 1]) + DependentTree.Walked(g, roots[|roots| - 1])
  }

  lemma {:induction false} InTrees(g: Graph, roots: seq<Kname>, n: Kname)
    ensures n in Trees(g, roots) <==> exists r :: r in roots && n in DependentTree.Walked(g, r)
  {
    if roots != [] {
      var front, last := roots[..|roots| - 1], roots[|roots| - 1];
      assert roots == front + [last];
      InTrees(g, front, n);
      if n in Trees(g, front) {
        var r :| r in front && n in DependentTree.Walked(g, r);
        assert r in roots;
      }
      if n in DependentTree.Walked(g, last) {
        assert last in roots;
      }
      if r :| r in roots && n in DependentTree.Walked(g, r) {
        assert r in front || r == last;
      }
    }
  }

  lemma TreesSnoc(g: Graph, roots: seq<Kname>, r: Kname)
    ensures Trees(g, roots + [r]) == Trees(g, roots) + DependentTree.Walked(g, r)
  {
  }

  /** The nodes shown through the loop device `q`, and the roots of what may or may not be. */
  method VisitPartitions(g: Graph, q: Place)
    returns (shown: set<Kname>, roots: seq<Kname>, ghost showing: seq<Kname>)
    requires VisitEnds(g, q)
    ensures shown == {q.node} + Trees(g, showing)
    ensures forall r :: r in showing <==> r in g.Partitions(q.node) && ShowsPartition(g, q, r)
    ensures forall r :: r in roots <==> r in g.Partitions(q.node) && PartitionRange(g, r).None? && !AllSource(g, q)
  {
    hide DependentTree.Walked, DependentTree.Ends;
    shown, roots, showing := {q.node}, [], [];
    var partitions := g.Partitions(q.node);
    for i := 0 to |partitions|
      invariant shown == {q.node} + Trees(g, showing)
      invariant forall r :: r in showing <==> r in partitions[..i] && ShowsPartition(g, q, r)
      invariant forall r :: r in roots <==> r in partitions[..i] && PartitionRange(g, r).None? && !AllSource(g, q)
    {
      var p := partitions[i];
      assert partitions[..i + 1] == partitions[..i] + [p];
      match PartitionRange(g, p) {
        case Some(r) =>
          if Overlaps(r, q.range) {
            var tree := DependentTree.DependentTree(g, p);
            TreesSnoc(g, showing, p);
            shown, showing := shown + tree, showing + [p];
          }
        case None =>
          if AllSource(g, q) {
            var tree := DependentTree.DependentTree(g, p);
            TreesSnoc(g, showing, p);
            shown, showing := shown + tree, showing + [p];
          } else {
            roots := roots + [p];
          }
      }
    }
    assert partitions[..|partitions|] == partitions;
  }

  method VisitHolders(g: Graph, q: Place, shown0: set<Kname>, roots0: seq<Kname>)
    returns (shown: set<Kname>, roots: seq<Kname>, ghost showing: seq<Kname>)
    requires VisitEnds(g, q)
    ensures shown == shown0 + Trees(g, showing)
    ensures forall r :: r in showing <==> r in g.Holders(q.node) && AllSource(g, q)
    ensures forall r :: r in roots <==> r in roots0 || (r in g.Holders(q.node) && !AllSource(g, q))
  {
    hide DependentTree.Walked, DependentTree.Ends;
    shown, roots, showing := shown0, roots0, [];
    var holders := g.Holders(q.node);
    for i := 0 to |holders|
      invariant shown == shown0 + Trees(g, showing)
      invariant forall r :: r in showing <==> r in holders[..i] && AllSource(g, q)
      invariant forall r :: r in roots <==> r in roots0 || (r in holders[..i] && !AllSource(g, q))
    {
      var h := holders[i];
      assert holders[..i + 1] == holders[..i] + [h];
      if AllSource(g, q) {
        var tree := DependentTree.DependentTree(g, h);
        TreesSnoc(g, showing, h);
        shown, showing := shown + tree, showing + [h];
      } else {
        roots := roots + [h];
      }
    }
    assert holders[..|holders|] == holders;
  }

  /** The nodes of a set, one after the other, each recorded as a possible node of the source. */
  method RecordMaybe(tree: set<Kname>, q: Place, over: Kname) returns (maybe: seq<MaybeNode>)
    ensures NodesOf(maybe) == tree
    ensures forall m :: m in maybe ==> m.onLoop == q.node && m.over == over
  {
    maybe := [];
    var left := tree;
    while left != {}
      invariant left <= tree && NodesOf(maybe) == tree - left
      invariant forall m :: m in maybe ==> m.onLoop == q.node && m.over == over
      decreases left
    {
      var n :| n in left;
      left := left - {n};
      NodesOfSnoc(maybe, MaybeNode(n, q.node, over));
      maybe := maybe + [MaybeNode(n, q.node, over)];
    }
  }

  lemma NodesOfSnoc(maybe: seq<MaybeNode>, m: MaybeNode)
    ensures NodesOf(maybe + [m]) == NodesOf(maybe) + {m.node}
  {
  }

  lemma NodesOfConcat(a: seq<MaybeNode>, b: seq<MaybeNode>)
    ensures NodesOf(a + b) == NodesOf(a) + NodesOf(b)
  {
  }

  /** What the loop device `q` adds: the nodes shown through it, and those that may or may not be. */
  method VisitLoop(g: Graph, q: Place, over: Kname) returns (shown: set<Kname>, maybe: seq<MaybeNode>)
    requires VisitEnds(g, q)
    ensures forall n :: n in shown <==> ShownBy(g, q, n)
    ensures forall n :: n in NodesOf(maybe) <==> MaybeBy(g, q, n)
    ensures forall m :: m in maybe ==> m.onLoop == q.node && m.over == over
  {
    ghost var byPartition, byHolder;
    var roots;
    shown, roots, byPartition := VisitPartitions(g, q);
    shown, roots, byHolder := VisitHolders(g, q, shown, roots);
    forall n
      ensures n in shown <==> ShownBy(g, q, n)
    {
      InTrees(g, byPartition, n);
      InTrees(g, byHolder, n);
    }
    maybe := MaybeOfRoots(g, q, over, roots);
    forall n
      ensures n in NodesOf(maybe) <==> MaybeBy(g, q, n)
    {
      InTrees(g, roots, n);
    }
  }

  method MaybeOfRoots(g: Graph, q: Place, over: Kname, roots: seq<Kname>) returns (maybe: seq<MaybeNode>)
    requires forall r :: r in roots ==> DependentTree.Ends(g, r)
    ensures NodesOf(maybe) == Trees(g, roots)
    ensures forall m :: m in maybe ==> m.onLoop == q.node && m.over == over
  {
    hide DependentTree.Walked, DependentTree.Ends;
    maybe := [];
    for i := 0 to |roots|
      invariant NodesOf(maybe) == Trees(g, roots[..i])
      invariant forall m :: m in maybe ==> m.onLoop == q.node && m.over == over
    {
      assert roots[..i + 1] == roots[..i] + [roots[i]];
      TreesSnoc(g, roots[..i], roots[i]);
      var tree := DependentTree.DependentTree(g, roots[i]);
      var more := RecordMaybe(tree, q, over);
      NodesOfConcat(maybe, more);
      maybe := maybe + more;
    }
    assert roots[..|roots|] == roots;
  }
}
