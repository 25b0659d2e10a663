/** The nodes whose mounts count as mounts of the source. */
module SourceNodes {
  import opened BlockGraph
  import opened LowerPlaces
  import opened LoopDoors
  import opened ByteDoors
  import DependentTree
  import LoopsOverLower

  /** Shown to hold the source's data: dependents of the source, and what loop devices over nodes
      below it show. */
  ghost predicate ShownNode(g: Graph, source: Kname, n: Kname) {
    n in DependentTree.Walked(g, source) || ShownByLoop(g, source, n)
  }

  ghost predicate InSourceTree(g: Graph, source: Kname, n: Kname) {
    ShownNode(g, source, n) || MaybeByLoop(g, source, n)
  }

  /** The walks behind the source tree come to an end. */
  ghost predicate SourceWalksEnd(g: Graph, source: Kname) {
    DependentTree.Ends(g, source) && LoopsOverLower.LoopWalksEnd(g, source)
  }

  /** Neither listing behind the source tree was cut short. */
  ghost predicate NotCut(g: Graph, source: Kname, nodes: set<Kname>, maybe: seq<MaybeNode>) {
    FewBelow(g, source) && |nodes| + |maybe| < MAX_TREE_NODES
  }

  /** The shown nodes other than dependents of the source, the possible ones, and the whole tree. */
  method SourceTree(g: Graph, source: Kname)
    returns (tree: set<Kname>, nodes: set<Kname>, maybe: seq<MaybeNode>)
    requires SourceWalksEnd(g, source)
    ensures tree == DependentTree.Walked(g, source) + nodes + NodesOf(maybe)
    ensures forall n :: n in tree ==> InSourceTree(g, source, n)
    ensures forall n :: n in nodes ==> ShownNode(g, source, n)
    ensures LoopsOverLower.AllRecorded(g, source, maybe)
    ensures NotCut(g, source, nodes, maybe) ==>
              forall n :: (InSourceTree(g, source, n) <==> n in tree)
                          && (ShownNode(g, source, n) <==> n in DependentTree.Walked(g, source) + nodes)
    ensures NotCut(g, source, nodes, maybe) ==> forall d, n :: Door(g, source, d) && BehindDoor(g, d, n) ==> n in tree
  {
    nodes, maybe := LoopsOverLower.LoopsOverLowerNodes(g, source);
    tree := DependentTree.DependentTree(g, source);
    tree := tree + nodes + NodesOf(maybe);
    hide ShownByLoop, MaybeByLoop, Door, BehindDoor, FewBelow, LoopsOverLower.RecordedFrom;
    forall d, n | Door(g, source, d) && BehindDoor(g, d, n)
      ensures InSourceTree(g, source, n)
    {
      SourceTreeHoldsEveryDoor(g, source, d, n);
    }
  }

  /** The door's loop device, or what the walk from a partition or holder of it collects. */
  ghost predicate BehindDoor(g: Graph, d: Spot, n: Kname) {
    n == d.node || exists root :: OnDoor(g, d, root) && n in DependentTree.Walked(g, root)
  }

  /** Every loop device that can reach a byte of the source, and everything on it that can, is in
      the source tree. */
  lemma SourceTreeHoldsEveryDoor(g: Graph, source: Kname, d: Spot, n: Kname)
    requires Door(g, source, d) && BehindDoor(g, d, n)
    ensures InSourceTree(g, source, n)
  {
    DoorsAreFound(g, source, d, n);
  }

  /** The records of nodes that are not known, the first of each node, in order. */
  method OnceEach(maybe: seq<MaybeNode>, known: set<Kname>) returns (out: seq<MaybeNode>)
    ensures NodesOf(out) == NodesOf(maybe) - known
    ensures forall i, j :: 0 <= i < j < |out| ==> out[i].node != out[j].node
    ensures forall m :: m in out ==> m in maybe
  {
    out := [];
    for i := 0 to |maybe|
      invariant NodesOf(maybe[..i]) - known == NodesOf(out)
      invariant forall j, k :: 0 <= j < k < |out| ==> out[j].node != out[k].node
      invariant forall m :: m in out ==> m in maybe
    {
      var m := maybe[i];
      NodesOfSnoc(maybe[..i], m);
      assert maybe[..i + 1] == maybe[..i] + [m];
      if m.node !in known && m.node !in NodesOf(out) {
        NodesOfSnoc(out, m);
        out := out + [m];
      }
    }
    assert maybe[..|maybe|] == maybe;
  }

  /** The possible nodes that are not shown in another way, each once, in the order found. */
  method MaybeSourceNodes(g: Graph, source: Kname)
    returns (out: seq<MaybeNode>, tree: set<Kname>, nodes: set<Kname>, maybe: seq<MaybeNode>)
    requires SourceWalksEnd(g, source)
    ensures tree == DependentTree.Walked(g, source) + nodes + NodesOf(maybe)
    ensures NodesOf(out) !! DependentTree.Walked(g, source) + nodes
    ensures tree == (DependentTree.Walked(g, source) + nodes) + NodesOf(out)
    ensures forall i, j :: 0 <= i < j < |out| ==> out[i].node != out[j].node
    ensures forall m :: m in out ==> m in maybe && LoopsOverLower.RecordedFrom(g, source, m)
    ensures NotCut(g, source, nodes, maybe) ==>
              forall n :: (n in NodesOf(out) <==> MaybeByLoop(g, source, n) && !ShownNode(g, source, n))
                          && (ShownNode(g, source, n) <==> n in DependentTree.Walked(g, source) + nodes)
  {
    hide DependentTree.Walked, LoopsOverLower.RecordedFrom, ShownNode, MaybeByLoop;
    hide Door, BehindDoor, FewBelow;
    tree, nodes, maybe := SourceTree(g, source);
    var known := DependentTree.DependentTree(g, source);
    known := known + nodes;
    out := OnceEach(maybe, known);
    if NotCut(g, source, nodes, maybe) {
      forall n
        ensures n in NodesOf(out) <==> MaybeByLoop(g, source, n) && !ShownNode(g, source, n)
      {
        assert ShownNode(g, source, n) <==> n in known;
        assert InSourceTree(g, source, n) <==> n in tree;
      }
    }
  }
}
