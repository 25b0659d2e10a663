/** Mounts of nodes that may or may not be the source's: what an unmount run is refused for. */
module MaybeMounts {
  import opened BlockGraph
  import opened LoopDoors
  import opened SourceNodes
  import opened WriteProtect
  import DependentTree

  /** A possible node, and its mount points that are not mount points of a node shown to be the source's. */
  datatype MaybeMount = MaybeMount(node: MaybeNode, points: set<string>)

  predicate MountedAt(g: Graph, n: Kname, mounts: seq<Mount>, point: string) {
    exists k :: k in mounts && MountedFrom(g, n, k) && k.point == point
  }

  lemma InMountsOf(g: Graph, nodes: set<Kname>, mounts: seq<Mount>, point: string)
    ensures point in MountsOf(g, nodes, mounts) <==> exists n :: n in nodes && MountedAt(g, n, mounts, point)
  {
    hide MountedFrom;
  }

  /** Something that only may be the source's is mounted at the point, and nothing that is shown to be. */
  ghost predicate OnlyMaybeAt(g: Graph, source: Kname, mounts: seq<Mount>, point: string) {
    && (exists n :: MaybeByLoop(g, source, n) && !ShownNode(g, source, n) && MountedAt(g, n, mounts, point))
    && (forall n :: ShownNode(g, source, n) ==> !MountedAt(g, n, mounts, point))
  }

  /** The points at which a node is mounted and none of the known nodes is. */
  function OwnPoints(g: Graph, n: Kname, known: set<Kname>, mounts: seq<Mount>): set<string> {
    MountsOf(g, {n}, mounts) - MountsOf(g, known, mounts)
  }

  predicate Lists(out: seq<MaybeMount>, point: string) {
    exists x :: x in out && point in x.points
  }

  /** The nodes of the list that have points of their own, in order. */
  method WithPoints(g: Graph, mounts: seq<Mount>, list: seq<MaybeNode>, known: set<Kname>)
    returns (out: seq<MaybeMount>)
    ensures forall x :: x in out <==>
              x.node in list && x.points == OwnPoints(g, x.node.node, known, mounts) && x.points != {}
  {
    out := [];
    var knownMounts := MountsOf(g, known, mounts);
    hide MountsOf;
    for i := 0 to |list|
      invariant forall x :: x in out <==>
                  x.node in list[..i] && x.points == OwnPoints(g, x.node.node, known, mounts) && x.points != {}
    {
      assert list[..i + 1] == list[..i] + [list[i]];
      var points := MountsOf(g, {list[i].node}, mounts) - knownMounts;
      if points != {} {
        out := out + [MaybeMount(list[i], points)];
      }
    }
    assert list[..|list|] == list;
  }

  /** Exactly the points where something that only may be the source's is mounted, and nothing that is shown to
      be, unless a listing was cut. */
  method MaybeSourceMounts(g: Graph, source: Kname, mounts: seq<Mount>)
    returns (out: seq<MaybeMount>, ghost nodes: set<Kname>, ghost maybe: seq<MaybeNode>)
    requires SourceWalksEnd(g, source)
    ensures forall x :: x in out ==> x.node in maybe && x.points != {}
    ensures forall x, point :: x in out && point in x.points ==> MountedAt(g, x.node.node, mounts, point)
    ensures NotCut(g, source, nodes, maybe) ==>
              forall point :: Lists(out, point) <==> OnlyMaybeAt(g, source, mounts, point)
  {
    hide ShownNode, MaybeByLoop, MountsOf, MountedAt, NotCut, DependentTree.Walked;
    var list, tree, shown, all := MaybeSourceNodes(g, source);
    nodes, maybe := shown, all;
    var known := set n | n in tree && n !in NodesOf(list);
    assert known == DependentTree.Walked(g, source) + shown;
    out := WithPoints(g, mounts, list, known);
    forall x, point | x in out && point in x.points
      ensures MountedAt(g, x.node.node, mounts, point)
    {
      InMountsOf(g, {x.node.node}, mounts, point);
    }
    if NotCut(g, source, shown, all) {
      forall point
        ensures Lists(out, point) <==> OnlyMaybeAt(g, source, mounts, point)
      {
        ListedIff(g, source, mounts, list, known, out, point);
      }
    }
  }

  lemma ListedIff(g: Graph, source: Kname, mounts: seq<Mount>, list: seq<MaybeNode>, known: set<Kname>,
                  out: seq<MaybeMount>, point: string)
    requires forall n :: n in NodesOf(list) <==> MaybeByLoop(g, source, n) && !ShownNode(g, source, n)
    requires forall n :: n in known <==> ShownNode(g, source, n)
    requires forall x :: x in out <==>
               x.node in list && x.points == OwnPoints(g, x.node.node, known, mounts) && x.points != {}
    ensures Lists(out, point) <==> OnlyMaybeAt(g, source, mounts, point)
  {
    hide ShownNode, MaybeByLoop, MountsOf, MountedAt;
    InMountsOf(g, known, mounts, point);
    forall n
      ensures point in MountsOf(g, {n}, mounts) <==> MountedAt(g, n, mounts, point)
    {
      InMountsOf(g, {n}, mounts, point);
    }
    if Lists(out, point) {
      var x :| x in out && point in x.points;
      assert x.node.node in NodesOf(list);
    }
    if OnlyMaybeAt(g, source, mounts, point) {
      var n :| MaybeByLoop(g, source, n) && !ShownNode(g, source, n) && MountedAt(g, n, mounts, point);
      assert n in NodesOf(list);
      var m :| m in list && m.node == n;
      assert point in OwnPoints(g, m.node, known, mounts);
      assert MaybeMount(m, OwnPoints(g, m.node, known, mounts)) in out;
    }
  }
}
