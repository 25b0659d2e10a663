/** The nodes a source is stored on, with the byte ranges that may hold its data. */
module LowerPlaces {
  import opened Reachability
  import opened BlockGraph
  import opened ByteRanges
  import DependentTree

  const MAX_TREE_NODES: nat := DependentTree.MAX_TREE_NODES

  /** One hop down. The walk stops at a loop device and never comes back to the source. */
  ghost predicate Lower(g: Graph, source: Kname, a: Place, b: Place) {
    !g.IsLoop(a.node) && b in LowerOf(g, a) && b.node != source
  }

  ghost function LowerStep(g: Graph, source: Kname): (Place, Place) -> bool {
    (a, b) => Lower(g, source, a, b)
  }

  function Top(source: Kname): Place {
    Place(source, WHOLE)
  }

  /** A place below the source, in the sense of the walk. */
  ghost predicate Below(g: Graph, source: Kname, b: Place) {
    b.node != source && Reaches(LowerStep(g, source), Top(source), b)
  }

  ghost predicate Distinct<T(!new)>(s: seq<T>) {
    forall i, j :: 0 <= i < j < |s| ==> s[i] != s[j]
  }

  /** There are fewer than MAX_TREE_NODES places below the source. */
  ghost predicate FewBelow(g: Graph, source: Kname) {
    forall s: seq<Place> :: Distinct(s) && (forall b :: b in s ==> Below(g, source, b)) ==> |s| < MAX_TREE_NODES
  }

  /** Every place one hop below a visited place is listed, unless the listing is full. */
  ghost predicate LowerFrontier(g: Graph, source: Kname, out: seq<Place>, pending: seq<Place>) {
    && Distinct(out)
    && (forall b :: b in out ==> Below(g, source, b))
    && (forall a :: a in pending ==> a in out || a == Top(source))
    && (|out| < MAX_TREE_NODES ==>
          forall a, b :: (a in out || a == Top(source)) && a !in pending && Lower(g, source, a, b) ==> b in out)
  }

  method AddLower(g: Graph, source: Kname, a: Place, out0: seq<Place>, pending0: seq<Place>)
    returns (out: seq<Place>, pending: seq<Place>)
    requires Distinct(out0) && forall b :: b in out0 ==> Below(g, source, b)
    requires forall b :: b in pending0 ==> b in out0 || b == Top(source)
    requires (a in out0 || a == Top(source)) && !g.IsLoop(a.node)
    ensures Distinct(out) && forall b :: b in out ==> Below(g, source, b)
    ensures forall b :: b in pending ==> b in out || b == Top(source)
    ensures out0 <= out && pending0 <= pending && |out| - |out0| == |pending| - |pending0|
    ensures forall b :: b in out ==> b in out0 || b in pending
    ensures forall b :: Lower(g, source, a, b) ==> b in out
  {
    out, pending := out0, pending0;
    var lower := LowerOf(g, a);
    for i := 0 to |lower|
      invariant Distinct(out) && forall b :: b in out ==> Below(g, source, b)
      invariant forall b :: b in pending ==> b in out || b == Top(source)
      invariant out0 <= out && pending0 <= pending && |out| - |out0| == |pending| - |pending0|
      invariant forall b :: b in out ==> b in out0 || b in pending
      invariant forall j :: 0 <= j < i && lower[j].node != source ==> lower[j] in out
    {
      var b := lower[i];
      if b.node != source && b !in out {
        ReachesSelf(LowerStep(g, source), Top(source));
        assert LowerStep(g, source)(a, b);
        ReachesStep(LowerStep(g, source), Top(source), a, b);
        out := out + [b];
        pending := pending + [b];
      }
    }
  }

  ghost predicate ListsAllBelow(g: Graph, source: Kname, out: seq<Place>) {
    forall b :: Below(g, source, b) ==> b in out
  }

  /** The places below the source: nothing but those, and all of them unless the listing is full. */
  method LowerNodesWithRanges(g: Graph, source: Kname) returns (out: seq<Place>)
    ensures Distinct(out) && forall b :: b in out ==> Below(g, source, b)
    ensures FewBelow(g, source) ==> |out| < MAX_TREE_NODES
    ensures |out| < MAX_TREE_NODES ==> ListsAllBelow(g, source, out)
  {
    out := [];
    var pending := [Top(source)];
    while pending != []
      invariant LowerFrontier(g, source, out, pending)
      decreases if |out| < MAX_TREE_NODES then MAX_TREE_NODES - |out| else 0, |pending|
    {
      var last := |pending| - 1;
      var a := pending[last];
      var rest := pending[..last];
      assert pending == rest + [a];
      assert forall b :: b in pending <==> b in rest || b == a;
      if |out| >= MAX_TREE_NODES || g.IsLoop(a.node) {
        pending := rest;
        continue;
      }
      ghost var before := out;
      out, pending := AddLower(g, source, a, out, rest);
      assert forall b :: b in before ==> b in out;
      assert forall b :: b in rest ==> b in pending;
    }
    if |out| < MAX_TREE_NODES {
      forall b | Below(g, source, b)
        ensures b in out
      {
        ReachesListed(g, source, out, b);
      }
    }
  }

  lemma ReachesListed(g: Graph, source: Kname, out: seq<Place>, b: Place)
    requires LowerFrontier(g, source, out, []) && |out| < MAX_TREE_NODES && Below(g, source, b)
    ensures b in out
  {
    var s := (set x | x in out) + {Top(source)};
    assert ClosedUnder(LowerStep(g, source), s);
    ReachesWithin(LowerStep(g, source), s, Top(source), b);
  }
}
