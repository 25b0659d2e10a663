/** The worklist over loop devices, each with the byte range of the source's data on it. */
module LoopsOverLower {
  import opened Wrappers
  import opened BlockGraph
  import opened MachineInts
  import opened ByteRanges
  import opened LowerPlaces
  import opened LoopDoors
  import opened Reachability
  import DependentTree

  datatype Found = Found(nodes: set<Kname>, maybe: seq<MaybeNode>, seen: set<Place>, targets: seq<Place>)

  /** The walks from partitions and holders of reached loop devices come to an end. */
  ghost predicate LoopWalksEnd(g: Graph, source: Kname) {
    forall q :: Reached(g, source, q) ==> VisitEnds(g, q)
  }

  ghost function PlacesOn(names: set<Kname>): set<Place> {
    set n, s: int, e: int | n in names && 0 <= s <= U64_MAX && 0 <= e <= U64_MAX :: Place(n, Range(s, e))
  }

  ghost function LoopNames(g: Graph): set<Kname> {
    set l | l in g.loops :: l.0
  }

  ghost predicate SomeShow(g: Graph, seen: set<Place>, n: Kname) {
    exists q :: q in seen && ShownBy(g, q, n)
  }

  ghost predicate SomeMayShow(g: Graph, seen: set<Place>, n: Kname) {
    exists q :: q in seen && MaybeBy(g, q, n)
  }

  /** Everything found comes from a reached loop device, and every seen one has given all it shows. */
  ghost predicate FoundFromSeen(g: Graph, source: Kname, f: Found) {
    && f.seen <= PlacesOn(LoopNames(g))
    && (forall q :: q in f.seen ==> Reached(g, source, q))
    && (forall n :: n in f.nodes <==> SomeShow(g, f.seen, n))
    && (forall n :: n in NodesOf(f.maybe) <==> SomeMayShow(g, f.seen, n))
  }

  /** The record of a possible node: the loop device it is stacked on is set up, overlapping the source's data,
      over the node it names. */
  ghost predicate RecordedFrom(g: Graph, source: Kname, m: MaybeNode) {
    exists a: Place, q: Place :: a.node == m.over && q.node == m.onLoop && MaybeFrom(g, source, a, q, m.node)
  }

  ghost predicate MaybeFrom(g: Graph, source: Kname, a: Place, q: Place, n: Kname) {
    (Below(g, source, a) || Reached(g, source, a)) && Hop(g, source, a, q) && MaybeBy(g, q, n)
  }

  ghost predicate AllRecorded(g: Graph, source: Kname, maybe: seq<MaybeNode>) {
    forall m :: m in maybe ==> RecordedFrom(g, source, m)
  }

  lemma AddRecorded(g: Graph, source: Kname, a: Place, q: Place, maybe: seq<MaybeNode>, more: seq<MaybeNode>)
    requires AllRecorded(g, source, maybe) && (Below(g, source, a) || Reached(g, source, a)) && Hop(g, source, a, q)
    requires forall m :: m in more ==> m.onLoop == q.node && m.over == a.node
    requires forall n :: n in NodesOf(more) <==> MaybeBy(g, q, n)
    ensures AllRecorded(g, source, maybe + more)
  {
    hide Below, Reached, Hop, MaybeBy;
    forall m | m in more
      ensures RecordedFrom(g, source, m)
    {
      assert m.node in NodesOf(more);
      assert MaybeFrom(g, source, a, q, m.node);
    }
  }

  predicate Full(f: Found) {
    |f.nodes| + |f.maybe| >= MAX_TREE_NODES
  }

  /** Every hop from a visited place leads to a seen loop device, unless the result is full. */
  ghost predicate HopFrontier(g: Graph, source: Kname, lower: seq<Place>, f: Found) {
    && (forall a :: a in f.targets ==> a in lower || a in f.seen)
    && (!Full(f) ==>
          forall a, b :: (a in lower || a in f.seen) && a !in f.targets && Hop(g, source, a, b) ==> b in f.seen)
  }

  /** What adding loop devices to a result keeps: new ones are seen and wait to be visited. */
  ghost predicate Grew(f: Found, r: Found) {
    && f.seen <= r.seen && f.targets <= r.targets && f.nodes <= r.nodes && |f.maybe| <= |r.maybe|
    && (r.seen == f.seen ==> r.targets == f.targets)
    && (forall q :: q in r.seen && q !in f.seen ==> q in r.targets)
    && (forall q :: q in r.targets ==> q in f.targets || q in r.seen)
    && (Full(f) ==> Full(r))
  }

  lemma GrewTransitive(f: Found, m: Found, r: Found)
    requires Grew(f, m) && Grew(m, r)
    ensures Grew(f, r)
  {
  }

  lemma AddSeen(g: Graph, source: Kname, f: Found, q: Place, shown: set<Kname>, maybe: seq<MaybeNode>,
                targets: seq<Place>)
    requires FoundFromSeen(g, source, f) && Reached(g, source, q) && q.node in LoopNames(g)
    requires forall n :: n in shown <==> ShownBy(g, q, n)
    requires forall n :: n in NodesOf(maybe) <==> MaybeBy(g, q, n)
    ensures FoundFromSeen(g, source, Found(f.nodes + shown, f.maybe + maybe, f.seen + {q}, targets))
  {
    NodesOfConcat(f.maybe, maybe);
    assert q in PlacesOn(LoopNames(g)) by {
      assert q == Place(q.node, Range(q.range.start, q.range.end));
    }
  }

  method VisitLoopOver(g: Graph, source: Kname, a: Place, lo: Kname, f: Found) returns (r: Found)
    requires LoopWalksEnd(g, source) && FoundFromSeen(g, source, f) && g.LoopOver(lo, a.node)
    requires (Below(g, source, a) || a in f.seen) && AllRecorded(g, source, f.maybe)
    ensures FoundFromSeen(g, source, r) && AllRecorded(g, source, r.maybe)
    ensures Grew(f, r)
    ensures !Full(r) ==> forall b: Place :: b.node == lo && Hop(g, source, a, b) ==> b in r.seen
  {
    r := f;
    if |f.nodes| + |f.maybe| >= MAX_TREE_NODES || lo == source {
      return;
    }
    var window := LoopWindow(g, lo);
    if !Overlaps(a.range, window) {
      return;
    }
    var q := Place(lo, OnLoop(a.range, window));
    if q in f.seen {
      return;
    }
    if a in f.seen {
      ReachedNext(g, source, a, q);
    } else {
      ReachedFirst(g, source, a, q);
    }
    assert q.node in LoopNames(g) by {
      assert (lo, g.DevOf(a.node).value) in g.loops;
    }
    var shown, maybe := VisitLoop(g, q, a.node);
    DependentTree.SubsetSize(f.nodes, f.nodes + shown);
    AddSeen(g, source, f, q, shown, maybe, f.targets + [q]);
    AddRecorded(g, source, a, q, f.maybe, maybe);
    r := Found(f.nodes + shown, f.maybe + maybe, f.seen + {q}, f.targets + [q]);
  }

  method VisitTarget(g: Graph, source: Kname, a: Place, dev: DevNum, f: Found) returns (r: Found)
    requires LoopWalksEnd(g, source) && FoundFromSeen(g, source, f) && g.DevOf(a.node) == Some(dev)
    requires (Below(g, source, a) || a in f.seen) && AllRecorded(g, source, f.maybe)
    ensures FoundFromSeen(g, source, r) && Grew(f, r) && AllRecorded(g, source, r.maybe)
    ensures !Full(r) ==> forall b :: Hop(g, source, a, b) ==> b in r.seen
  {
    r := f;
    for i := 0 to |g.loops|
      invariant FoundFromSeen(g, source, r) && AllRecorded(g, source, r.maybe)
      invariant Grew(f, r)
      invariant !Full(r) ==> forall b: Place :: (b.node, dev) in g.loops[..i] && Hop(g, source, a, b) ==> b in r.seen
    {
      assert g.loops[..i + 1] == g.loops[..i] + [g.loops[i]];
      if g.loops[i].1 == dev {
        ghost var before := r;
        r := VisitLoopOver(g, source, a, g.loops[i].0, r);
        GrewTransitive(f, before, r);
      }
    }
    assert g.loops[..|g.loops|] == g.loops;
  }

  lemma TargetVisited(g: Graph, source: Kname, lower: seq<Place>, f: Found, popped: Found, r: Found, a: Place)
    requires HopFrontier(g, source, lower, f) && f.targets == popped.targets + [a]
    requires popped == f.(targets := popped.targets)
    requires Grew(popped, r)
    requires !Full(r) ==> forall b :: Hop(g, source, a, b) ==> b in r.seen
    ensures HopFrontier(g, source, lower, r)
  {
  }

  /** The loop devices over nodes below the source and what they show. Nothing is found that no
      reached loop device gives; and everything is found unless one of the listings is full. */
  method LoopsOverLowerNodes(g: Graph, source: Kname) returns (nodes: set<Kname>, maybe: seq<MaybeNode>)
    requires LoopWalksEnd(g, source)
    ensures forall n :: n in nodes ==> ShownByLoop(g, source, n)
    ensures forall n :: n in NodesOf(maybe) ==> MaybeByLoop(g, source, n)
    ensures AllRecorded(g, source, maybe)
    ensures FewBelow(g, source) && |nodes| + |maybe| < MAX_TREE_NODES ==>
              forall n :: (n in nodes <==> ShownByLoop(g, source, n))
                && (n in NodesOf(maybe) <==> MaybeByLoop(g, source, n))
  {
    hide DependentTree.Ends, ShownBy, MaybeBy, Reached, Below, FewBelow, ListsAllBelow, FoundFromSeen, HopFrontier;
    hide RecordedFrom;
    var lower := LowerNodesWithRanges(g, source);
    var f := Found({}, [], {}, lower);
    StartFound(g, source, lower);
    while f.targets != []
      invariant FoundFromSeen(g, source, f) && HopFrontier(g, source, lower, f) && AllRecorded(g, source, f.maybe)
      decreases PlacesOn(LoopNames(g)) - f.seen, |f.targets|
    {
      var a := f.targets[|f.targets| - 1];
      var popped := f.(targets := f.targets[..|f.targets| - 1]);
      ghost var before := f;
      TargetKnown(g, source, lower, f, popped, a);
      match g.DevOf(a.node) {
        case None => f := popped;
        case Some(dev) => f := VisitTarget(g, source, a, dev, popped);
      }
      TargetVisited(g, source, lower, before, popped, f, a);
    }
    nodes, maybe := f.nodes, f.maybe;
    FoundReached(g, source, f);
    if FewBelow(g, source) && !Full(f) {
      AllFound(g, source, lower, f);
    }
  }

  lemma StartFound(g: Graph, source: Kname, lower: seq<Place>)
    ensures FoundFromSeen(g, source, Found({}, [], {}, lower))
    ensures HopFrontier(g, source, lower, Found({}, [], {}, lower))
  {
  }

  lemma TargetKnown(g: Graph, source: Kname, lower: seq<Place>, f: Found, popped: Found, a: Place)
    requires FoundFromSeen(g, source, f) && HopFrontier(g, source, lower, f) && a in f.targets
    requires popped == f.(targets := popped.targets)
    ensures FoundFromSeen(g, source, popped) && (a in lower || a in f.seen)
  {
  }

  lemma FoundReached(g: Graph, source: Kname, f: Found)
    requires FoundFromSeen(g, source, f)
    ensures forall n :: n in f.nodes ==> ShownByLoop(g, source, n)
    ensures forall n :: n in NodesOf(f.maybe) ==> MaybeByLoop(g, source, n)
  {
  }

  lemma AllFound(g: Graph, source: Kname, lower: seq<Place>, f: Found)
    requires FoundFromSeen(g, source, f) && HopFrontier(g, source, lower, f) && f.targets == [] && !Full(f)
    requires ListsAllBelow(g, source, lower)
    ensures forall n :: ShownByLoop(g, source, n) ==> n in f.nodes
    ensures forall n :: MaybeByLoop(g, source, n) ==> n in NodesOf(f.maybe)
  {
    forall q | Reached(g, source, q)
      ensures q in f.seen
    {
      var a, b :| Below(g, source, a) && Hop(g, source, a, b) && Reaches(HopStep(g, source), b, q);
      assert ClosedUnder(HopStep(g, source), f.seen);
      ReachesWithin(HopStep(g, source), f.seen, b, q);
    }
    forall n | ShownByLoop(g, source, n)
      ensures n in f.nodes
    {
      var q :| Reached(g, source, q) && ShownBy(g, q, n);
      assert SomeShow(g, f.seen, n);
    }
    forall n | MaybeByLoop(g, source, n)
      ensures n in NodesOf(f.maybe)
    {
      var q :| Reached(g, source, q) && MaybeBy(g, q, n);
      assert SomeMayShow(g, f.seen, n);
    }
  }
}
