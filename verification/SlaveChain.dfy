/** The nodes a source is stacked on, through `slaves/`. */
module SlaveChain {
  import opened Reachability
  import opened BlockGraph
  import opened LowerPlaces

  /** Breadth first over `slaves/`: the queue is worked off, what was met before is dropped. */
  function LowerNodesFrom(g: Graph, source: Kname, queue: seq<Kname>, out: seq<Kname>): seq<Kname>
    decreases if |out| < MAX_TREE_NODES then MAX_TREE_NODES - |out| else 0, |queue|
  {
    if queue == [] || |out| >= MAX_TREE_NODES then out
    else if queue[0] == source || queue[0] in out then LowerNodesFrom(g, source, queue[1..], out)
    else LowerNodesFrom(g, source, queue[1..] + g.Slaves(queue[0]), out + [queue[0]])
  }

  function LowerNodes(g: Graph, source: Kname): seq<Kname> {
    LowerNodesFrom(g, source, g.Slaves(source), [])
  }

  method ListLowerNodes(g: Graph, source: Kname) returns (out: seq<Kname>)
    ensures out == LowerNodes(g, source)
  {
    out := [];
    var queue := g.Slaves(source);
    while queue != [] && |out| < MAX_TREE_NODES
      invariant LowerNodesFrom(g, source, queue, out) == LowerNodes(g, source)
      decreases if |out| < MAX_TREE_NODES then MAX_TREE_NODES - |out| else 0, |queue|
    {
      var n := queue[0];
      queue := queue[1..];
      if n == source || n in out {
        continue;
      }
      queue := queue + g.Slaves(n);
      out := out + [n];
    }
  }

  ghost function SlaveStep(g: Graph): (Kname, Kname) -> bool {
    (n, m) => m in g.Slaves(n)
  }

  /** What is listed or queued is below the source, and the slaves of what is listed are met. */
  ghost predicate SlaveFrontier(g: Graph, source: Kname, queue: seq<Kname>, out: seq<Kname>) {
    && Distinct(out) && source !in out
    && (forall n :: n in out || n in queue ==> Reaches(SlaveStep(g), source, n))
    && (forall n, m :: (n == source || n in out) && m in g.Slaves(n) ==> m == source || m in out || m in queue)
  }

  lemma {:induction false} LowerNodesFromFrontier(g: Graph, source: Kname, queue: seq<Kname>, out: seq<Kname>)
    returns (rest: seq<Kname>)
    requires SlaveFrontier(g, source, queue, out)
    ensures SlaveFrontier(g, source, rest, LowerNodesFrom(g, source, queue, out))
    ensures |LowerNodesFrom(g, source, queue, out)| < MAX_TREE_NODES ==> rest == []
    decreases if |out| < MAX_TREE_NODES then MAX_TREE_NODES - |out| else 0, |queue|
  {
    if queue == [] || |out| >= MAX_TREE_NODES {
      rest := queue;
    } else if queue[0] == source || queue[0] in out {
      QueueDropped(g, source, queue, out);
      rest := LowerNodesFromFrontier(g, source, queue[1..], out);
    } else {
      QueueTaken(g, source, queue, out);
      rest := LowerNodesFromFrontier(g, source, queue[1..] + g.Slaves(queue[0]), out + [queue[0]]);
    }
  }

  lemma QueueDropped(g: Graph, source: Kname, queue: seq<Kname>, out: seq<Kname>)
    requires SlaveFrontier(g, source, queue, out) && queue != [] && (queue[0] == source || queue[0] in out)
    ensures SlaveFrontier(g, source, queue[1..], out)
  {
  }

  lemma QueueTaken(g: Graph, source: Kname, queue: seq<Kname>, out: seq<Kname>)
    requires SlaveFrontier(g, source, queue, out) && queue != [] && queue[0] != source && queue[0] !in out
    ensures SlaveFrontier(g, source, queue[1..] + g.Slaves(queue[0]), out + [queue[0]])
  {
    hide Reaches;
    var n, rest := queue[0], queue[1..];
    assert forall x :: x in queue <==> x in rest || x == n by {
      assert queue == [n] + rest;
    }
    forall m | m in g.Slaves(n)
      ensures Reaches(SlaveStep(g), source, m)
    {
      ReachesStep(SlaveStep(g), source, n, m);
    }
  }

  /** `n` is a slave of the source or of a listed node. */
  ghost predicate Carries(g: Graph, source: Kname, out: seq<Kname>, n: Kname) {
    n in g.Slaves(source) || exists m :: m in out && n in g.Slaves(m)
  }

  /** Every node is listed after a node that is stacked on it, or is a slave of the source. */
  ghost predicate NearestFirst(g: Graph, source: Kname, out: seq<Kname>) {
    forall i :: 0 <= i < |out| ==> Carries(g, source, out[..i], out[i])
  }

  lemma {:induction false} LowerNodesFromOrder(g: Graph, source: Kname, queue: seq<Kname>, out: seq<Kname>)
    requires NearestFirst(g, source, out) && forall n :: n in queue ==> Carries(g, source, out, n)
    ensures NearestFirst(g, source, LowerNodesFrom(g, source, queue, out))
    decreases if |out| < MAX_TREE_NODES then MAX_TREE_NODES - |out| else 0, |queue|
  {
    if queue == [] || |out| >= MAX_TREE_NODES {
    } else if queue[0] == source || queue[0] in out {
      LowerNodesFromOrder(g, source, queue[1..], out);
    } else {
      var out1, queue1 := out + [queue[0]], queue[1..] + g.Slaves(queue[0]);
      forall i | 0 <= i < |out1|
        ensures Carries(g, source, out1[..i], out1[i])
      {
        assert out1[..i] == if i < |out| then out[..i] else out;
      }
      forall n | n in queue1
        ensures Carries(g, source, out1, n)
      {
        if n in g.Slaves(queue[0]) {
          assert out1[|out|] == queue[0];
        } else if n !in g.Slaves(source) {
          assert n in queue;
          var m :| m in out && n in g.Slaves(m);
          assert m in out1;
        }
      }
      LowerNodesFromOrder(g, source, queue1, out1);
    }
  }

  /** The listing has no repetitions and not the source; every node comes after one stacked on it;
      and below the bound it is everything the source is stacked on. */
  lemma LowerNodesExact(g: Graph, source: Kname)
    ensures var r := LowerNodes(g, source);
            && Distinct(r) && source !in r
            && (forall n :: n in r ==> Reaches(SlaveStep(g), source, n))
            && NearestFirst(g, source, r)
            && (|r| < MAX_TREE_NODES ==> forall n :: n != source && Reaches(SlaveStep(g), source, n) ==> n in r)
  {
    forall m | m in g.Slaves(source)
      ensures Reaches(SlaveStep(g), source, m)
    {
      ReachesSelf(SlaveStep(g), source);
      ReachesStep(SlaveStep(g), source, source, m);
    }
    var rest := LowerNodesFromFrontier(g, source, g.Slaves(source), []);
    LowerNodesFromOrder(g, source, g.Slaves(source), []);
    var r := LowerNodes(g, source);
    if |r| < MAX_TREE_NODES {
      forall n | n != source && Reaches(SlaveStep(g), source, n)
        ensures n in r
      {
        var s := (set x | x in r) + {source};
        assert ClosedUnder(SlaveStep(g), s);
        ReachesWithin(SlaveStep(g), s, source, n);
      }
    }
  }
}
