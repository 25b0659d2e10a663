/** The worklist over partitions, holders and loop devices: what it collects, when it ends, and what its
    bound on the number of nodes does. */
module DependentTree {
  import opened BlockGraph

  /** A walk adds no node to a set of this size. */
  const MAX_TREE_NODES: nat := 4096

  /** State of the walk; `done` once it has returned `tree`. */
  datatype Walk = Walk(tree: set<Kname>, pending: seq<Kname>, done: bool)

  function Start(root: Kname): Walk {
    Walk({}, [root], false)
  }

  /** The loop devices over a node of `tree` that are not in it yet, in listing order. */
  function LoopsOutside(loops: seq<(Kname, DevNum)>, devs: set<DevNum>, tree: set<Kname>): (r: seq<Kname>)
    ensures forall l :: l in r <==> l !in tree && exists d :: d in devs && (l, d) in loops
  {
    if loops == [] then []
    else
      var rest := LoopsOutside(loops[1..], devs, tree);
      assert loops == [loops[0]] + loops[1..];
      if loops[0].1 in devs && loops[0].0 !in tree then [loops[0].0] + rest else rest
  }

  function DevsOf(g: Graph, tree: set<Kname>): (devs: set<DevNum>)
    ensures forall d :: d in devs <==> exists n :: n in tree && g.DevOf(n).Some? && g.DevOf(n).value == d
  {
    set n | n in tree && g.DevOf(n).Some? :: g.DevOf(n).value
  }

  function MoreLoops(g: Graph, tree: set<Kname>): (r: seq<Kname>)
    ensures forall l :: l in r <==> l !in tree && exists n :: n in tree && g.LoopOver(l, n)
  {
    var devs := DevsOf(g, tree);
    var r := LoopsOutside(g.loops, devs, tree);
    assert forall l, n :: n in tree && g.LoopOver(l, n) ==> g.DevOf(n).value in devs;
    r
  }

  /** One turn of the walk: take a pending node, or look for loop devices when none is pending. */
  function Step(g: Graph, w: Walk): Walk {
    if w.done then w
    else if w.pending != [] then
      var node := w.pending[|w.pending| - 1];
      var rest := w.pending[..|w.pending| - 1];
      if |w.tree| >= MAX_TREE_NODES || node in w.tree then w.(pending := rest)
      else Walk(w.tree + {node}, rest + g.Partitions(node) + g.Holders(node), false)
    else
      var more := MoreLoops(g, w.tree);
      if more == [] then w.(done := true) else w.(pending := more)
  }

  ghost function Run(g: Graph, w: Walk, k: nat): Walk
    decreases k
  {
    if k == 0 then w else Run(g, Step(g, w), k - 1)
  }

  // ---- What the walk returns ----

  /** The walk from `root` has returned after `k` turns. */
  ghost predicate Returns(g: Graph, root: Kname, k: nat) {
    Run(g, Start(root), k).done
  }

  /** The walk from `root` comes to an end. */
  ghost predicate Ends(g: Graph, root: Kname) {
    exists k: nat :: Returns(g, root, k)
  }

  /** What the walk from `root` returns; nothing if it never does. */
  ghost function Walked(g: Graph, root: Kname): set<Kname> {
    if Ends(g, root) then
      var k: nat :| Returns(g, root, k);
      Run(g, Start(root), k).tree
    else {}
  }

  /** The walk found all that depends on `root`. */
  ghost predicate Whole(g: Graph, root: Kname) {
    Walked(g, root) == Tree(g, root)
  }

  lemma {:induction false} RunStep(g: Graph, w: Walk, k: nat)
    ensures Run(g, w, k + 1) == Step(g, Run(g, w, k))
    decreases k
  {
    if k == 0 {
      assert Run(g, w, 1) == Run(g, Step(g, w), 0);
    } else {
      RunStep(g, Step(g, w), k - 1);
    }
  }

  lemma {:induction false} RunSum(g: Graph, w: Walk, j: nat, k: nat)
    ensures Run(g, w, j + k) == Run(g, Run(g, w, j), k)
    decreases j
  {
    hide Step;
    if j > 0 {
      RunSum(g, Step(g, w), j - 1, k);
    }
  }

  lemma {:induction false} DoneStays(g: Graph, w: Walk, k: nat)
    requires w.done
    ensures Run(g, w, k) == w
    decreases k
  {
    if k > 0 {
      DoneStays(g, w, k - 1);
    }
  }

  /** A walk returns one tree, whenever it is looked at. */
  lemma ReturnsOnce(g: Graph, root: Kname, j: nat)
    requires Returns(g, root, j)
    ensures Ends(g, root) && Walked(g, root) == Run(g, Start(root), j).tree
  {
    var k: nat :| Returns(g, root, k) && Walked(g, root) == Run(g, Start(root), k).tree;
    var first, last := if j < k then j else k, if j < k then k else j;
    RunSum(g, Start(root), first, last - first);
    DoneStays(g, Run(g, Start(root), first), last - first);
  }

  lemma NotLast(g: Graph, root: Kname, k: nat, last: nat)
    requires !Run(g, Start(root), k).done && Run(g, Start(root), last).done
    ensures k < last
  {
    if last <= k {
      RunSum(g, Start(root), last, k - last);
      DoneStays(g, Run(g, Start(root), last), k - last);
    }
  }

  /** The loops of the source, turn by turn those of the walk: what is returned is what the walk comes to. */
  method DependentTree(g: Graph, root: Kname) returns (tree: set<Kname>)
    requires Ends(g, root)
    ensures tree == Walked(g, root)
  {
    hide MoreLoops, Walked;
    ghost var last: nat :| Returns(g, root, last);
    ghost var k: nat := 0;
    tree := {};
    var pending := [root];
    while true
      invariant k <= last && Run(g, Start(root), k) == Walk(tree, pending, false)
      decreases last - k
    {
      ghost var turn := k;
      while pending != []
        invariant turn <= k <= last && Run(g, Start(root), k) == Walk(tree, pending, false)
        decreases last - k
      {
        NotLast(g, root, k, last);
        RunStep(g, Start(root), k);
        k := k + 1;
        var node := pending[|pending| - 1];
        pending := pending[..|pending| - 1];
        if |tree| >= MAX_TREE_NODES || node in tree {
          continue;
        }
        tree := tree + {node};
        pending := pending + g.Partitions(node) + g.Holders(node);
      }
      NotLast(g, root, k, last);
      RunStep(g, Start(root), k);
      k := k + 1;
      pending := MoreLoops(g, tree);
      if pending == [] {
        ReturnsOnce(g, root, k);
        return;
      }
    }
  }

  // ---- The walk collects dependents ----

  /** Visited and pending nodes depend on the root, and every dependent of a visited node is visited or
      pending, loop devices excepted. */
  ghost predicate Frontier(g: Graph, root: Kname, w: Walk) {
    Inside(g, root, w) && Followed(g, w)
  }

  ghost predicate Followed(g: Graph, w: Walk) {
    forall n, m :: n in w.tree && (m in g.Partitions(n) || m in g.Holders(n)) ==> m in w.tree || m in w.pending
  }

  ghost predicate Inside(g: Graph, root: Kname, w: Walk) {
    && root in w.tree && w.tree <= Tree(g, root) && |w.tree| <= MAX_TREE_NODES
    && forall n :: n in w.pending ==> n in Tree(g, root)
  }

  /** The first turn visits the root. */
  lemma FirstTurn(g: Graph, root: Kname)
    ensures var w := Step(g, Start(root)); Frontier(g, root, w) && !w.done
  {
    TreeClosed(g, root);
    hide Tree;
    assert forall m :: m in g.Partitions(root) || m in g.Holders(root) ==> g.Depends(root, m);
    assert Step(g, Start(root)) == Walk({root}, [] + g.Partitions(root) + g.Holders(root), false);
  }

  lemma StepInside(g: Graph, root: Kname, w: Walk)
    requires Inside(g, root, w)
    ensures Inside(g, root, Step(g, w))
  {
    TreeClosed(g, root);
    hide Tree;
    if !w.done && w.pending != [] {
      var last := |w.pending| - 1;
      var node, rest := w.pending[last], w.pending[..last];
      assert forall n :: n in rest ==> n in w.pending;
      assert forall m :: m in g.Partitions(node) || m in g.Holders(node) ==> g.Depends(node, m);
    } else if !w.done {
      forall l | l in MoreLoops(g, w.tree)
        ensures l in Tree(g, root)
      {
        var n :| n in w.tree && g.LoopOver(l, n);
        assert g.Depends(n, l);
      }
    }
  }

  lemma StepFollowed(g: Graph, w: Walk)
    requires Followed(g, w) && (|w.tree| < MAX_TREE_NODES || forall n :: n in w.pending ==> n in w.tree)
    ensures Followed(g, Step(g, w))
  {
    hide MoreLoops;
    if !w.done && w.pending != [] {
      var last := |w.pending| - 1;
      var node, rest := w.pending[last], w.pending[..last];
      assert node in w.pending;
      assert forall n :: n in w.pending <==> n in rest || n == node by {
        assert w.pending == rest + [node];
      }
      var more := rest + g.Partitions(node) + g.Holders(node);
      assert forall m :: m in more <==> m in rest || m in g.Partitions(node) || m in g.Holders(node);
    }
  }

  /** The frontier is kept until the set is full, or has everything. */
  lemma StepFrontier(g: Graph, root: Kname, w: Walk)
    requires Frontier(g, root, w) && (|w.tree| < MAX_TREE_NODES || w.tree == Tree(g, root))
    ensures Frontier(g, root, Step(g, w))
  {
    StepInside(g, root, w);
    StepFollowed(g, w);
  }

  lemma SubsetFull<T>(a: set<T>, b: set<T>)
    requires a <= b && |a| >= |b|
    ensures a == b
  {
    if a != b {
      assert !(b <= a);
      var x :| x in b && x !in a;
      assert a <= b - {x};
      SubsetSize(a, b - {x});
    }
  }

  lemma SubsetSize<T>(a: set<T>, b: set<T>)
    requires a <= b
    ensures |a| <= |b|
  {
    assert b == a + (b - a);
  }

  lemma Grows<T>(all: set<T>, a: set<T>, b: set<T>)
    requires a <= b && b <= all && a != b
    ensures |all - b| < |all - a|
  {
    assert !(b <= a);
    var x :| x in b && x !in a;
    assert all - b <= (all - a) - {x};
    SubsetSize(all - b, (all - a) - {x});
  }

  /** A walk with nothing pending and no loop device left has the whole tree. */
  lemma FinishedIsTree(g: Graph, root: Kname, w: Walk)
    requires Frontier(g, root, w) && w.pending == [] && MoreLoops(g, w.tree) == []
    ensures w.tree == Tree(g, root)
  {
    hide Tree;
    forall n, m | n in w.tree && g.Depends(n, m)
      ensures m in w.tree
    {
      if m !in g.Partitions(n) && m !in g.Holders(n) {
        assert m in w.tree || m in MoreLoops(g, w.tree);
      }
    }
    TreeWithin(g, root, w.tree);
  }

  /** There is still something to find within the bound. */
  ghost predicate MoreToFind(g: Graph, root: Kname, w: Walk) {
    w.tree != Tree(g, root) && |w.tree| < MAX_TREE_NODES
  }

  /** The walk goes on until it has everything or is full, and is not done before. */
  lemma {:induction false} RunOn(g: Graph, root: Kname, w: Walk) returns (k: nat)
    requires Frontier(g, root, w) && !w.done
    ensures var v := Run(g, w, k); Frontier(g, root, v) && !v.done && !MoreToFind(g, root, v)
    decreases |Tree(g, root) - w.tree|, |w.pending|
  {
    hide Tree;
    if !MoreToFind(g, root, w) {
      return 0;
    }
    StepFrontier(g, root, w);
    var next := Step(g, w);
    if w.pending != [] {
      if next.tree != w.tree {
        Grows(Tree(g, root), w.tree, next.tree);
      }
      k := RunOn(g, root, next);
      k := k + 1;
    } else {
      if next.done {
        FinishedIsTree(g, root, w);
      }
      assert next.pending[|next.pending| - 1] in MoreLoops(g, w.tree);
      StepFrontier(g, root, next);
      var after := Step(g, next);
      Grows(Tree(g, root), w.tree, after.tree);
      k := RunOn(g, root, after);
      assert Run(g, w, k + 2) == Run(g, next, k + 1);
      k := k + 2;
    }
  }

  /** With nothing more to find, and no loop device outside, the walk empties its list and returns. */
  lemma {:induction false} Drains(g: Graph, w: Walk) returns (k: nat)
    requires !w.done && MoreLoops(g, w.tree) == []
    requires |w.tree| >= MAX_TREE_NODES || forall n :: n in w.pending ==> n in w.tree
    ensures Run(g, w, k).done && Run(g, w, k).tree == w.tree
    decreases |w.pending|
  {
    var next := Step(g, w);
    if w.pending == [] {
      assert Run(g, w, 1) == Run(g, next, 0);
      k := 1;
    } else {
      k := Drains(g, next);
      k := k + 1;
    }
  }

  lemma SomeElement<T>(s: seq<T>)
    ensures s == [] || exists x :: x in s
  {
    if s != [] {
      assert s[0] in s;
    }
  }

  lemma TreeHasItsLoops(g: Graph, root: Kname)
    ensures MoreLoops(g, Tree(g, root)) == []
  {
    TreeClosed(g, root);
    hide Tree;
    forall n, l | n in Tree(g, root) && g.LoopOver(l, n)
      ensures l in Tree(g, root)
    {
      assert g.Depends(n, l);
    }
    SomeElement(MoreLoops(g, Tree(g, root)));
  }

  // ---- What the bound on the number of nodes does ----

  lemma {:induction false} RunInside(g: Graph, root: Kname, k: nat)
    requires k > 0
    ensures Inside(g, root, Run(g, Start(root), k))
    decreases k
  {
    RunStep(g, Start(root), k - 1);
    if k == 1 {
      FirstTurn(g, root);
    } else {
      RunInside(g, root, k - 1);
      StepInside(g, root, Run(g, Start(root), k - 1));
    }
  }

  /** However the walk goes, what it returns depends on the root and is within the bound. */
  lemma WalkedWithin(g: Graph, root: Kname)
    ensures Walked(g, root) <= Tree(g, root) && |Walked(g, root)| <= MAX_TREE_NODES
    ensures Ends(g, root) ==> root in Walked(g, root)
  {
    if Ends(g, root) {
      var k: nat :| Returns(g, root, k) && Walked(g, root) == Run(g, Start(root), k).tree;
      RunInside(g, root, k);
    }
  }

  lemma FirstState(g: Graph, root: Kname) returns (k: nat)
    ensures var v := Run(g, Start(root), k); Frontier(g, root, v) && !v.done && !MoreToFind(g, root, v)
  {
    FirstTurn(g, root);
    var j := RunOn(g, root, Step(g, Start(root)));
    k := j + 1;
    assert Run(g, Start(root), j + 1) == Run(g, Step(g, Start(root)), j);
  }

  /** The walk returns all that depends on the root exactly when that is within the bound: a larger tree
      is cut short without a word, or never returned. */
  lemma ReturnsTreeIffWithinBound(g: Graph, root: Kname)
    ensures Whole(g, root) <==> |Tree(g, root)| <= MAX_TREE_NODES
    ensures |Tree(g, root)| <= MAX_TREE_NODES ==> Ends(g, root)
  {
    WalkedWithin(g, root);
    if |Tree(g, root)| <= MAX_TREE_NODES {
      var k := FirstState(g, root);
      var v := Run(g, Start(root), k);
      if |v.tree| >= MAX_TREE_NODES {
        SubsetFull(v.tree, Tree(g, root));
      }
      TreeHasItsLoops(g, root);
      var j := Drains(g, v);
      RunSum(g, Start(root), k, j);
      ReturnsOnce(g, root, k + j);
    }
  }

  /** A full set with a loop device still outside it: the walk goes round for ever. */
  lemma {:induction false} FullTreeNeverReturns(g: Graph, w: Walk, k: nat)
    requires |w.tree| >= MAX_TREE_NODES && MoreLoops(g, w.tree) != [] && !w.done
    ensures Run(g, w, k).tree == w.tree && !Run(g, w, k).done
    decreases k
  {
    if k > 0 {
      FullTreeNeverReturns(g, Step(g, w), k - 1);
    }
  }

  /** The state in which the set has just become full, or has everything. */
  ghost predicate FullAt(g: Graph, root: Kname, k: nat) {
    |Run(g, Start(root), k).tree| >= MAX_TREE_NODES
  }

  /** The walk ends exactly when the tree is within the bound, or no loop device over the set it is full
      with lies outside that set; and then that set is what it returns. */
  lemma EndsIff(g: Graph, root: Kname)
    ensures Ends(g, root) <==>
            || |Tree(g, root)| <= MAX_TREE_NODES
            || exists k :: FullAt(g, root, k) && MoreLoops(g, Run(g, Start(root), k).tree) == []
  {
    ReturnsTreeIffWithinBound(g, root);
    if |Tree(g, root)| > MAX_TREE_NODES {
      if Ends(g, root) {
        var k := FirstState(g, root);
        assert FullAt(g, root, k);
        if MoreLoops(g, Run(g, Start(root), k).tree) != [] {
          NeverEndsFrom(g, root, k);
        }
      }
      if k: nat :| FullAt(g, root, k) && MoreLoops(g, Run(g, Start(root), k).tree) == [] {
        var v := Run(g, Start(root), k);
        if v.done {
          assert Returns(g, root, k);
        } else {
          var j := Drains(g, v);
          RunSum(g, Start(root), k, j);
          assert Returns(g, root, k + j);
        }
      }
    }
  }

  // ---- Walks that are cut, and walks that never end ----

  /** Without loop devices every walk ends: a tree over the bound is cut to MAX_TREE_NODES nodes. */
  lemma WithoutLoopsCut(g: Graph, root: Kname)
    requires g.loops == []
    ensures Ends(g, root)
    ensures |Tree(g, root)| > MAX_TREE_NODES ==> |Walked(g, root)| == MAX_TREE_NODES
  {
    var k := FirstState(g, root);
    var v := Run(g, Start(root), k);
    if |v.tree| < MAX_TREE_NODES {
      ReturnsTreeIffWithinBound(g, root);
    } else {
      var j := Drains(g, v);
      RunSum(g, Start(root), k, j);
      ReturnsOnce(g, root, k + j);
    }
  }

  function LoopsDropped(g: Graph): Graph {
    g.(loops := [])
  }

  lemma {:induction false} PlainRun(g: Graph, root: Kname, w: Walk) returns (k: nat)
    requires Frontier(LoopsDropped(g), root, w) && !w.done && |Tree(LoopsDropped(g), root)| > MAX_TREE_NODES
    ensures var v := Run(g, w, k); Inside(LoopsDropped(g), root, v) && |v.tree| == MAX_TREE_NODES && !v.done
    decreases |Tree(LoopsDropped(g), root) - w.tree|, |w.pending|
  {
    hide Tree;
    var plain := LoopsDropped(g);
    if |w.tree| == MAX_TREE_NODES {
      return 0;
    }
    if w.pending == [] {
      FinishedIsTree(plain, root, w);
    }
    StepFrontier(plain, root, w);
    var next := Step(g, w);
    assert next == Step(plain, w);
    if next.tree != w.tree {
      Grows(Tree(plain, root), w.tree, next.tree);
    }
    k := PlainRun(g, root, next);
    k := k + 1;
  }

  /** More than MAX_TREE_NODES partitions and holders, directly or not, and a loop device over the root that
      is none of them: the walk never ends. */
  lemma LoopOutsideNeverEnds(g: Graph, root: Kname, lo: Kname)
    requires |Tree(LoopsDropped(g), root)| > MAX_TREE_NODES
    requires g.LoopOver(lo, root) && lo !in Tree(LoopsDropped(g), root)
    ensures !Ends(g, root)
  {
    FirstTurn(LoopsDropped(g), root);
    var first := Step(g, Start(root));
    assert first == Step(LoopsDropped(g), Start(root));
    var j := PlainRun(g, root, first);
    var k := j + 1;
    assert Run(g, Start(root), k) == Run(g, first, j);
    hide Tree, Run, Step;
    assert lo in MoreLoops(g, Run(g, Start(root), k).tree);
    NeverEndsFrom(g, root, k);
  }

  lemma NeverEndsFrom(g: Graph, root: Kname, k: nat)
    requires FullAt(g, root, k) && !Run(g, Start(root), k).done && MoreLoops(g, Run(g, Start(root), k).tree) != []
    ensures !Ends(g, root)
  {
    hide Step;
    if Ends(g, root) {
      var last: nat :| Returns(g, root, last);
      NotLast(g, root, k, last);
      RunSum(g, Start(root), k, last - k);
      FullTreeNeverReturns(g, Run(g, Start(root), k), last - k);
    }
  }

  /** A device with MAX_TREE_NODES partitions and holders, say a disk with as many logical volumes on it, is
      over the bound. */
  lemma ManyDependents(g: Graph, root: Kname)
    requires var ms := set m | m in g.Partitions(root) + g.Holders(root); |ms| >= MAX_TREE_NODES && root !in ms
    ensures |Tree(g, root)| > MAX_TREE_NODES && |Tree(LoopsDropped(g), root)| > MAX_TREE_NODES
  {
    var ms := set m | m in g.Partitions(root) + g.Holders(root);
    forall plain | plain == g || plain == LoopsDropped(g)
      ensures |Tree(plain, root)| > MAX_TREE_NODES
    {
      TreeClosed(plain, root);
      assert forall m :: m in ms ==> plain.Depends(root, m);
      SubsetSize(ms + {root}, Tree(plain, root));
    }
  }
}
