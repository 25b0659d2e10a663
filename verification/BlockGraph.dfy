/** The block layer as sysfs shows it: a finite graph of kernel names.
    Sorted listings are sequences; an attribute that cannot be read or parsed is None. */
module BlockGraph {
  import opened Wrappers
  import opened MachineInts
  import opened Reachability

  type Kname = string

  datatype DevNum = DevNum(major: nat, minor: nat)

  datatype BlockDev = BlockDev(
    dev: Option<DevNum>,
    partitions: seq<Kname>,
    holders: seq<Kname>,
    slaves: seq<Kname>,
    parent: Option<Kname>,      // the disk of a partition
    start: Option<u64>,         // 512-byte sectors
    size: Option<u64>,          // 512-byte sectors
    isLoop: bool,
    loopOffset: Option<u64>,    // bytes
    loopSizeLimit: Option<u64>, // bytes; 0: to the end
    dmName: Option<string>)

  /** `loops`: the loop devices backed by a block device, with the number of that device. */
  datatype Graph = Graph(nodes: map<Kname, BlockDev>, loops: seq<(Kname, DevNum)>) {

    function Partitions(n: Kname): seq<Kname> {
      if n in nodes then nodes[n].partitions else []
    }

    function Holders(n: Kname): seq<Kname> {
      if n in nodes then nodes[n].holders else []
    }

    function Slaves(n: Kname): seq<Kname> {
      if n in nodes then nodes[n].slaves else []
    }

    function DevOf(n: Kname): Option<DevNum> {
      if n in nodes then nodes[n].dev else None
    }

    function ParentDisk(n: Kname): Option<Kname> {
      if n in nodes then nodes[n].parent else None
    }

    function Start(n: Kname): Option<u64> {
      if n in nodes then nodes[n].start else None
    }

    function Size(n: Kname): Option<u64> {
      if n in nodes then nodes[n].size else None
    }

    predicate IsLoop(n: Kname) {
      n in nodes && nodes[n].isLoop
    }

    function LoopOffset(n: Kname): u64 {
      if n in nodes && nodes[n].loopOffset.Some? then nodes[n].loopOffset.value else 0
    }

    function LoopSizeLimit(n: Kname): u64 {
      if n in nodes && nodes[n].loopSizeLimit.Some? then nodes[n].loopSizeLimit.value else 0
    }

    function DmName(n: Kname): Option<string> {
      if n in nodes then nodes[n].dmName else None
    }

    /** `lo` is a loop device whose backing file is the node `n`. */
    predicate LoopOver(lo: Kname, n: Kname) {
      DevOf(n).Some? && (lo, DevOf(n).value) in loops
    }

    /** `m` depends directly on `n`. */
    predicate Depends(n: Kname, m: Kname) {
      m in Partitions(n) || m in Holders(n) || LoopOver(m, n)
    }
  }

  ghost function DependsStep(g: Graph): (Kname, Kname) -> bool {
    (n, m) => g.Depends(n, m)
  }

  ghost predicate DependsOn(g: Graph, n: Kname, m: Kname) {
    Reaches(DependsStep(g), n, m)
  }

  /** Every name that can depend on something. */
  ghost function Dependents(g: Graph): set<Kname> {
    (set n, m | n in g.nodes && m in g.nodes[n].partitions :: m)
    + (set n, m | n in g.nodes && m in g.nodes[n].holders :: m)
    + (set l | l in g.loops :: l.0)
  }

  /** The root and everything that depends on it, directly or not. */
  ghost function Tree(g: Graph, root: Kname): set<Kname> {
    set m | m in Dependents(g) + {root} && DependsOn(g, root, m)
  }

  ghost predicate ClosedUnderDepends(g: Graph, s: set<Kname>) {
    forall n, m :: n in s && g.Depends(n, m) ==> m in s
  }

  lemma UniverseClosed(g: Graph, root: Kname)
    ensures ClosedUnder(DependsStep(g), Dependents(g) + {root})
  {
  }

  /** The tree is exactly what depends on the root; nothing is cut off by taking it as a finite set. */
  lemma TreeIsDependsOn(g: Graph, root: Kname, m: Kname)
    ensures m in Tree(g, root) <==> DependsOn(g, root, m)
  {
    if DependsOn(g, root, m) {
      UniverseClosed(g, root);
      ReachesWithin(DependsStep(g), Dependents(g) + {root}, root, m);
    }
  }

  lemma TreeClosed(g: Graph, root: Kname)
    ensures root in Tree(g, root) && ClosedUnderDepends(g, Tree(g, root))
  {
    ReachesSelf(DependsStep(g), root);
    TreeIsDependsOn(g, root, root);
    forall n, m | n in Tree(g, root) && g.Depends(n, m)
      ensures m in Tree(g, root)
    {
      assert DependsStep(g)(n, m);
      ReachesStep(DependsStep(g), root, n, m);
      TreeIsDependsOn(g, root, m);
    }
  }

  lemma TreeWithin(g: Graph, root: Kname, s: set<Kname>)
    requires root in s && ClosedUnderDepends(g, s)
    ensures Tree(g, root) <= s
  {
    forall m | m in Tree(g, root)
      ensures m in s
    {
      assert ClosedUnder(DependsStep(g), s);
      ReachesWithin(DependsStep(g), s, root, m);
    }
  }

  /** The tree holds the root, is closed under dependence, and lies in every such set. */
  lemma TreeIsLeastClosed(g: Graph, root: Kname)
    ensures root in Tree(g, root) && ClosedUnderDepends(g, Tree(g, root))
    ensures forall s: set<Kname> :: root in s && ClosedUnderDepends(g, s) ==> Tree(g, root) <= s
  {
    TreeClosed(g, root);
    forall s: set<Kname> | root in s && ClosedUnderDepends(g, s)
      ensures Tree(g, root) <= s
    {
      TreeWithin(g, root, s);
    }
  }

  /** Whatever depends on a node of the tree is in the tree. */
  lemma TreeTransitive(g: Graph, root: Kname, n: Kname)
    requires n in Tree(g, root)
    ensures Tree(g, n) <= Tree(g, root)
  {
    forall m | m in Tree(g, n)
      ensures m in Tree(g, root)
    {
      ReachesTransitive(DependsStep(g), root, n, m);
      TreeIsDependsOn(g, root, m);
    }
  }
}
