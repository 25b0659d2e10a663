/** Graphs for which the read-only decision leaves a writable disk unnamed, or freezes a node under a mount
    that only may be the source's. */
module FreezeExamples {
  import opened Wrappers
  import opened Reachability
  import opened BlockGraph
  import opened ByteRanges
  import opened LowerPlaces
  import opened LoopDoors
  import opened SourceNodes
  import opened WriteProtect
  import opened FreezeLaws
  import DependentTree

  function Node(dev: nat, partitions: seq<Kname>, parent: Option<Kname>): BlockDev {
    BlockDev(Some(DevNum(8, dev)), partitions, [], [], parent, None, None, false, None, None, None)
  }

  /** The walk over a small closed set returns the tree, which is in the set. */
  lemma SmallWalk(g: Graph, root: Kname, all: set<Kname>)
    requires root in all && ClosedUnderDepends(g, all) && |all| <= MAX_TREE_NODES
    ensures DependentTree.Walked(g, root) == Tree(g, root) <= all
    ensures ClosedUnderDepends(g, Tree(g, root)) && root in Tree(g, root)
  {
    TreeWithin(g, root, all);
    TreeClosed(g, root);
    hide Tree;
    DependentTree.SubsetSize(Tree(g, root), all);
    DependentTree.ReturnsTreeIffWithinBound(g, root);
  }

  // ---- A disk with a mounted partition beside a read-only source ----

  function SharedDisk(): Graph {
    Graph(
      map["sdb" := Node(16, ["sdb1", "sdb2"], None),
          "sdb1" := Node(17, [], Some("sdb")),
          "sdb2" := Node(18, [], Some("sdb"))],
      [])
  }

  const SDB2: Identity := Identity("sdb2", Partition, ["sdb"])

  const OF_SDB1: Mount := Mount(DevNum(8, 17), "/dev/sdb1", "/home")

  lemma SharedDiskTree(n: Kname)
    ensures InSourceTree(SharedDisk(), "sdb2", n) <==> n == "sdb2"
  {
    SmallWalk(SharedDisk(), "sdb2", {"sdb2"});
    hide DependentTree.Walked, Tree;
    assert forall q :: !Reached(SharedDisk(), "sdb2", q);
  }

  lemma SharedDiskNotClear()
    ensures !Clear(SharedDisk(), {"sdb2"}, [OF_SDB1], "sdb")
  {
    SmallWalk(SharedDisk(), "sdb", {"sdb", "sdb1", "sdb2"});
    assert SharedDisk().Depends("sdb", "sdb1");
    hide DependentTree.Walked, Tree;
    assert OF_SDB1 in [OF_SDB1] && MountedFrom(SharedDisk(), "sdb1", OF_SDB1);
  }

  lemma SharedDiskFacts()
    ensures ChainNames(SharedDisk(), SDB2) == [] && DisksOf(SDB2) == ["sdb"] && SharedDisk().Partitions("sdb2") == []
  {
  }

  /** The source is read-only and the other partition is mounted: the answer is that all is read-only already,
      while the disk, which the decision concerns, is writable and named nowhere. */
  lemma AlreadyReadOnlyWithWritableDisk()
    ensures var ro: RoFlags := map["sdb" := false, "sdb1" := false, "sdb2" := true];
            && (forall n :: InSourceTree(SharedDisk(), "sdb2", n) <==> n in {"sdb2"})
            && DecisionOn(Auto, InputsOf(SharedDisk(), ro, SDB2, [OF_SDB1], {"sdb2"})) == AlreadyReadOnly
            && Concerned(SharedDisk(), SDB2, "sdb") && ReadOnly(ro, "sdb") == Some(false)
  {
    var ro: RoFlags := map["sdb" := false, "sdb1" := false, "sdb2" := true];
    SharedDiskNotClear();
    SharedDiskFacts();
    hide Clear, SharedDisk, InputsOf, InSourceTree;
    forall n
      ensures InSourceTree(SharedDisk(), "sdb2", n) <==> n in {"sdb2"}
    {
      SharedDiskTree(n);
    }
    assert forall n :: ToFreeze(SharedDisk(), SDB2, [OF_SDB1], {"sdb2"}, n) <==> n == "sdb2";
    AlreadyReadOnlyIff(SharedDisk(), ro, SDB2, [OF_SDB1], {"sdb2"});
    assert FreezeLaws.OnDisk(SharedDisk(), "sdb", "sdb");
  }

  // ---- A mount that only may be the source's ----

  /** loop0 shows all of sdb, and dm-5 is stacked on it. */
  function LoopOverDisk(): Graph {
    Graph(
      map["sdb" := Node(16, ["sdb1", "sdb2"], None),
          "sdb1" := Node(17, [], Some("sdb")),
          "sdb2" := Node(18, [], Some("sdb")).(start := Some(2048), size := Some(2048)),
          "loop0" := BlockDev(Some(DevNum(7, 0)), [], ["dm-5"], [],
                              None, None, Some(8192), true, Some(0), Some(0), None),
          "dm-5" := BlockDev(Some(DevNum(253, 5)), [], [], ["loop0"],
                             None, None, None, false, None, None, Some("vol"))],
      [("loop0", DevNum(8, 16))])
  }

  lemma LoopFacts()
    ensures var g := LoopOverDisk();
            && (forall l, n :: g.LoopOver(l, n) <==> l == "loop0" && n == "sdb")
            && (forall n :: n !in ["sdb"] ==> g.Partitions(n) == [])
            && (forall n :: n != "loop0" ==> g.Holders(n) == [])
            && g.Partitions("sdb") == ["sdb1", "sdb2"] && g.Holders("loop0") == ["dm-5"]
            && LoopWindow(g, "loop0") == WHOLE && g.Size("loop0") == Some(8192)
  {
  }

  const OF_DM5: Mount := Mount(DevNum(253, 5), "/dev/mapper/vol", "/mnt")

  /** Where the bytes of sdb2 are on the disk, and through loop0. */
  const CARRIED: Range := Range(1048576, 2097152)

  lemma BelowSdb2(b: Place)
    ensures Below(LoopOverDisk(), "sdb2", b) <==> b == Place("sdb", CARRIED)
  {
    var g, step, disk := LoopOverDisk(), LowerStep(LoopOverDisk(), "sdb2"), Place("sdb", CARRIED);
    assert PartitionRange(g, "sdb2") == Some(CARRIED);
    assert LowerOf(g, Top("sdb2")) == [disk] && LowerOf(g, disk) == [];
    ReachesSelf(step, Top("sdb2"));
    assert disk in [disk];
    ReachesStep(step, Top("sdb2"), Top("sdb2"), disk);
    if Below(g, "sdb2", b) {
      ReachesKeeps(step, x => x == Top("sdb2") || x == disk, Top("sdb2"), b);
    }
  }

  lemma OnlyHop(a: Place, b: Place)
    requires a.range == CARRIED && a.node in ["sdb", "loop0"]
    ensures Hop(LoopOverDisk(), "sdb2", a, b) <==> a.node == "sdb" && b == Place("loop0", CARRIED)
  {
    LoopFacts();
    hide LoopOverDisk, Graph.LoopOver, LoopWindow;
  }

  lemma StaysOnLoop(q: Place)
    requires Reaches(HopStep(LoopOverDisk(), "sdb2"), Place("loop0", CARRIED), q)
    ensures q == Place("loop0", CARRIED)
  {
    var step, loop := HopStep(LoopOverDisk(), "sdb2"), Place("loop0", CARRIED);
    forall x, y | x == loop && step(x, y)
      ensures y == loop
    {
      OnlyHop(x, y);
    }
    hide Hop, LoopOverDisk;
    ReachesKeeps(step, x => x == loop, loop, q);
  }

  lemma ReachedIsLoop(q: Place)
    requires Reached(LoopOverDisk(), "sdb2", q)
    ensures q == Place("loop0", CARRIED)
  {
    hide Below, Hop, LoopOverDisk, HopStep;
    var a, b :| Below(LoopOverDisk(), "sdb2", a) && Hop(LoopOverDisk(), "sdb2", a, b)
                && Reaches(HopStep(LoopOverDisk(), "sdb2"), b, q);
    BelowSdb2(a);
    OnlyHop(a, b);
    StaysOnLoop(q);
  }

  lemma LoopIsReached()
    ensures Reached(LoopOverDisk(), "sdb2", Place("loop0", CARRIED))
  {
    var disk, loop := Place("sdb", CARRIED), Place("loop0", CARRIED);
    BelowSdb2(disk);
    assert disk.range == CARRIED && loop.range == CARRIED;
    OnlyHop(disk, loop);
    hide *;
    ReachedFirst(LoopOverDisk(), "sdb2", disk, loop);
  }

  lemma ReachedFromSdb2(q: Place)
    ensures Reached(LoopOverDisk(), "sdb2", q) <==> q == Place("loop0", CARRIED)
  {
    LoopIsReached();
    hide *;
    if Reached(LoopOverDisk(), "sdb2", q) {
      ReachedIsLoop(q);
    }
  }

  /** loop0 shows itself, and dm-5 may be the source's: the carried range does not begin at its first byte. */
  lemma LoopShows(n: Kname)
    ensures ShownBy(LoopOverDisk(), Place("loop0", CARRIED), n) <==> n == "loop0"
    ensures MaybeBy(LoopOverDisk(), Place("loop0", CARRIED), n) <==> n == "dm-5"
  {
    var g, loop := LoopOverDisk(), Place("loop0", CARRIED);
    SmallWalk(g, "dm-5", {"dm-5"});
    LoopFacts();
    hide DependentTree.Walked, Tree, LoopOverDisk;
    assert !AllSource(g, loop);
    assert forall root :: MayShow(g, loop, root) <==> root == "dm-5";
    hide MayShow;
    assert MayShow(g, loop, "dm-5");
  }

  lemma LoopOverDiskTree(n: Kname)
    ensures ShownNode(LoopOverDisk(), "sdb2", n) <==> n in {"sdb2", "loop0"}
    ensures MaybeByLoop(LoopOverDisk(), "sdb2", n) <==> n == "dm-5"
  {
    SmallWalk(LoopOverDisk(), "sdb2", {"sdb2"});
    hide DependentTree.Walked, Tree, Reached, LoopOverDisk, ShownBy, MaybeBy;
    forall q
      ensures Reached(LoopOverDisk(), "sdb2", q) <==> q == Place("loop0", CARRIED)
    {
      ReachedFromSdb2(q);
    }
    LoopShows(n);
  }

  lemma DiskIsClear()
    ensures Clear(LoopOverDisk(), {"sdb2", "loop0", "dm-5"}, [OF_DM5], "sdb")
    ensures DependsOn(LoopOverDisk(), "sdb", "dm-5")
  {
    var g := LoopOverDisk();
    SmallWalk(g, "sdb", {"sdb", "sdb1", "sdb2", "loop0", "dm-5"});
    assert g.Depends("sdb", "loop0") && g.Depends("loop0", "dm-5");
    TreeIsDependsOn(g, "sdb", "dm-5");
    assert !MountedFrom(g, "sdb", OF_DM5) && !MountedFrom(g, "sdb1", OF_DM5);
    hide DependentTree.Walked, Tree, MountedFrom;
  }

  /** dm-5 is mounted and depends on the disk, and only may be the source's: it counts as inside the source
      tree, and the disk and its other partition are set read-only. */
  lemma MayBeMountIsFrozen()
    ensures var tree := {"sdb2", "loop0", "dm-5"};
            var d := DecisionOn(Auto, InputsOf(LoopOverDisk(), map[], SDB2, [OF_DM5], tree));
            && (forall n :: InSourceTree(LoopOverDisk(), "sdb2", n) <==> n in tree)
            && d.Set? && "sdb" in d.nodes && "sdb1" in d.nodes
            && DependsOn(LoopOverDisk(), "sdb", "dm-5") && MountedFrom(LoopOverDisk(), "dm-5", OF_DM5)
            && !ShownNode(LoopOverDisk(), "sdb2", "dm-5")
  {
    var g, tree := LoopOverDisk(), {"sdb2", "loop0", "dm-5"};
    DiskIsClear();
    LoopFacts();
    assert FreezeLaws.OnDisk(g, "sdb", "sdb") && FreezeLaws.OnDisk(g, "sdb", "sdb1");
    assert MountedFrom(g, "dm-5", OF_DM5);
    hide Clear, LoopOverDisk, MountedFrom, InputsOf, FreezeLaws.OnDisk;
    forall n
      ensures InSourceTree(g, "sdb2", n) <==> n in tree
      ensures ShownNode(g, "sdb2", n) <==> n in {"sdb2", "loop0"}
    {
      LoopOverDiskTree(n);
    }
    hide ShownNode, InSourceTree;
    SetIff(g, map[], SDB2, [OF_DM5], tree, "sdb");
    SetIff(g, map[], SDB2, [OF_DM5], tree, "sdb1");
  }
}
