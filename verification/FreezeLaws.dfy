/** What the read-only decision guarantees over every graph and mount table. */
module FreezeLaws {
  import opened Wrappers
  import opened BlockGraph
  import opened LowerPlaces
  import opened LoopDoors
  import opened SourceNodes
  import opened WriteProtect
  import opened DependentTree

  // ---- What the target lists hold ----

  lemma {:induction false} InUnset(ts: seq<NodeState>, n: Kname)
    ensures n in Unset(ts) <==> exists t :: t in ts && t.node == n && t.ro != Some(true)
  {
    if ts != [] {
      var front, last := ts[..|ts| - 1], ts[|ts| - 1];
      assert ts == front + [last];
      InUnset(front, n);
    }
  }

  /** No node is set twice. */
  lemma {:induction false} UnsetDistinct(ts: seq<NodeState>)
    ensures Distinct(Unset(ts))
  {
    if ts != [] {
      UnsetDistinct(ts[..|ts| - 1]);
    }
  }

  lemma {:induction false} InDiskTargets(disks: seq<DiskState>, t: NodeState)
    ensures t in DiskTargets(disks) <==>
            exists d :: d in disks && d.foreignMounts == {} && (t == NodeState(d.node, d.ro) || t in d.partitions)
  {
    if disks != [] {
      var front, last := disks[..|disks| - 1], disks[|disks| - 1];
      assert disks == front + [last];
      InDiskTargets(front, t);
      var here := if last.foreignMounts == {} then [NodeState(last.node, last.ro)] + last.partitions else [];
      assert t in DiskTargets(disks) <==> t in DiskTargets(front) || t in here;
    }
  }

  lemma {:induction false} InChainTargets(chain: seq<ChainNode>, t: NodeState)
    ensures t in ChainTargets(chain) <==>
            exists c :: c in chain && c.foreignMounts == {} && t == NodeState(c.node, c.ro)
  {
    if chain != [] {
      assert chain == [chain[0]] + chain[1..];
      InChainTargets(chain[1..], t);
    }
  }

  lemma {:induction false} InDiskNotes(inputs: Inputs, disks: seq<DiskState>, x: Note)
    ensures x in DiskNotes(inputs, disks) <==>
            (exists d :: d in disks && d.foreignMounts != {}
               && x == DiskLeftWritable(d.node, [d.node] + OutsideChain(inputs, d.partitions), d.foreignMounts))
  {
    if disks != [] {
      var front, last := disks[..|disks| - 1], disks[|disks| - 1];
      assert disks == front + [last];
      InDiskNotes(inputs, front, x);
    }
  }

  lemma {:induction false} InChainNotes(chain: seq<ChainNode>, x: Note)
    ensures x in ChainNotes(chain) <==>
            exists c :: c in chain && c.foreignMounts != {} && x == NodeLeftWritable(c.node, c.foreignMounts)
  {
    if chain != [] {
      assert chain == [chain[0]] + chain[1..];
      InChainNotes(chain[1..], x);
    }
  }

  lemma {:induction false} InOutsideChain(inputs: Inputs, ps: seq<NodeState>, n: Kname)
    ensures n in OutsideChain(inputs, ps) <==> !InChain(inputs, n) && exists p :: p in ps && p.node == n
  {
    if ps != [] {
      var front, last := ps[..|ps| - 1], ps[|ps| - 1];
      assert ps == front + [last];
      InOutsideChain(inputs, front, n);
    }
  }

  lemma InStates(ro: RoFlags, nodes: seq<Kname>, t: NodeState)
    ensures t in States(ro, nodes) <==> t.node in nodes && t.ro == ReadOnly(ro, t.node)
  {
    if t.node in nodes && t.ro == ReadOnly(ro, t.node) {
      var i :| 0 <= i < |nodes| && nodes[i] == t.node;
      assert States(ro, nodes)[i] == t;
    }
  }

  // ---- Which nodes are set ----

  /** No mount outside the source tree is on the node or on anything its walk finds to depend on it. */
  ghost predicate Clear(g: Graph, tree: set<Kname>, mounts: seq<Mount>, n: Kname) {
    forall m, k :: m in Walked(g, n) && m !in tree && k in mounts ==> !MountedFrom(g, m, k)
  }

  lemma NoForeignMountsIsClear(g: Graph, tree: set<Kname>, mounts: seq<Mount>, n: Kname)
    ensures ForeignMounts(g, tree, mounts, n) == {} <==> Clear(g, tree, mounts, n)
  {
    hide Walked;
    forall m, k | m in Walked(g, n) && m !in tree && k in mounts && MountedFrom(g, m, k)
      ensures k.point in ForeignMounts(g, tree, mounts, n)
    {
      assert m in Walked(g, n) - tree;
    }
  }

  /** The decision concerns the node because of this disk: the disk or one of its partitions. */
  predicate OnDisk(g: Graph, disk: Kname, n: Kname) {
    n == disk || n in g.Partitions(disk)
  }

  /** The source, or a partition of a source that is not a disk of its own. */
  predicate OwnNode(g: Graph, id: Identity, n: Kname) {
    n == id.kernelName || (id.kernelName !in DisksOf(id) && n in g.Partitions(id.kernelName))
  }

  /** The node is to be read-only, and nothing mounted elsewhere stands against it. */
  ghost predicate ToFreeze(g: Graph, id: Identity, mounts: seq<Mount>, tree: set<Kname>, n: Kname) {
    || OwnNode(g, id, n)
    || (n in ChainNames(g, id) && Clear(g, tree, mounts, n))
    || exists d :: d in DisksOf(id) && Clear(g, tree, mounts, d) && OnDisk(g, d, n)
  }

  ghost function NodesToSet(g: Graph, ro: RoFlags, id: Identity, mounts: seq<Mount>, tree: set<Kname>): seq<Kname> {
    Unset(Targets(InputsOf(g, ro, id, mounts, tree)))
  }

  lemma DiskTargetIff(g: Graph, ro: RoFlags, id: Identity, mounts: seq<Mount>, tree: set<Kname>, t: NodeState)
    ensures t in DiskTargets(InputsOf(g, ro, id, mounts, tree).disks) <==>
            && t.ro == ReadOnly(ro, t.node)
            && exists d :: d in DisksOf(id) && Clear(g, tree, mounts, d) && OnDisk(g, d, t.node)
  {
    hide Clear, ForeignMounts, States;
    var disks := InputsOf(g, ro, id, mounts, tree).disks;
    InDiskTargets(disks, t);
    forall i | 0 <= i < |DisksOf(id)|
      ensures disks[i].foreignMounts == {} <==> Clear(g, tree, mounts, DisksOf(id)[i])
      ensures t in disks[i].partitions <==> t.node in g.Partitions(DisksOf(id)[i]) && t.ro == ReadOnly(ro, t.node)
    {
      NoForeignMountsIsClear(g, tree, mounts, DisksOf(id)[i]);
      InStates(ro, g.Partitions(DisksOf(id)[i]), t);
    }
    forall i | 0 <= i < |DisksOf(id)|
      ensures disks[i] in disks && disks[i].node == DisksOf(id)[i] && disks[i].ro == ReadOnly(ro, DisksOf(id)[i])
    {
    }
  }

  lemma ChainTargetIff(g: Graph, ro: RoFlags, id: Identity, mounts: seq<Mount>, tree: set<Kname>, t: NodeState)
    ensures t in ChainTargets(InputsOf(g, ro, id, mounts, tree).chain) <==>
            t.node in ChainNames(g, id) && Clear(g, tree, mounts, t.node) && t.ro == ReadOnly(ro, t.node)
  {
    hide Clear, ForeignMounts;
    var chain := InputsOf(g, ro, id, mounts, tree).chain;
    InChainTargets(chain, t);
    NoForeignMountsIsClear(g, tree, mounts, t.node);
    forall i | 0 <= i < |ChainNames(g, id)|
      ensures chain[i] in chain && chain[i] == ChainNodeOf(g, ro, tree, mounts, ChainNames(g, id)[i])
    {
    }
  }

  lemma TargetIff(g: Graph, ro: RoFlags, id: Identity, mounts: seq<Mount>, tree: set<Kname>, t: NodeState)
    ensures t in Targets(InputsOf(g, ro, id, mounts, tree)) <==>
            ToFreeze(g, id, mounts, tree, t.node) && t.ro == ReadOnly(ro, t.node)
  {
    hide Clear, ForeignMounts, States, ChainNames;
    DiskTargetIff(g, ro, id, mounts, tree, t);
    ChainTargetIff(g, ro, id, mounts, tree, t);
    InStates(ro, g.Partitions(id.kernelName), t);
  }

  /** A node is set exactly when it is to be read-only, nothing stands against it, and it is not
      read-only yet. */
  lemma SetIff(g: Graph, ro: RoFlags, id: Identity, mounts: seq<Mount>, tree: set<Kname>, n: Kname)
    ensures n in NodesToSet(g, ro, id, mounts, tree) <==>
            ToFreeze(g, id, mounts, tree, n) && ReadOnly(ro, n) != Some(true)
  {
    InUnset(Targets(InputsOf(g, ro, id, mounts, tree)), n);
    TargetIff(g, ro, id, mounts, tree, NodeState(n, ReadOnly(ro, n)));
    forall t: NodeState | t.node == n
      ensures t in Targets(InputsOf(g, ro, id, mounts, tree)) <==>
              ToFreeze(g, id, mounts, tree, n) && t.ro == ReadOnly(ro, n)
    {
      TargetIff(g, ro, id, mounts, tree, t);
    }
  }

  // ---- Nothing mounted elsewhere is frozen ----

  /** No mount outside the source tree is on the node or on anything that depends on it. */
  ghost predicate Free(g: Graph, tree: set<Kname>, mounts: seq<Mount>, n: Kname) {
    forall m, k :: DependsOn(g, n, m) && m !in tree && k in mounts ==> !MountedFrom(g, m, k)
  }

  /** Something mounted outside the source tree depends on the node, behind the point where its walk is cut. */
  ghost predicate HiddenMount(g: Graph, tree: set<Kname>, mounts: seq<Mount>, n: Kname) {
    exists m, k :: m in Tree(g, n) - Walked(g, n) && m !in tree && k in mounts && MountedFrom(g, m, k)
  }

  lemma FreeIff(g: Graph, tree: set<Kname>, mounts: seq<Mount>, n: Kname)
    ensures Free(g, tree, mounts, n) <==> Clear(g, tree, mounts, n) && !HiddenMount(g, tree, mounts, n)
  {
    WalkedWithin(g, n);
    forall m
      ensures m in Tree(g, n) <==> DependsOn(g, n, m)
    {
      TreeIsDependsOn(g, n, m);
    }
    hide Walked, Tree, MountedFrom;
    forall m, k | DependsOn(g, n, m) && m !in tree && k in mounts && MountedFrom(g, m, k)
      ensures m in Walked(g, n) || HiddenMount(g, tree, mounts, n)
    {
      assert m !in Walked(g, n) ==> m in Tree(g, n) - Walked(g, n);
    }
  }

  lemma FreeDownward(g: Graph, tree: set<Kname>, mounts: seq<Mount>, n: Kname, p: Kname)
    requires Free(g, tree, mounts, n) && g.Depends(n, p)
    ensures Free(g, tree, mounts, p)
  {
    assert p in Tree(g, n) by {
      TreeClosed(g, n);
    }
    forall m | DependsOn(g, p, m)
      ensures DependsOn(g, n, m)
    {
      TreeTransitive(g, n, p);
      TreeIsDependsOn(g, p, m);
      TreeIsDependsOn(g, n, m);
    }
  }

  /** The nodes whose walks the decision looks at. */
  predicate LooksAt(g: Graph, id: Identity, d: Kname) {
    d == id.kernelName || d in DisksOf(id) || d in ChainNames(g, id)
  }

  /** A walk that is cut, looks clear, and has a foreign mount behind the cut. */
  ghost predicate Misled(g: Graph, id: Identity, mounts: seq<Mount>, tree: set<Kname>, d: Kname) {
    LooksAt(g, id, d) && Clear(g, tree, mounts, d) && HiddenMount(g, tree, mounts, d)
  }

  lemma ToFreezeIsFree(g: Graph, id: Identity, mounts: seq<Mount>, tree: set<Kname>, n: Kname)
    requires Walked(g, id.kernelName) <= tree && ToFreeze(g, id, mounts, tree, n)
    requires forall d :: !Misled(g, id, mounts, tree, d)
    ensures Free(g, tree, mounts, n)
  {
    assert Clear(g, tree, mounts, id.kernelName);
    hide Clear, HiddenMount, Free;
    FreeIff(g, tree, mounts, id.kernelName);
    assert !Misled(g, id, mounts, tree, id.kernelName);
    if OwnNode(g, id, n) {
      if n != id.kernelName {
        assert g.Depends(id.kernelName, n);
        FreeDownward(g, tree, mounts, id.kernelName, n);
      }
    } else if n in ChainNames(g, id) && Clear(g, tree, mounts, n) {
      assert !Misled(g, id, mounts, tree, n);
      FreeIff(g, tree, mounts, n);
    } else {
      var d :| d in DisksOf(id) && Clear(g, tree, mounts, d) && OnDisk(g, d, n);
      assert !Misled(g, id, mounts, tree, d);
      FreeIff(g, tree, mounts, d);
      if n != d {
        assert g.Depends(d, n);
        FreeDownward(g, tree, mounts, d, n);
      }
    }
  }

  /** Exactly when it is safe, for every graph: no node that may be set has a mount outside the source tree on
      anything that depends on it, if and only if neither the source nor a disk or chain node that looks clear
      has one behind the cut of its walk. */
  lemma FrozenSafeIff(g: Graph, id: Identity, mounts: seq<Mount>, tree: set<Kname>)
    requires Walked(g, id.kernelName) <= tree
    ensures (forall n :: ToFreeze(g, id, mounts, tree, n) ==> Free(g, tree, mounts, n)) <==>
            forall d :: !Misled(g, id, mounts, tree, d)
  {
    if forall d :: !Misled(g, id, mounts, tree, d) {
      forall n | ToFreeze(g, id, mounts, tree, n)
        ensures Free(g, tree, mounts, n)
      {
        ToFreezeIsFree(g, id, mounts, tree, n);
      }
    }
    forall d | LooksAt(g, id, d) && Clear(g, tree, mounts, d)
      ensures ToFreeze(g, id, mounts, tree, d)
      ensures Free(g, tree, mounts, d) <==> !HiddenMount(g, tree, mounts, d)
    {
      FreeIff(g, tree, mounts, d);
      assert d in DisksOf(id) ==> OnDisk(g, d, d);
    }
  }

  /** The closures the decision depends on are within the bound of their walks. */
  ghost predicate NoneCut(g: Graph, id: Identity) {
    forall d :: LooksAt(g, id, d) ==> |Tree(g, d)| <= DependentTree.MAX_TREE_NODES
  }

  lemma NoneHidden(g: Graph, tree: set<Kname>, mounts: seq<Mount>, d: Kname)
    requires |Tree(g, d)| <= DependentTree.MAX_TREE_NODES
    ensures !HiddenMount(g, tree, mounts, d)
  {
    ReturnsTreeIffWithinBound(g, d);
  }

  /** Safety over every graph whose walks are not cut, and every mount table: a node that is set read-only
      has no mount outside the source tree on itself or on anything that depends on it. */
  lemma NothingMountedElsewhereIsFrozen(g: Graph, ro: RoFlags, id: Identity, mounts: seq<Mount>, tree: set<Kname>,
                                        n: Kname)
    requires NoneCut(g, id) && Walked(g, id.kernelName) <= tree
    requires var d := DecisionOn(Auto, InputsOf(g, ro, id, mounts, tree)); d.Set? && n in d.nodes
    ensures forall m, k :: DependsOn(g, n, m) && m !in tree && k in mounts ==> !MountedFrom(g, m, k)
  {
    SetIff(g, ro, id, mounts, tree, n);
    forall d | LooksAt(g, id, d)
      ensures !HiddenMount(g, tree, mounts, d)
    {
      NoneHidden(g, tree, mounts, d);
    }
    ToFreezeIsFree(g, id, mounts, tree, n);
  }

  /** Otherwise it fails: a disk whose walk is cut in front of the only mounted node is set read-only under it. */
  lemma CutWalkFreezes(g: Graph, ro: RoFlags, id: Identity, k: Mount, tree: set<Kname>, disk: Kname, m: Kname)
    requires id.IsBlockDevice() && disk in DisksOf(id) && ReadOnly(ro, disk) != Some(true)
    requires Ends(g, disk) && m in Tree(g, disk) && m !in Walked(g, disk) && m !in tree
    requires forall x :: MountedFrom(g, x, k) <==> x == m
    ensures var d := DecisionOn(Auto, InputsOf(g, ro, id, [k], tree)); d.Set? && disk in d.nodes
    ensures DependsOn(g, disk, m) && !Free(g, tree, [k], disk)
  {
    TreeIsDependsOn(g, disk, m);
    OneMountClear(g, k, tree, disk, m);
    assert InputsOf(g, ro, id, [k], tree).isBlockDevice && OnDisk(g, disk, disk);
    hide Walked, Tree, MountedFrom, InputsOf, Clear, Free, OnDisk;
    SetIff(g, ro, id, [k], tree, disk);
  }

  lemma OneMountClear(g: Graph, k: Mount, tree: set<Kname>, disk: Kname, m: Kname)
    requires m in Tree(g, disk) && m !in Walked(g, disk) && m !in tree
    requires forall x :: MountedFrom(g, x, k) <==> x == m
    ensures Clear(g, tree, [k], disk) && !Free(g, tree, [k], disk)
  {
    hide Walked, Tree, MountedFrom;
    TreeIsDependsOn(g, disk, m);
    assert k in [k];
  }

  /** And a source whose own walk is cut in front of a mounted dependent is set read-only under it, also when
      there is no disk and no chain node to look at, as for a loop device. */
  lemma CutSourceFreezes(g: Graph, ro: RoFlags, id: Identity, mounts: seq<Mount>, tree: set<Kname>, m: Kname, k: Mount)
    requires id.IsBlockDevice() && ReadOnly(ro, id.kernelName) != Some(true)
    requires m in Tree(g, id.kernelName) && m !in tree && k in mounts && MountedFrom(g, m, k)
    ensures var d := DecisionOn(Auto, InputsOf(g, ro, id, mounts, tree)); d.Set? && id.kernelName in d.nodes
    ensures DependsOn(g, id.kernelName, m) && !Free(g, tree, mounts, id.kernelName)
    ensures id.kind == Loop ==> forall d :: LooksAt(g, id, d) ==> d == id.kernelName
  {
    TreeIsDependsOn(g, id.kernelName, m);
    assert InputsOf(g, ro, id, mounts, tree).isBlockDevice;
    hide Walked, Tree, MountedFrom, InputsOf;
    SetIff(g, ro, id, mounts, tree, id.kernelName);
  }

  /** A device that is the physical volume of all these logical volumes. */
  function VolumesOn(base: Kname, volumes: seq<Kname>): Graph {
    var volume := BlockDev(None, [], [], [base], None, None, None, false, None, None, None);
    var device := BlockDev(None, [], volumes, [], None, None, None, false, None, None, None);
    Graph((map v | v in volumes :: volume)[base := device], [])
  }

  predicate ManyVolumes(base: Kname, volumes: seq<Kname>) {
    |set v | v in volumes| > DependentTree.MAX_TREE_NODES && base !in volumes
  }

  /** The walk of such a device ends without one of its volumes, and even without another one than `source`. */
  lemma VolumeBehindCut(base: Kname, volumes: seq<Kname>, source: Kname) returns (m: Kname)
    requires ManyVolumes(base, volumes)
    ensures Ends(VolumesOn(base, volumes), base) && m in volumes && m != source
    ensures m in Tree(VolumesOn(base, volumes), base) && m !in Walked(VolumesOn(base, volumes), base)
  {
    var g, vs := VolumesOn(base, volumes), set v | v in volumes;
    assert g.Partitions(base) + g.Holders(base) == volumes;
    WithoutLoopsCut(g, base);
    ManyDependents(g, base);
    WalkedWithin(g, base);
    TreeClosed(g, base);
    assert forall v :: v in vs ==> g.Depends(base, v);
    hide Walked, Tree, Ends;
    var others := Walked(g, base) - {base} + {source};
    if vs <= others {
      SubsetSize(vs, others);
    }
    m :| m in vs && m !in others;
  }

  function MountOf(m: Kname): Mount {
    Mount(DevNum(0, 0), "/dev/" + m, "/mnt")
  }

  lemma MountOfPath(base: Kname, volumes: seq<Kname>, m: Kname, x: Kname)
    ensures MountedFrom(VolumesOn(base, volumes), x, MountOf(m)) <==> x == m
  {
    assert ("/dev/" + x)[5..] == x && ("/dev/" + m)[5..] == m;
  }

  lemma VolumeTree(base: Kname, volumes: seq<Kname>, source: Kname)
    requires source in volumes && base !in volumes
    ensures Tree(VolumesOn(base, volumes), source) == {source}
  {
    TreeWithin(VolumesOn(base, volumes), source, {source});
    TreeClosed(VolumesOn(base, volumes), source);
  }

  /** A disk with more volumes than MAX_TREE_NODES, of which `source` is one and another one is mounted: the
      disk is set read-only. */
  lemma VolumeDiskFreezes(volumes: seq<Kname>, source: Kname, ro: RoFlags) returns (m: Kname)
    requires ManyVolumes("sdb", volumes) && source in volumes && ReadOnly(ro, "sdb") != Some(true)
    ensures var g, id := VolumesOn("sdb", volumes), Identity(source, DeviceMapper, ["sdb"]);
            var d := DecisionOn(Auto, InputsOf(g, ro, id, [MountOf(m)], {source}));
            && Tree(g, source) == {source} && Ends(g, "sdb") && MountedFrom(g, m, MountOf(m))
            && d.Set? && "sdb" in d.nodes && DependsOn(g, "sdb", m) && !Free(g, {source}, [MountOf(m)], "sdb")
  {
    var g, id := VolumesOn("sdb", volumes), Identity(source, DeviceMapper, ["sdb"]);
    VolumeTree("sdb", volumes, source);
    m := VolumeBehindCut("sdb", volumes, source);
    hide MountedFrom, VolumesOn, Tree, Walked, InputsOf, MountOf;
    forall x
      ensures MountedFrom(g, x, MountOf(m)) <==> x == m
    {
      MountOfPath("sdb", volumes, m, x);
    }
    CutWalkFreezes(g, ro, id, MountOf(m), {source}, "sdb", m);
  }

  /** A loop device as the source, with as many volumes on it, one of them mounted behind the cut. */
  lemma VolumeLoopFreezes(volumes: seq<Kname>, ro: RoFlags) returns (m: Kname)
    requires ManyVolumes("loop0", volumes) && ReadOnly(ro, "loop0") != Some(true)
    ensures var g, id := VolumesOn("loop0", volumes), Identity("loop0", Loop, []);
            var tree := Walked(g, "loop0");
            var d := DecisionOn(Auto, InputsOf(g, ro, id, [MountOf(m)], tree));
            && Ends(g, "loop0") && m in volumes && MountedFrom(g, m, MountOf(m))
            && d.Set? && "loop0" in d.nodes && !Free(g, tree, [MountOf(m)], "loop0")
  {
    var g, id := VolumesOn("loop0", volumes), Identity("loop0", Loop, []);
    m := VolumeBehindCut("loop0", volumes, "loop0");
    MountOfPath("loop0", volumes, m, m);
    hide MountedFrom, VolumesOn, Tree, Walked, InputsOf, MountOf;
    assert MountOf(m) in [MountOf(m)];
    CutSourceFreezes(g, ro, id, [MountOf(m)], Walked(g, "loop0"), m, MountOf(m));
  }

  /** Whatever is mounted on a frozen node or on anything that depends on it is shown to hold the source's
      data, if and only if none of it is a node that may or may not be the source's. A caller finds such
      mounts with `maybe_source_mounts`, as the unmount run does before it starts. */
  lemma FrozenMountsAreShown(g: Graph, ro: RoFlags, id: Identity, mounts: seq<Mount>, tree: set<Kname>, n: Kname)
    requires NoneCut(g, id) && Walked(g, id.kernelName) <= tree
    requires forall x :: x in tree ==> InSourceTree(g, id.kernelName, x)
    requires var d := DecisionOn(Auto, InputsOf(g, ro, id, mounts, tree)); d.Set? && n in d.nodes
    ensures (forall m, k :: DependsOn(g, n, m) && k in mounts && MountedFrom(g, m, k) ==>
                              ShownNode(g, id.kernelName, m))
       <==> (forall m, k :: DependsOn(g, n, m) && k in mounts && MountedFrom(g, m, k) ==>
                              !MaybeByLoop(g, id.kernelName, m) || ShownNode(g, id.kernelName, m))
  {
    NothingMountedElsewhereIsFrozen(g, ro, id, mounts, tree, n);
    hide ShownNode, MaybeByLoop, DependsOn, MountedFrom;
  }

  /** The nodes the decision concerns. */
  predicate Concerned(g: Graph, id: Identity, n: Kname) {
    || OwnNode(g, id, n)
    || n in ChainNames(g, id)
    || exists d :: d in DisksOf(id) && OnDisk(g, d, n)
  }

  /** `AlreadyReadOnly` says that every node that may be set is read-only. */
  lemma AlreadyReadOnlyIff(g: Graph, ro: RoFlags, id: Identity, mounts: seq<Mount>, tree: set<Kname>)
    requires id.IsBlockDevice()
    ensures DecisionOn(Auto, InputsOf(g, ro, id, mounts, tree)) == AlreadyReadOnly <==>
            forall n :: ToFreeze(g, id, mounts, tree, n) ==> ReadOnly(ro, n) == Some(true)
  {
    hide ToFreeze;
    var nodes := NodesToSet(g, ro, id, mounts, tree);
    forall n
      ensures n in nodes <==> ToFreeze(g, id, mounts, tree, n) && ReadOnly(ro, n) != Some(true)
    {
      SetIff(g, ro, id, mounts, tree, n);
    }
    if nodes != [] {
      assert nodes[0] in nodes;
    }
  }

  /** Only with no mount elsewhere does it say so of every node the decision concerns. */
  lemma AlreadyReadOnlyEverywhere(g: Graph, ro: RoFlags, id: Identity, mounts: seq<Mount>, tree: set<Kname>)
    requires id.IsBlockDevice()
    requires forall n :: n in DisksOf(id) || n in ChainNames(g, id) ==> Clear(g, tree, mounts, n)
    ensures DecisionOn(Auto, InputsOf(g, ro, id, mounts, tree)) == AlreadyReadOnly <==>
            forall n :: Concerned(g, id, n) ==> ReadOnly(ro, n) == Some(true)
  {
    AlreadyReadOnlyIff(g, ro, id, mounts, tree);
    forall n
      ensures ToFreeze(g, id, mounts, tree, n) <==> Concerned(g, id, n)
    {
    }
  }

  /** The node is of a disk, or is a chain node, that is left alone because of mounts elsewhere. */
  ghost predicate LeftAlone(g: Graph, id: Identity, mounts: seq<Mount>, tree: set<Kname>, n: Kname) {
    || (n in ChainNames(g, id) && !Clear(g, tree, mounts, n))
    || exists d :: d in DisksOf(id) && !Clear(g, tree, mounts, d) && OnDisk(g, d, n)
  }

  /** The answer names no node. It is right about every node the decision concerns exactly when those left
      alone because of mounts elsewhere are read-only. */
  lemma ReadOnlyEverywhereIff(g: Graph, ro: RoFlags, id: Identity, mounts: seq<Mount>, tree: set<Kname>)
    requires id.IsBlockDevice() && DecisionOn(Auto, InputsOf(g, ro, id, mounts, tree)) == AlreadyReadOnly
    ensures (forall n :: Concerned(g, id, n) ==> ReadOnly(ro, n) == Some(true)) <==>
            forall n :: LeftAlone(g, id, mounts, tree, n) ==> ReadOnly(ro, n) == Some(true)
  {
    AlreadyReadOnlyIff(g, ro, id, mounts, tree);
    hide Clear;
    forall n
      ensures Concerned(g, id, n) <==> ToFreeze(g, id, mounts, tree, n) || LeftAlone(g, id, mounts, tree, n)
    {
    }
  }

  /** Deciding again on the same mounts once the nodes are read-only leaves nothing to set. */
  lemma SecondDecisionIsAlreadyReadOnly(g: Graph, ro: RoFlags, after: RoFlags, id: Identity, mounts: seq<Mount>,
                                        tree: set<Kname>)
    requires var d := DecisionOn(Auto, InputsOf(g, ro, id, mounts, tree));
             d.Set? && forall n :: n in d.nodes ==> ReadOnly(after, n) == Some(true)
    requires forall n :: ReadOnly(ro, n) == Some(true) ==> ReadOnly(after, n) == Some(true)
    ensures DecisionOn(Auto, InputsOf(g, after, id, mounts, tree)) == AlreadyReadOnly
  {
    var nodes := NodesToSet(g, after, id, mounts, tree);
    if nodes != [] {
      SetIff(g, after, id, mounts, tree, nodes[0]);
      SetIff(g, ro, id, mounts, tree, nodes[0]);
    }
  }
}
