/** What the notes of a read-only decision say, and the order in which nodes are set. */
module FreezeNotes {
  import opened Wrappers
  import opened BlockGraph
  import opened LowerPlaces
  import opened SlaveChain
  import opened WriteProtect
  import opened FreezeLaws
  import opened DependentTree

  // ---- The nodes the notes name ----

  predicate NamedIn(notes: seq<Note>, n: Kname) {
    exists x :: x in notes && ((x.DiskLeftWritable? && n in x.writable) || (x.NodeLeftWritable? && x.node == n))
  }

  /** A node on which, or on the disk of which, a mount elsewhere stands against the flag; partitions that
      carry the source are not left alone with their disk. */
  ghost predicate LeftWritable(g: Graph, id: Identity, mounts: seq<Mount>, tree: set<Kname>, n: Kname) {
    || (n in ChainNames(g, id) && !Clear(g, tree, mounts, n))
    || exists d :: d in DisksOf(id) && !Clear(g, tree, mounts, d) && LeftWith(g, id, d, n)
  }

  predicate LeftWith(g: Graph, id: Identity, d: Kname, n: Kname) {
    n == d || (n in g.Partitions(d) && n != id.kernelName && n !in ChainNames(g, id))
  }

  lemma InChainIff(g: Graph, ro: RoFlags, id: Identity, mounts: seq<Mount>, tree: set<Kname>, n: Kname)
    ensures InChain(InputsOf(g, ro, id, mounts, tree), n) <==> n == id.kernelName || n in ChainNames(g, id)
  {
    var chain := InputsOf(g, ro, id, mounts, tree).chain;
    forall i | 0 <= i < |ChainNames(g, id)|
      ensures chain[i] in chain && chain[i].node == ChainNames(g, id)[i]
    {
    }
  }

  ghost function DiskNote(g: Graph, inputs: Inputs, ro: RoFlags, mounts: seq<Mount>, tree: set<Kname>, d: Kname): Note {
    DiskLeftWritable(d, [d] + OutsideChain(inputs, States(ro, g.Partitions(d))), ForeignMounts(g, tree, mounts, d))
  }

  ghost function ChainNote(g: Graph, mounts: seq<Mount>, tree: set<Kname>, n: Kname): Note {
    NodeLeftWritable(n, ForeignMounts(g, tree, mounts, n))
  }

  lemma DiskNoteIff(g: Graph, ro: RoFlags, id: Identity, mounts: seq<Mount>, tree: set<Kname>, x: Note)
    ensures var inputs := InputsOf(g, ro, id, mounts, tree);
            x in DiskNotes(inputs, inputs.disks) <==>
            exists d :: d in DisksOf(id) && !Clear(g, tree, mounts, d) && x == DiskNote(g, inputs, ro, mounts, tree, d)
  {
    var inputs := InputsOf(g, ro, id, mounts, tree);
    InDiskNotes(inputs, inputs.disks, x);
    hide Clear, ForeignMounts, States, OutsideChain;
    forall i | 0 <= i < |DisksOf(id)|
      ensures inputs.disks[i] in inputs.disks && inputs.disks[i] == DiskStateOf(g, ro, tree, mounts, DisksOf(id)[i])
      ensures inputs.disks[i].foreignMounts == {} <==> Clear(g, tree, mounts, DisksOf(id)[i])
    {
      NoForeignMountsIsClear(g, tree, mounts, DisksOf(id)[i]);
    }
  }

  lemma ChainNoteIff(g: Graph, ro: RoFlags, id: Identity, mounts: seq<Mount>, tree: set<Kname>, x: Note)
    ensures x in ChainNotes(InputsOf(g, ro, id, mounts, tree).chain) <==>
            exists n :: n in ChainNames(g, id) && !Clear(g, tree, mounts, n) && x == ChainNote(g, mounts, tree, n)
  {
    var chain, names := InputsOf(g, ro, id, mounts, tree).chain, ChainNames(g, id);
    InChainNotes(chain, x);
    hide Clear, ForeignMounts, ChainNames;
    forall i | 0 <= i < |names|
      ensures chain[i] in chain && chain[i] == ChainNodeOf(g, ro, tree, mounts, names[i])
      ensures chain[i].foreignMounts == {} <==> Clear(g, tree, mounts, names[i])
    {
      NoForeignMountsIsClear(g, tree, mounts, names[i]);
    }
  }

  lemma NamedByDisk(g: Graph, ro: RoFlags, id: Identity, mounts: seq<Mount>, tree: set<Kname>, d: Kname, n: Kname)
    ensures var inputs := InputsOf(g, ro, id, mounts, tree);
            n in DiskNote(g, inputs, ro, mounts, tree, d).writable <==> LeftWith(g, id, d, n)
  {
    var inputs := InputsOf(g, ro, id, mounts, tree);
    InChainIff(g, ro, id, mounts, tree, n);
    InOutsideChain(inputs, States(ro, g.Partitions(d)), n);
    InStates(ro, g.Partitions(d), NodeState(n, ReadOnly(ro, n)));
    forall p | p in States(ro, g.Partitions(d))
      ensures p.node in g.Partitions(d)
    {
      InStates(ro, g.Partitions(d), p);
    }
    hide InputsOf, OutsideChain, States, ChainNames, InChain, ForeignMounts;
  }

  lemma NamedByDisks(g: Graph, ro: RoFlags, id: Identity, mounts: seq<Mount>, tree: set<Kname>, n: Kname)
    ensures var inputs := InputsOf(g, ro, id, mounts, tree);
            NamedIn(DiskNotes(inputs, inputs.disks), n) <==>
            exists d :: d in DisksOf(id) && !Clear(g, tree, mounts, d) && LeftWith(g, id, d, n)
  {
    var inputs := InputsOf(g, ro, id, mounts, tree);
    var notes := DiskNotes(inputs, inputs.disks);
    forall x
      ensures x in notes <==> exists d :: d in DisksOf(id) && !Clear(g, tree, mounts, d)
                                          && x == DiskNote(g, inputs, ro, mounts, tree, d)
    {
      DiskNoteIff(g, ro, id, mounts, tree, x);
    }
    forall d
      ensures n in DiskNote(g, inputs, ro, mounts, tree, d).writable <==> LeftWith(g, id, d, n)
    {
      NamedByDisk(g, ro, id, mounts, tree, d, n);
    }
    hide InputsOf, DiskNotes, Clear, ForeignMounts, LeftWith, OutsideChain, States, DisksOf;
    if d :| d in DisksOf(id) && !Clear(g, tree, mounts, d) && LeftWith(g, id, d, n) {
      assert DiskNote(g, inputs, ro, mounts, tree, d) in notes;
    }
  }

  lemma NamedByChain(g: Graph, ro: RoFlags, id: Identity, mounts: seq<Mount>, tree: set<Kname>, n: Kname)
    ensures NamedIn(ChainNotes(InputsOf(g, ro, id, mounts, tree).chain), n) <==>
            n in ChainNames(g, id) && !Clear(g, tree, mounts, n)
  {
    var notes := ChainNotes(InputsOf(g, ro, id, mounts, tree).chain);
    forall x
      ensures x in notes <==> exists c :: c in ChainNames(g, id) && !Clear(g, tree, mounts, c)
                                          && x == ChainNote(g, mounts, tree, c)
    {
      ChainNoteIff(g, ro, id, mounts, tree, x);
    }
    hide InputsOf, ChainNotes, Clear, ForeignMounts, ChainNames;
    if n in ChainNames(g, id) && !Clear(g, tree, mounts, n) {
      assert ChainNote(g, mounts, tree, n) in notes;
    }
  }

  lemma NamedInEither(a: seq<Note>, b: seq<Note>, n: Kname)
    ensures NamedIn(a + b, n) <==> NamedIn(a, n) || NamedIn(b, n)
  {
  }

  /** The notes name exactly the nodes that are left writable because of mounts elsewhere. */
  lemma NamedIff(g: Graph, ro: RoFlags, id: Identity, mounts: seq<Mount>, tree: set<Kname>, n: Kname)
    requires DecisionOn(Auto, InputsOf(g, ro, id, mounts, tree)).Set?
    ensures NamedIn(DecisionOn(Auto, InputsOf(g, ro, id, mounts, tree)).notes, n)
       <==> LeftWritable(g, id, mounts, tree, n)
  {
    var inputs := InputsOf(g, ro, id, mounts, tree);
    NamedInEither(DiskNotes(inputs, inputs.disks), ChainNotes(inputs.chain), n);
    NamedByDisks(g, ro, id, mounts, tree, n);
    NamedByChain(g, ro, id, mounts, tree, n);
    hide InputsOf, DiskNotes, ChainNotes, Clear, ChainNames, LeftWith, NamedIn;
  }

  /** Nothing is passed over: a node the decision concerns is read-only already, set, or named in a note. */
  lemma EveryNodeSetOrNamed(g: Graph, ro: RoFlags, id: Identity, mounts: seq<Mount>, tree: set<Kname>, n: Kname)
    requires var d := DecisionOn(Auto, InputsOf(g, ro, id, mounts, tree)); d.Set?
    requires Concerned(g, id, n)
    ensures var d := DecisionOn(Auto, InputsOf(g, ro, id, mounts, tree));
            ReadOnly(ro, n) == Some(true) || n in d.nodes || NamedIn(d.notes, n)
  {
    SetIff(g, ro, id, mounts, tree, n);
    NamedIff(g, ro, id, mounts, tree, n);
    hide InputsOf, Clear, ChainNames, NamedIn;
    if !ToFreeze(g, id, mounts, tree, n) && n !in ChainNames(g, id) {
      var d :| d in DisksOf(id) && FreezeLaws.OnDisk(g, d, n);
      assert LeftWith(g, id, d, n);
    }
  }

  /** A mount at this point, outside the source tree, of something the walk from the node finds. */
  ghost predicate MountedElsewhere(g: Graph, tree: set<Kname>, mounts: seq<Mount>, n: Kname, point: string) {
    exists m, k :: m in Walked(g, n) && m !in tree && k in mounts && MountedFrom(g, m, k) && k.point == point
  }

  /** The paths a node is mounted from. */
  function PathsOf(g: Graph, n: Kname): set<string> {
    {"/dev/" + n} + match g.DmName(n) case Some(name) => {"/dev/mapper/" + name} case None => {}
  }

  /** A mount is of a node by its number, or, when the filesystem has a number of its own, by either path. */
  lemma MountedFromIff(g: Graph, n: Kname, m: Mount)
    ensures MountedFrom(g, n, m) <==> g.DevOf(n) == Some(m.dev) || m.source in PathsOf(g, n)
  {
  }

  lemma ForeignMountsAre(g: Graph, tree: set<Kname>, mounts: seq<Mount>, n: Kname, point: string)
    ensures point in ForeignMounts(g, tree, mounts, n) <==> MountedElsewhere(g, tree, mounts, n, point)
  {
    hide Walked;
    forall m, k | m in Walked(g, n) && m !in tree && k in mounts && MountedFrom(g, m, k)
      ensures k.point in ForeignMounts(g, tree, mounts, n)
    {
      assert m in Walked(g, n) - tree;
    }
  }

  /** Each note is about a disk or a chain node, and lists exactly the mount points elsewhere that stand
      against its flag. */
  lemma NotesNameMounts(g: Graph, ro: RoFlags, id: Identity, mounts: seq<Mount>, tree: set<Kname>, x: Note,
                        point: string)
    requires var d := DecisionOn(Auto, InputsOf(g, ro, id, mounts, tree)); d.Set? && x in d.notes
    ensures || (x.DiskLeftWritable? && x.disk in DisksOf(id)
                && (point in x.mounts <==> MountedElsewhere(g, tree, mounts, x.disk, point)))
            || (x.NodeLeftWritable? && x.node in ChainNames(g, id)
                && (point in x.mounts <==> MountedElsewhere(g, tree, mounts, x.node, point)))
  {
    DiskNoteIff(g, ro, id, mounts, tree, x);
    ChainNoteIff(g, ro, id, mounts, tree, x);
    hide InputsOf, Clear, ForeignMounts, MountedElsewhere, ChainNames, DiskNotes, ChainNotes;
    if x.DiskLeftWritable? {
      ForeignMountsAre(g, tree, mounts, x.disk, point);
    } else if x.NodeLeftWritable? {
      ForeignMountsAre(g, tree, mounts, x.node, point);
    }
  }

  // ---- The order of the nodes ----

  predicate ComesBefore(s: seq<Kname>, a: Kname, b: Kname) {
    exists p, q :: 0 <= p < q < |s| && s[p] == a && s[q] == b
  }

  lemma {:induction false} UnsetPrefix(xs: seq<NodeState>, ys: seq<NodeState>)
    ensures Unset(xs) <= Unset(xs + ys)
  {
    if ys == [] {
      assert xs + ys == xs;
    } else {
      UnsetPrefix(xs, ys[..|ys| - 1]);
      assert (xs + ys)[..|xs + ys| - 1] == xs + ys[..|ys| - 1];
    }
  }

  lemma UnsetBefore(xs: seq<NodeState>, ys: seq<NodeState>, a: Kname, b: Kname)
    requires a in Unset(xs) && b !in Unset(xs) && b in Unset(xs + ys)
    ensures ComesBefore(Unset(xs + ys), a, b)
  {
    UnsetPrefix(xs, ys);
    var all := Unset(xs + ys);
    var p :| 0 <= p < |Unset(xs)| && Unset(xs)[p] == a;
    var q :| 0 <= q < |all| && all[q] == b;
    assert all[..|Unset(xs)|] == Unset(xs);
    assert all[p] == a && q >= |Unset(xs)|;
  }

  lemma {:induction false} FarEndFirst(chain: seq<ChainNode>, j: nat)
    requires j <= |chain|
    ensures ChainTargets(chain[j..]) <= ChainTargets(chain)
  {
    if j > 0 {
      FarEndFirst(chain[1..], j - 1);
      assert chain[1..][j - 1..] == chain[j..];
    } else {
      assert chain[0..] == chain;
    }
  }

  lemma FarEndThenRest(inputs: Inputs, j: nat) returns (rest: seq<NodeState>)
    requires j <= |inputs.chain|
    ensures Targets(inputs) == DiskTargets(inputs.disks) + ChainTargets(inputs.chain[j..]) + rest
  {
    FarEndFirst(inputs.chain, j);
    hide DiskTargets, ChainTargets;
    var first := DiskTargets(inputs.disks) + ChainTargets(inputs.chain[j..]);
    rest := Targets(inputs)[|first|..];
    assert Targets(inputs) == first + rest;
  }

  lemma {:induction false} WithoutDistinct(nodes: seq<Kname>, drop: seq<Kname>)
    requires Distinct(nodes)
    ensures Distinct(Without(nodes, drop))
    ensures forall n :: n in Without(nodes, drop) <==> n in nodes && n !in drop
  {
    if nodes != [] {
      var rest := nodes[1..];
      assert nodes == [nodes[0]] + rest;
      assert forall i, j :: 0 <= i < j < |rest| ==> rest[i] == nodes[i + 1] && rest[j] == nodes[j + 1];
      WithoutDistinct(rest, drop);
      assert nodes[0] !in rest;
    }
  }

  /** The chain: the listed nodes the source is stacked on that are no disks of it, each once; none for a loop
      device. */
  lemma ChainIs(g: Graph, id: Identity, n: Kname)
    ensures Distinct(ChainNames(g, id))
    ensures n in ChainNames(g, id) <==>
            id.kind != Loop && n in LowerNodes(g, id.kernelName) && n !in DisksOf(id)
  {
    LowerNodesExact(g, id.kernelName);
    WithoutDistinct(LowerNodes(g, id.kernelName), DisksOf(id));
  }

  /** The disks whose flag is looked at: of a disk, or of a source of unknown kind, itself; of a partition or a
      stacked device the disks it is stored on; of a loop device or a regular file none. */
  lemma DisksAre(id: Identity, d: Kname)
    ensures d in DisksOf(id) <==>
            || (id.kind in {Disk, SourceKind.Other} && d == id.kernelName)
            || (id.kind in {Partition, DeviceMapper, Md} && d in id.parentDisks)
  {
  }

  lemma ChainSuffix(g: Graph, ro: RoFlags, id: Identity, mounts: seq<Mount>, tree: set<Kname>, j: nat, n: Kname)
    requires j <= |ChainNames(g, id)|
    ensures var inputs := InputsOf(g, ro, id, mounts, tree);
            n in Unset(DiskTargets(inputs.disks) + ChainTargets(inputs.chain[j..])) <==>
            ReadOnly(ro, n) != Some(true)
            && ((exists d :: d in DisksOf(id) && Clear(g, tree, mounts, d) && FreezeLaws.OnDisk(g, d, n))
                || (n in ChainNames(g, id)[j..] && Clear(g, tree, mounts, n)))
  {
    var inputs, names := InputsOf(g, ro, id, mounts, tree), ChainNames(g, id);
    var ts, chain := DiskTargets(inputs.disks) + ChainTargets(inputs.chain[j..]), inputs.chain;
    InUnset(ts, n);
    forall t
      ensures t in ChainTargets(chain[j..]) <==>
              t.node in names[j..] && Clear(g, tree, mounts, t.node) && t.ro == ReadOnly(ro, t.node)
    {
      SuffixTargetIff(g, ro, id, mounts, tree, j, t);
    }
    hide InputsOf, DiskTargets, ChainTargets, Unset, Clear, ChainNames;
    forall t
      ensures t in DiskTargets(inputs.disks) <==>
              t.ro == ReadOnly(ro, t.node)
              && exists d :: d in DisksOf(id) && Clear(g, tree, mounts, d) && FreezeLaws.OnDisk(g, d, t.node)
    {
      DiskTargetIff(g, ro, id, mounts, tree, t);
    }
    var t := NodeState(n, ReadOnly(ro, n));
    assert t in ts <==> t in DiskTargets(inputs.disks) || t in ChainTargets(chain[j..]);
  }

  lemma SuffixTargetIff(g: Graph, ro: RoFlags, id: Identity, mounts: seq<Mount>, tree: set<Kname>, j: nat, t: NodeState)
    requires j <= |ChainNames(g, id)|
    ensures t in ChainTargets(InputsOf(g, ro, id, mounts, tree).chain[j..]) <==>
            t.node in ChainNames(g, id)[j..] && Clear(g, tree, mounts, t.node) && t.ro == ReadOnly(ro, t.node)
  {
    hide Clear, ForeignMounts, ChainNames;
    var chain, names := InputsOf(g, ro, id, mounts, tree).chain[j..], ChainNames(g, id)[j..];
    InChainTargets(chain, t);
    NoForeignMountsIsClear(g, tree, mounts, t.node);
    forall i | 0 <= i < |names|
      ensures chain[i] in chain && chain[i] == ChainNodeOf(g, ro, tree, mounts, names[i])
    {
    }
  }

  /** Bottom-up: of two chain nodes that are set, the one farther from the source is set first, unless the
      nearer one is set already together with a disk. */
  lemma BottomUp(g: Graph, ro: RoFlags, id: Identity, mounts: seq<Mount>, tree: set<Kname>, i: nat, j: nat)
    requires i < j < |ChainNames(g, id)|
    requires var near, far := ChainNames(g, id)[i], ChainNames(g, id)[j];
             && ReadOnly(ro, near) != Some(true) && ReadOnly(ro, far) != Some(true)
             && Clear(g, tree, mounts, near) && Clear(g, tree, mounts, far)
             && forall d :: d in DisksOf(id) && Clear(g, tree, mounts, d) ==> !FreezeLaws.OnDisk(g, d, near)
    ensures ComesBefore(NodesToSet(g, ro, id, mounts, tree), ChainNames(g, id)[j], ChainNames(g, id)[i])
  {
    var names, inputs := ChainNames(g, id), InputsOf(g, ro, id, mounts, tree);
    var near, far := names[i], names[j];
    ChainIs(g, id, near);
    assert near !in names[j..];
    assert far in names[j..] by {
      assert names[j..][0] == far;
    }
    ChainSuffix(g, ro, id, mounts, tree, j, near);
    ChainSuffix(g, ro, id, mounts, tree, j, far);
    SetIff(g, ro, id, mounts, tree, near);
    var first := DiskTargets(inputs.disks) + ChainTargets(inputs.chain[j..]);
    var rest := FarEndThenRest(inputs, j);
    hide ChainNames, Clear, Unset, DiskTargets, ChainTargets, InputsOf, Targets, FreezeLaws.OnDisk, ToFreeze;
    UnsetBefore(first, rest, far, near);
  }
}
