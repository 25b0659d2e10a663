/** Which nodes may be set read-only, and the enforcement that re-checks them. */
module WriteProtect {
  import opened Wrappers
  import opened BlockGraph
  import opened SlaveChain
  import opened SourceNodes
  import DependentTree

  /** The block layer's read-only flags; a node without an entry could not be read. */
  type RoFlags = map<Kname, bool>

  function ReadOnly(ro: RoFlags, n: Kname): Option<bool> {
    if n in ro then Some(ro[n]) else None
  }

  datatype Mount = Mount(dev: DevNum, source: string, point: string)

  datatype SourceKind = Disk | Partition | DeviceMapper | Md | Loop | RegularFile | Other

  /** `parentDisks`: the kernel names of the disks the source is stored on. */
  datatype Identity = Identity(kernelName: Kname, kind: SourceKind, parentDisks: seq<Kname>) {
    predicate IsBlockDevice() {
      kind != RegularFile
    }
  }

  datatype Policy = Auto | Off

  datatype NodeState = NodeState(node: Kname, ro: Option<bool>)

  datatype DiskState = DiskState(node: Kname, ro: Option<bool>, partitions: seq<NodeState>, foreignMounts: set<string>)

  datatype ChainNode = ChainNode(node: Kname, ro: Option<bool>, foreignMounts: set<string>)

  datatype Inputs = Inputs(
    isBlockDevice: bool,
    source: Kname,
    sourceRo: Option<bool>,
    sourcePartitions: seq<NodeState>,
    chain: seq<ChainNode>,
    disks: seq<DiskState>)

  datatype Note =
    | DiskLeftWritable(disk: Kname, writable: seq<Kname>, mounts: set<string>)
    | NodeLeftWritable(node: Kname, mounts: set<string>)
    | PolicyOff
    | NotABlockDevice
    | WasAlreadyReadOnly
    | FlagStaysOn(nodes: seq<Kname>)

  datatype Decision =
    | RecordOnly(reason: Note)
    | AlreadyReadOnly
    | Set(nodes: seq<Kname>, notes: seq<Note>)

  // ---- Mounts of a set of nodes ----

  /** The mount is of this node, by device number or by the path it was mounted from. */
  predicate MountedFrom(g: Graph, n: Kname, m: Mount) {
    || g.DevOf(n) == Some(m.dev)
    || m.source == "/dev/" + n
    || (g.DmName(n).Some? && m.source == "/dev/mapper/" + g.DmName(n).value)
  }

  /** Mount points of the nodes (the program sorts them and drops repetitions). */
  function MountsOf(g: Graph, nodes: set<Kname>, mounts: seq<Mount>): set<string> {
    set m | m in mounts && (exists n :: n in nodes && MountedFrom(g, n, m)) :: m.point
  }

  // ---- The inputs of the decision ----

  /** Disks the decision may set: writes to them could reach the source. None for a loop device. */
  function DisksOf(id: Identity): seq<Kname> {
    match id.kind
    case Disk => [id.kernelName]
    case Other => [id.kernelName]
    case RegularFile => []
    case Loop => []
    case _ => id.parentDisks
  }

  function States(ro: RoFlags, nodes: seq<Kname>): seq<NodeState> {
    seq(|nodes|, i requires 0 <= i < |nodes| => NodeState(nodes[i], ReadOnly(ro, nodes[i])))
  }

  /** Mounts of what the walk finds to depend on a node but is not in the source tree. */
  ghost function ForeignMounts(g: Graph, tree: set<Kname>, mounts: seq<Mount>, n: Kname): set<string> {
    MountsOf(g, DependentTree.Walked(g, n) - tree, mounts)
  }

  ghost function DiskStateOf(g: Graph, ro: RoFlags, tree: set<Kname>, mounts: seq<Mount>, disk: Kname): DiskState {
    DiskState(disk, ReadOnly(ro, disk), States(ro, g.Partitions(disk)), ForeignMounts(g, tree, mounts, disk))
  }

  ghost function ChainNodeOf(g: Graph, ro: RoFlags, tree: set<Kname>, mounts: seq<Mount>, n: Kname): ChainNode {
    ChainNode(n, ReadOnly(ro, n), ForeignMounts(g, tree, mounts, n))
  }

  function Without(nodes: seq<Kname>, drop: seq<Kname>): seq<Kname> {
    if nodes == [] then []
    else if nodes[0] in drop then Without(nodes[1..], drop)
    else [nodes[0]] + Without(nodes[1..], drop)
  }

  function ChainNames(g: Graph, id: Identity): seq<Kname> {
    if id.kind == Loop then [] else Without(LowerNodes(g, id.kernelName), DisksOf(id))
  }

  /** What the decision is taken from, given the source tree. */
  ghost function InputsOf(g: Graph, ro: RoFlags, id: Identity, mounts: seq<Mount>, tree: set<Kname>): Inputs {
    var disks, chain := DisksOf(id), ChainNames(g, id);
    Inputs(
      id.IsBlockDevice(),
      id.kernelName,
      ReadOnly(ro, id.kernelName),
      if id.kernelName in disks then [] else States(ro, g.Partitions(id.kernelName)),
      seq(|chain|, i requires 0 <= i < |chain| => ChainNodeOf(g, ro, tree, mounts, chain[i])),
      seq(|disks|, i requires 0 <= i < |disks| => DiskStateOf(g, ro, tree, mounts, disks[i])))
  }

  method DiskStates(g: Graph, ro: RoFlags, mounts: seq<Mount>, tree: set<Kname>, names: seq<Kname>)
    returns (disks: seq<DiskState>)
    requires forall n :: n in names ==> DependentTree.Ends(g, n)
    ensures |disks| == |names|
    ensures forall j :: 0 <= j < |names| ==> disks[j] == DiskStateOf(g, ro, tree, mounts, names[j])
  {
    disks := [];
    for i := 0 to |names|
      invariant |disks| == i
      invariant forall j :: 0 <= j < i ==> disks[j] == DiskStateOf(g, ro, tree, mounts, names[j])
    {
      var disk := names[i];
      var all := DependentTree.DependentTree(g, disk);
      var foreign := MountsOf(g, all - tree, mounts);
      disks := disks + [DiskState(disk, ReadOnly(ro, disk), States(ro, g.Partitions(disk)), foreign)];
    }
  }

  method ChainStates(g: Graph, ro: RoFlags, mounts: seq<Mount>, tree: set<Kname>, names: seq<Kname>)
    returns (chain: seq<ChainNode>)
    requires forall n :: n in names ==> DependentTree.Ends(g, n)
    ensures |chain| == |names|
    ensures forall j :: 0 <= j < |names| ==> chain[j] == ChainNodeOf(g, ro, tree, mounts, names[j])
  {
    chain := [];
    for i := 0 to |names|
      invariant |chain| == i
      invariant forall j :: 0 <= j < i ==> chain[j] == ChainNodeOf(g, ro, tree, mounts, names[j])
    {
      var n := names[i];
      var all := DependentTree.DependentTree(g, n);
      chain := chain + [ChainNode(n, ReadOnly(ro, n), MountsOf(g, all - tree, mounts))];
    }
  }

  /** The walks the decision makes come to an end. */
  ghost predicate DecisionWalksEnd(g: Graph, id: Identity) {
    && SourceWalksEnd(g, id.kernelName)
    && forall d :: d in DisksOf(id) || d in ChainNames(g, id) ==> DependentTree.Ends(g, d)
  }

  lemma InputsAre(g: Graph, ro: RoFlags, id: Identity, mounts: seq<Mount>, tree: set<Kname>, chain: seq<ChainNode>,
                  disks: seq<DiskState>)
    requires |chain| == |ChainNames(g, id)| && |disks| == |DisksOf(id)|
    requires forall i :: 0 <= i < |chain| ==> chain[i] == ChainNodeOf(g, ro, tree, mounts, ChainNames(g, id)[i])
    requires forall i :: 0 <= i < |disks| ==> disks[i] == DiskStateOf(g, ro, tree, mounts, DisksOf(id)[i])
    ensures InputsOf(g, ro, id, mounts, tree).chain == chain && InputsOf(g, ro, id, mounts, tree).disks == disks
  {
    hide DiskStateOf, ChainNodeOf, ChainNames;
  }

  method DecisionInputs(g: Graph, ro: RoFlags, id: Identity, mounts: seq<Mount>)
    returns (inputs: Inputs, tree: set<Kname>)
    requires DecisionWalksEnd(g, id)
    ensures DependentTree.Walked(g, id.kernelName) <= tree
            && forall n :: n in tree ==> InSourceTree(g, id.kernelName, n)
    ensures inputs == InputsOf(g, ro, id, mounts, tree)
  {
    hide InSourceTree, ShownNode, DependentTree.Walked, DependentTree.Ends;
    hide DiskStateOf, ChainNodeOf, LowerNodes, Without;
    var nodes, maybe;
    tree, nodes, maybe := SourceTree(g, id.kernelName);
    var disks := DiskStates(g, ro, mounts, tree, DisksOf(id));
    var lower := ListLowerNodes(g, id.kernelName);
    var chain := ChainStates(g, ro, mounts, tree, if id.kind == Loop then [] else Without(lower, DisksOf(id)));
    var own := if id.kernelName in DisksOf(id) then [] else States(ro, g.Partitions(id.kernelName));
    InputsAre(g, ro, id, mounts, tree, chain, disks);
    inputs := Inputs(id.IsBlockDevice(), id.kernelName, ReadOnly(ro, id.kernelName), own, chain, disks);
  }

  // ---- The decision ----

  function DiskTargets(disks: seq<DiskState>): seq<NodeState> {
    if disks == [] then []
    else
      var d := disks[|disks| - 1];
      DiskTargets(disks[..|disks| - 1])
      + if d.foreignMounts == {} then [NodeState(d.node, d.ro)] + d.partitions else []
  }

  predicate InChain(inputs: Inputs, n: Kname) {
    n == inputs.source || exists c :: c in inputs.chain && c.node == n
  }

  /** The partitions that stay writable together with their disk. */
  function OutsideChain(inputs: Inputs, partitions: seq<NodeState>): seq<Kname> {
    if partitions == [] then []
    else
      var p := partitions[|partitions| - 1];
      OutsideChain(inputs, partitions[..|partitions| - 1]) + if InChain(inputs, p.node) then [] else [p.node]
  }

  function DiskNotes(inputs: Inputs, disks: seq<DiskState>): seq<Note> {
    if disks == [] then []
    else
      var d := disks[|disks| - 1];
      DiskNotes(inputs, disks[..|disks| - 1])
      + if d.foreignMounts == {} then []
        else [DiskLeftWritable(d.node, [d.node] + OutsideChain(inputs, d.partitions), d.foreignMounts)]
  }

  /** The chain from its far end: the node nearest the disk first. */
  function ChainTargets(chain: seq<ChainNode>): seq<NodeState> {
    if chain == [] then []
    else
      ChainTargets(chain[1..]) + if chain[0].foreignMounts == {} then [NodeState(chain[0].node, chain[0].ro)] else []
  }

  function ChainNotes(chain: seq<ChainNode>): seq<Note> {
    if chain == [] then []
    else
      ChainNotes(chain[1..])
      + if chain[0].foreignMounts == {} then [] else [NodeLeftWritable(chain[0].node, chain[0].foreignMounts)]
  }

  function Targets(inputs: Inputs): seq<NodeState> {
    DiskTargets(inputs.disks) + ChainTargets(inputs.chain)
    + [NodeState(inputs.source, inputs.sourceRo)] + inputs.sourcePartitions
  }

  /** The targets that are not read-only yet, each once. */
  function Unset(targets: seq<NodeState>): seq<Kname> {
    if targets == [] then []
    else
      var rest, t := Unset(targets[..|targets| - 1]), targets[|targets| - 1];
      if t.ro != Some(true) && t.node !in rest then rest + [t.node] else rest
  }

  function DecisionOn(policy: Policy, inputs: Inputs): Decision {
    if policy == Off then RecordOnly(PolicyOff)
    else if !inputs.isBlockDevice then RecordOnly(NotABlockDevice)
    else if Unset(Targets(inputs)) == [] then AlreadyReadOnly
    else Set(Unset(Targets(inputs)), DiskNotes(inputs, inputs.disks) + ChainNotes(inputs.chain))
  }

  /** The disks: all of a disk, or a note. */
  method TakeDisks(inputs: Inputs) returns (targets: seq<NodeState>, notes: seq<Note>)
    ensures targets == DiskTargets(inputs.disks) && notes == DiskNotes(inputs, inputs.disks)
  {
    targets, notes := [], [];
    for i := 0 to |inputs.disks|
      invariant targets == DiskTargets(inputs.disks[..i]) && notes == DiskNotes(inputs, inputs.disks[..i])
    {
      var disk := inputs.disks[i];
      assert inputs.disks[..i + 1][..i] == inputs.disks[..i];
      if disk.foreignMounts == {} {
        targets := targets + [NodeState(disk.node, disk.ro)] + disk.partitions;
      } else {
        var writable := [disk.node] + OutsideChain(inputs, disk.partitions);
        notes := notes + [DiskLeftWritable(disk.node, writable, disk.foreignMounts)];
      }
    }
    assert inputs.disks[..|inputs.disks|] == inputs.disks;
  }

  /** The chain, from its far end. */
  method TakeChain(chain: seq<ChainNode>) returns (targets: seq<NodeState>, notes: seq<Note>)
    ensures targets == ChainTargets(chain) && notes == ChainNotes(chain)
  {
    targets, notes := [], [];
    var k := |chain|;
    while k > 0
      invariant 0 <= k <= |chain| && targets == ChainTargets(chain[k..]) && notes == ChainNotes(chain[k..])
    {
      k := k - 1;
      var c := chain[k];
      assert chain[k..][1..] == chain[k + 1..];
      if c.foreignMounts == {} {
        targets := targets + [NodeState(c.node, c.ro)];
      } else {
        notes := notes + [NodeLeftWritable(c.node, c.foreignMounts)];
      }
    }
    assert chain[0..] == chain;
  }

  /** What is not read-only yet, each node once. */
  method TakeUnset(targets: seq<NodeState>) returns (pending: seq<Kname>)
    ensures pending == Unset(targets)
  {
    pending := [];
    for i := 0 to |targets|
      invariant pending == Unset(targets[..i])
    {
      assert targets[..i + 1][..i] == targets[..i];
      var t := targets[i];
      if t.ro != Some(true) && t.node !in pending {
        pending := pending + [t.node];
      }
    }
    assert targets[..|targets|] == targets;
  }

  /** Nothing is decided but to record when the examiner turned the protection off, and for a regular file. */
  method Decide(policy: Policy, inputs: Inputs) returns (d: Decision)
    ensures d == DecisionOn(policy, inputs)
    ensures d.RecordOnly? <==> policy == Off || !inputs.isBlockDevice
    ensures policy == Off ==> d == RecordOnly(PolicyOff)
    ensures policy == Auto && !inputs.isBlockDevice ==> d == RecordOnly(NotABlockDevice)
  {
    if policy == Off {
      return RecordOnly(PolicyOff);
    }
    if !inputs.isBlockDevice {
      return RecordOnly(NotABlockDevice);
    }
    var targets, notes := TakeDisks(inputs);
    var more, moreNotes := TakeChain(inputs.chain);
    targets := targets + more + [NodeState(inputs.source, inputs.sourceRo)] + inputs.sourcePartitions;
    notes := notes + moreNotes;
    var pending := TakeUnset(targets);
    d := if pending == [] then AlreadyReadOnly else Set(pending, notes);
  }
}
