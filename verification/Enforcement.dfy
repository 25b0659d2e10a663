/** Enforcement: decide, set the flag, re-read sysfs, and record what happened. */
module Enforcement {
  import opened Wrappers
  import DependentTree
  import opened BlockGraph
  import opened SourceNodes
  import opened LowerPlaces
  import opened WriteProtect
  import opened FreezeLaws

  datatype Refusal =
    | CannotSet(error: string)
    | StillWritable(nodes: seq<NodeState>)

  function NotReadOnly(states: seq<NodeState>): (r: seq<NodeState>)
    ensures forall t :: t in r <==> t in states && t.ro != Some(true)
  {
    if states == [] then []
    else
      var rest := NotReadOnly(states[..|states| - 1]);
      var t := states[|states| - 1];
      assert states == states[..|states| - 1] + [t];
      if t.ro != Some(true) then rest + [t] else rest
  }

  class WriteProtection {
    const policy: Policy
    var setByDfdisk: bool
    var methodRecorded: bool
    var nodesSet: seq<string>
    var roAfter: seq<NodeState>
    var notes: seq<Note>

    constructor (policy: Policy)
      ensures this.policy == policy && !setByDfdisk && !methodRecorded && nodesSet == [] && roAfter == [] && notes == []
    {
      this.policy := policy;
      setByDfdisk, methodRecorded, nodesSet, roAfter, notes := false, false, [], [], [];
    }

    /** `applied`: what setting the flag on the decided nodes answers; `after`: the flags read
        afterwards. Ok after setting means each decided node is read-only on re-read. */
    method Enforce(g: Graph, ro: RoFlags, id: Identity, mounts: seq<Mount>, applied: Result<seq<string>, string>,
                   after: RoFlags)
      returns (r: Result<(), Refusal>, decision: Decision, tree: set<Kname>)
      requires DecisionWalksEnd(g, id)
      modifies this
      ensures DependentTree.Walked(g, id.kernelName) <= tree
              && forall n :: n in tree ==> InSourceTree(g, id.kernelName, n)
      ensures decision == DecisionOn(policy, InputsOf(g, ro, id, mounts, tree))
      ensures decision.RecordOnly? <==> policy == Off || id.kind == RegularFile
      ensures policy == Off ==> decision == RecordOnly(PolicyOff)
      ensures policy == Auto && id.kind == RegularFile ==> decision == RecordOnly(NotABlockDevice)
      ensures !decision.Set? ==>
                && r == Ok(()) && unchanged(`setByDfdisk, `methodRecorded, `nodesSet, `roAfter)
                && notes == old(notes) + [if decision.RecordOnly? then decision.reason else WasAlreadyReadOnly]
      ensures decision.Set? ==> Distinct(decision.nodes)
      ensures decision.Set? && applied.Err? ==>
                && r == Err(CannotSet(applied.error)) && notes == old(notes) + decision.notes
                && unchanged(`setByDfdisk, `methodRecorded, `nodesSet, `roAfter)
      ensures decision.Set? && applied.Ok? ==>
                && Recorded(decision.nodes, applied.value, after) && Verdict(r, decision.nodes, after)
                && notes == old(notes) + decision.notes
                    + if r.Ok? && applied.value != [] then [FlagStaysOn(applied.value)] else []
    {
      var inputs;
      inputs, tree := DecisionInputs(g, ro, id, mounts);
      decision := Decide(policy, inputs);
      match decision {
        case RecordOnly(reason) =>
          notes := notes + [reason];
          r := Ok(());
        case AlreadyReadOnly =>
          notes := notes + [WasAlreadyReadOnly];
          r := Ok(());
        case Set(nodes, more) =>
          UnsetDistinct(Targets(inputs));
          notes := notes + more;
          if applied.Err? {
            r := Err(CannotSet(applied.error));
          } else {
            r := Verify(nodes, applied.value, after);
          }
      }
    }

    ghost predicate Recorded(nodes: seq<Kname>, applied: seq<string>, after: RoFlags)
      reads this
    {
      methodRecorded && nodesSet == applied && setByDfdisk == (applied != []) && roAfter == States(after, nodes)
    }

    /** Re-read the flag of every node that was to be set, and require it. */
    method Verify(nodes: seq<Kname>, applied: seq<string>, after: RoFlags) returns (r: Result<(), Refusal>)
      modifies this
      ensures Recorded(nodes, applied, after) && Verdict(r, nodes, after)
      ensures methodRecorded && nodesSet == applied && (setByDfdisk <==> applied != []) && |roAfter| == |nodes|
      ensures forall i :: 0 <= i < |nodes| ==> roAfter[i] == NodeState(nodes[i], ReadOnly(after, nodes[i]))
      ensures r.Ok? <==> forall n :: n in nodes ==> ReadOnly(after, n) == Some(true)
      ensures notes == old(notes) + if r.Ok? && applied != [] then [FlagStaysOn(applied)] else []
    {
      setByDfdisk := applied != [];
      methodRecorded := true;
      nodesSet := applied;
      roAfter := States(after, nodes);
      StatesReadOnly(after, nodes);
      var writable := NotReadOnly(roAfter);
      if writable != [] {
        r := Err(StillWritable(writable));
      } else {
        if nodesSet != [] {
          notes := notes + [FlagStaysOn(nodesSet)];
        }
        r := Ok(());
      }
    }
  }

  /** Ok exactly when every node is read-only on re-read; otherwise the refusal lists those that are not. */
  ghost predicate Verdict(r: Result<(), Refusal>, nodes: seq<Kname>, after: RoFlags) {
    && (r.Ok? <==> forall n :: n in nodes ==> ReadOnly(after, n) == Some(true))
    && (r.Err? ==> && r.error.StillWritable?
                   && forall t :: t in r.error.nodes <==>
                                    t.node in nodes && t.ro == ReadOnly(after, t.node) && t.ro != Some(true))
  }

  lemma StatesReadOnly(ro: RoFlags, nodes: seq<Kname>)
    ensures forall t :: t in States(ro, nodes) <==> t.node in nodes && t.ro == ReadOnly(ro, t.node)
    ensures NotReadOnly(States(ro, nodes)) == [] <==> forall n :: n in nodes ==> ReadOnly(ro, n) == Some(true)
  {
    forall t
      ensures t in States(ro, nodes) <==> t.node in nodes && t.ro == ReadOnly(ro, t.node)
    {
      InStates(ro, nodes, t);
    }
    var writable := NotReadOnly(States(ro, nodes));
    if writable != [] {
      assert writable[0] in writable;
    } else {
      forall n | n in nodes
        ensures ReadOnly(ro, n) == Some(true)
      {
        assert NodeState(n, ReadOnly(ro, n)) in States(ro, nodes);
      }
    }
  }
}
