/** Abort, force and headless flags shared by clones: the controller called by one thread, and every
    interleaving of its atomic steps by any number of threads. */
module Signals {
  import opened Wrappers

  datatype SignalKind = Interrupt | Terminate | Hangup | Quit

  datatype Action = Abort | Force | Headless | Unchanged

  datatype Flags = Flags(abort: bool, force: bool, headless: bool, last: Option<SignalKind>)

  datatype Op = RequestAbort | RequestForce | Handle(signal: SignalKind)

  /** What an operation does when nothing else runs: the new flags and the answer. */
  function Apply(f: Flags, op: Op): (Flags, Action) {
    match op
    case RequestAbort => (f.(abort := true), if f.abort then Unchanged else Abort)
    case RequestForce => (f.(abort := true, force := true), if f.force then Unchanged else Force)
    case Handle(s) =>
      var g := f.(last := Some(s));
      match s
      case Interrupt =>
        if f.abort then (g.(force := true), if f.force then Unchanged else Force) else (g.(abort := true), Abort)
      case Hangup => (g.(headless := true), if f.headless then Unchanged else Headless)
      case _ => (g.(abort := true), if f.abort then Unchanged else Abort)
  }

  /** The controller, called by one thread at a time. */
  class AbortController {
    var abort: bool
    var force: bool
    var headless: bool
    var last: Option<SignalKind>

    constructor ()
      ensures State() == Flags(false, false, false, None)
    {
      abort, force, headless, last := false, false, false, None;
    }

    function State(): Flags
      reads this
    {
      Flags(abort, force, headless, last)
    }

    method SwapAbort() returns (was: bool)
      modifies this`abort
      ensures was == old(abort) && abort
    {
      was, abort := abort, true;
    }

    method RequestAbort() returns (action: Action)
      modifies this
      ensures (State(), action) == Apply(old(State()), Op.RequestAbort)
    {
      var was := SwapAbort();
      action := if was then Unchanged else Abort;
    }

    method RequestForce() returns (action: Action)
      modifies this
      ensures (State(), action) == Apply(old(State()), Op.RequestForce)
    {
      abort := true;
      var was := force;
      force := true;
      action := if was then Unchanged else Force;
    }

    method Handle(signal: SignalKind) returns (action: Action)
      modifies this
      ensures (State(), action) == Apply(old(State()), Op.Handle(signal))
    {
      last := Some(signal);
      match signal {
        case Interrupt =>
          var was := SwapAbort();
          if was {
            action := RequestForce();
          } else {
            action := Abort;
          }
        case Terminate =>
          action := RequestAbort();
        case Quit =>
          action := RequestAbort();
        case Hangup =>
          action := if headless then Unchanged else Headless;
          headless := true;
      }
    }
  }

  // ---- Every interleaving ----

  /** Where a call stands between its atomic steps. */
  datatype Pc = AtStart | AtAbortSwap | AtHeadlessSwap | AtForceStore | AtForceSwap | Returned(action: Action)

  datatype Call = Call(op: Op, pc: Pc)

  datatype System = System(flags: Flags, calls: seq<Call>)

  datatype Event = Start(op: Op) | Advance(i: nat)

  /** One atomic access to a flag, and where the call goes on. */
  function Step(f: Flags, c: Call): (Flags, Call) {
    match c.pc
    case AtStart =>
      (match c.op
       case RequestAbort => (f, c.(pc := AtAbortSwap))
       case RequestForce => (f, c.(pc := AtForceStore))
       case Handle(s) => (f.(last := Some(s)), c.(pc := if s == Hangup then AtHeadlessSwap else AtAbortSwap)))
    case AtAbortSwap =>
      (f.(abort := true),
       c.(pc := if !f.abort then Returned(Abort)
                else if c.op == Handle(Interrupt) then AtForceStore
                else Returned(Unchanged)))
    case AtHeadlessSwap => (f.(headless := true), c.(pc := Returned(if f.headless then Unchanged else Headless)))
    case AtForceStore => (f.(abort := true), c.(pc := AtForceSwap))
    case AtForceSwap => (f.(force := true), c.(pc := Returned(if f.force then Unchanged else Force)))
    case Returned(_) => (f, c)
  }

  function Next(s: System, e: Event): System {
    match e
    case Start(op) => s.(calls := s.calls + [Call(op, AtStart)])
    case Advance(i) =>
      if i >= |s.calls| then s
      else
        var (f, c) := Step(s.flags, s.calls[i]);
        System(f, s.calls[i := c])
  }

  const INITIAL: System := System(Flags(false, false, false, None), [])

  function Run(es: seq<Event>): System {
    if es == [] then INITIAL else Next(Run(es[..|es| - 1]), es[|es| - 1])
  }

  predicate Says(c: Call, a: Action) {
    c.pc == Returned(a)
  }

  /** How many calls have been told `a`. */
  function Told(calls: seq<Call>, a: Action): nat {
    if calls == [] then 0 else Told(calls[..|calls| - 1], a) + if Says(calls[|calls| - 1], a) then 1 else 0
  }

  lemma {:induction false} ToldUpdate(calls: seq<Call>, i: nat, c: Call, a: Action)
    requires i < |calls|
    ensures Told(calls[i := c], a) + (if Says(calls[i], a) then 1 else 0)
         == Told(calls, a) + if Says(c, a) then 1 else 0
  {
    var n := |calls| - 1;
    if i < n {
      ToldUpdate(calls[..n], i, c, a);
      assert calls[i := c][..n] == calls[..n][i := c];
    } else {
      assert calls[i := c][..n] == calls[..n];
    }
  }

  predicate Forcing(c: Call) {
    c.pc == AtForceStore || c.pc == AtForceSwap || c.pc == Returned(Force)
  }

  /** Operations that never ask for force. */
  predicate Gentle(op: Op) {
    op == RequestAbort || (op.Handle? && op.signal != Interrupt)
  }

  /** Where a call can stand, given its operation and the flags. */
  predicate Placed(f: Flags, c: Call) {
    && (Gentle(c.op) ==> !Forcing(c))
    && (c.pc == AtHeadlessSwap ==> c.op == Handle(Hangup))
    && (c.pc == AtAbortSwap ==> c.op != RequestForce && c.op != Handle(Hangup))
    && (c.pc == AtForceSwap ==> f.abort)
    && (c.pc == AtForceStore && c.op != RequestForce ==> f.abort)
    && (c.pc.Returned? && c.op == RequestForce ==> f.force)
    && (c.pc.Returned? && c.op == Handle(Interrupt) && c.pc.action != Abort ==> f.force)
    && (c.pc.Returned? && c.op != Handle(Hangup) ==> f.abort)
    && (c.pc == Returned(Abort) ==> c.op != RequestForce)
    && (c.pc == Returned(Headless) ==> c.op == Handle(Hangup))
  }

  predicate NoRequestForce(calls: seq<Call>) {
    forall c :: c in calls ==> c.op != RequestForce
  }

  predicate Inv(s: System) {
    && (s.flags.force ==> s.flags.abort)
    && Told(s.calls, Force) == (if s.flags.force then 1 else 0)
    && Told(s.calls, Headless) == (if s.flags.headless then 1 else 0)
    && Told(s.calls, Abort) <= (if s.flags.abort then 1 else 0)
    && (s.flags.abort && NoRequestForce(s.calls) ==> Told(s.calls, Abort) == 1)
    && forall i :: 0 <= i < |s.calls| ==> Placed(s.flags, s.calls[i])
  }

  lemma StartKeeps(s: System, op: Op)
    requires Inv(s)
    ensures Inv(Next(s, Start(op)))
  {
  }

  lemma AdvancePlaces(s: System, i: nat)
    requires Inv(s) && i < |s.calls|
    ensures var n := Next(s, Advance(i)); forall j :: 0 <= j < |n.calls| ==> Placed(n.flags, n.calls[j])
  {
    hide Told, NoRequestForce;
    var (f, c) := Step(s.flags, s.calls[i]);
    assert Placed(s.flags, s.calls[i]) && Placed(f, c);
  }

  lemma AdvanceKeeps(s: System, i: nat)
    requires Inv(s) && i < |s.calls|
    ensures Inv(Next(s, Advance(i)))
  {
    var (f, c) := Step(s.flags, s.calls[i]);
    ToldUpdate(s.calls, i, c, Force);
    ToldUpdate(s.calls, i, c, Headless);
    ToldUpdate(s.calls, i, c, Abort);
    AdvancePlaces(s, i);
    SameOps(s.calls, i, c);
    assert Placed(s.flags, s.calls[i]) && s.calls[i] in s.calls && c.op == s.calls[i].op;
    hide Told, Placed;
  }

  lemma SameOps(calls: seq<Call>, i: nat, c: Call)
    requires i < |calls| && c.op == calls[i].op
    ensures NoRequestForce(calls[i := c]) ==> NoRequestForce(calls)
  {
    if NoRequestForce(calls[i := c]) {
      forall j | 0 <= j < |calls|
        ensures calls[j].op != RequestForce
      {
        assert calls[i := c][j] in calls[i := c];
      }
    }
  }

  /** After every run of starts and atomic steps the invariant holds. */
  lemma {:induction false} RunKeeps(es: seq<Event>)
    ensures Inv(Run(es))
  {
    if es != [] {
      var front, e := es[..|es| - 1], es[|es| - 1];
      RunKeeps(front);
      match e
      case Start(op) => StartKeeps(Run(front), op);
      case Advance(i) =>
        if i < |Run(front).calls| {
          AdvanceKeeps(Run(front), i);
        }
    }
  }

  /** Force implies abort; at most one caller is told Abort, and exactly one once abort is set without
      a request for force; exactly one is told Force once force is set. */
  lemma AnswersAreUnique(es: seq<Event>)
    ensures var s := Run(es);
            && (s.flags.force ==> s.flags.abort)
            && Told(s.calls, Abort) <= 1
            && (s.flags.abort && NoRequestForce(s.calls) ==> Told(s.calls, Abort) == 1)
            && Told(s.calls, Force) == (if s.flags.force then 1 else 0)
            && Told(s.calls, Headless) == (if s.flags.headless then 1 else 0)
  {
    RunKeeps(es);
  }

  /** No flag is ever taken back. */
  lemma FlagsMonotone(es: seq<Event>, e: Event)
    ensures var f, g := Run(es).flags, Run(es + [e]).flags;
            (f.abort ==> g.abort) && (f.force ==> g.force) && (f.headless ==> g.headless)
  {
  }

  lemma {:induction false} OpsWereStarted(es: seq<Event>)
    ensures forall c :: c in Run(es).calls ==> Start(c.op) in es
  {
    if es != [] {
      var front, e := es[..|es| - 1], es[|es| - 1];
      assert es == front + [e];
      OpsWereStarted(front);
      var was, now := Run(front).calls, Run(es).calls;
      forall k | 0 <= k < |now|
        ensures Start(now[k].op) in es
      {
        if k < |was| {
          assert was[k] in was && now[k].op == was[k].op;
          assert Start(was[k].op) in front;
        } else {
          assert e == Start(now[k].op);
        }
      }
    }
  }

  /** SIGTERM, SIGQUIT, SIGHUP and the examiner's abort alone never set force. */
  lemma GentleNeverForces(es: seq<Event>)
    requires forall op :: Start(op) in es ==> Gentle(op)
    ensures !Run(es).flags.force
  {
    RunKeeps(es);
    OpsWereStarted(es);
    var s := Run(es);
    forall i | 0 <= i < |s.calls|
      ensures !Says(s.calls[i], Force)
    {
      assert s.calls[i] in s.calls && Placed(s.flags, s.calls[i]);
    }
    if Told(s.calls, Force) > 0 {
      var i := SomeoneTold(s.calls, Force);
      assert false;
    }
  }

  lemma {:induction false} SomeoneTold(calls: seq<Call>, a: Action) returns (i: nat)
    requires Told(calls, a) > 0
    ensures i < |calls| && Says(calls[i], a)
  {
    var n := |calls| - 1;
    if Says(calls[n], a) {
      i := n;
    } else {
      i := SomeoneTold(calls[..n], a);
    }
  }

  lemma {:induction false} ToldTwice(calls: seq<Call>, a: Action, i: nat, j: nat)
    requires i < j < |calls| && Says(calls[i], a) && Says(calls[j], a)
    ensures Told(calls, a) >= 2
    decreases |calls|
  {
    var n := |calls| - 1;
    if j < n {
      ToldTwice(calls[..n], a, i, j);
    } else {
      ToldOnce(calls[..n], a, i);
    }
  }

  lemma {:induction false} ToldOnce(calls: seq<Call>, a: Action, i: nat)
    requires i < |calls| && Says(calls[i], a)
    ensures Told(calls, a) >= 1
    decreases |calls|
  {
    var n := |calls| - 1;
    if i < n {
      ToldOnce(calls[..n], a, i);
    }
  }

  /** Once two SIGINTs are handled, in whatever interleaving, force is set. */
  lemma SecondInterruptForces(es: seq<Event>, i: nat, j: nat)
    requires var s := Run(es);
             i < j < |s.calls| && s.calls[i].op == s.calls[j].op == Handle(Interrupt)
             && s.calls[i].pc.Returned? && s.calls[j].pc.Returned?
    ensures Run(es).flags.force
  {
    RunKeeps(es);
    var s := Run(es);
    assert Placed(s.flags, s.calls[i]) && Placed(s.flags, s.calls[j]);
    if !s.flags.force {
      ToldTwice(s.calls, Abort, i, j);
      assert false;
    }
  }

  // ---- When force is set ----

  /** A SIGINT finds abort already set. */
  predicate FindsAbort(s: System, e: Event) {
    && e.Advance? && e.i < |s.calls|
    && s.calls[e.i] == Call(Handle(Interrupt), AtAbortSwap) && s.flags.abort
  }

  ghost predicate LateInterrupt(es: seq<Event>) {
    exists k :: 0 <= k < |es| && FindsAbort(Run(es[..k]), es[k])
  }

  lemma LateOr(es: seq<Event>)
    requires es != []
    ensures var front, e := es[..|es| - 1], es[|es| - 1];
            LateInterrupt(es) <==> LateInterrupt(front) || FindsAbort(Run(front), e)
  {
    hide Run, FindsAbort;
    var front := es[..|es| - 1];
    assert forall k :: 0 <= k < |front| ==> front[..k] == es[..k] && front[k] == es[k];
  }

  /** A SIGINT on its way to force, or past it. */
  predicate Escalated(c: Call) {
    && c.op == Handle(Interrupt)
    && (c.pc == AtForceStore || c.pc == AtForceSwap || (c.pc.Returned? && c.pc.action != Abort))
  }

  predicate SomeEscalated(calls: seq<Call>) {
    exists i :: 0 <= i < |calls| && Escalated(calls[i])
  }

  lemma StepEscalates(f: Flags, c: Call)
    requires Placed(f, c)
    ensures Escalated(Step(f, c).1) <==> Escalated(c) || (c == Call(Handle(Interrupt), AtAbortSwap) && f.abort)
  {
  }

  lemma NextEscalates(s: System, e: Event)
    requires Inv(s)
    ensures SomeEscalated(Next(s, e).calls) <==> SomeEscalated(s.calls) || FindsAbort(s, e)
  {
    var now := Next(s, e).calls;
    hide Told, NoRequestForce, Step;
    match e
    case Start(op) =>
      assert forall i :: 0 <= i < |s.calls| ==> now[i] == s.calls[i];
    case Advance(i) =>
      if i < |s.calls| {
        StepEscalates(s.flags, s.calls[i]);
        assert forall j :: 0 <= j < |now| && j != i ==> now[j] == s.calls[j];
        assert now[i] == Step(s.flags, s.calls[i]).1;
      }
  }

  lemma {:induction false} EscalatedIff(es: seq<Event>)
    ensures SomeEscalated(Run(es).calls) <==> LateInterrupt(es)
  {
    if es != [] {
      var front, e := es[..|es| - 1], es[|es| - 1];
      EscalatedIff(front);
      RunKeeps(front);
      NextEscalates(Run(front), e);
      LateOr(es);
    }
  }

  lemma {:induction false} StartedIsCalled(es: seq<Event>, op: Op)
    requires Start(op) in es
    ensures exists i :: 0 <= i < |Run(es).calls| && Run(es).calls[i].op == op
  {
    var front, e := es[..|es| - 1], es[|es| - 1];
    assert es == front + [e];
    if Start(op) in front {
      StartedIsCalled(front, op);
      var i :| 0 <= i < |Run(front).calls| && Run(front).calls[i].op == op;
      assert Run(es).calls[i].op == op;
    } else {
      assert Run(es).calls[|Run(front).calls|].op == op;
    }
  }

  predicate AllReturned(calls: seq<Call>) {
    forall i :: 0 <= i < |calls| ==> calls[i].pc.Returned?
  }

  /** Once all calls have returned, force is set exactly when an immediate stop was requested or a SIGINT found
      abort already set, whatever had set it. */
  lemma ForcedIff(es: seq<Event>)
    requires AllReturned(Run(es).calls)
    ensures Run(es).flags.force <==> Start(RequestForce) in es || LateInterrupt(es)
  {
    var s := Run(es);
    RunKeeps(es);
    OpsWereStarted(es);
    EscalatedIff(es);
    if s.flags.force {
      var i := SomeoneTold(s.calls, Force);
      assert s.calls[i] in s.calls && Placed(s.flags, s.calls[i]);
      assert s.calls[i].op == RequestForce || Escalated(s.calls[i]);
    }
    if Start(RequestForce) in es {
      StartedIsCalled(es, RequestForce);
      var i :| 0 <= i < |s.calls| && s.calls[i].op == RequestForce;
      assert Placed(s.flags, s.calls[i]);
    }
    if i :| 0 <= i < |s.calls| && Escalated(s.calls[i]) {
      assert Placed(s.flags, s.calls[i]);
    }
  }

  /** Calls one after the other. */
  function ApplyAll(ops: seq<Op>): Flags {
    if ops == [] then INITIAL.flags else Apply(ApplyAll(ops[..|ops| - 1]), ops[|ops| - 1]).0
  }

  predicate Aborts(op: Op) {
    op != Handle(Hangup)
  }

  predicate SomeAborts(ops: seq<Op>) {
    exists i :: 0 <= i < |ops| && Aborts(ops[i])
  }

  predicate InterruptAfterAbort(ops: seq<Op>) {
    exists j :: 0 <= j < |ops| && ops[j] == Handle(Interrupt) && SomeAborts(ops[..j])
  }

  lemma OneMore(ops: seq<Op>)
    requires ops != []
    ensures var front, last := ops[..|ops| - 1], ops[|ops| - 1];
            && (SomeAborts(ops) <==> SomeAborts(front) || Aborts(last))
            && (InterruptAfterAbort(ops) <==>
                  InterruptAfterAbort(front) || (last == Handle(Interrupt) && SomeAborts(front)))
  {
    var front := ops[..|ops| - 1];
    assert forall i :: 0 <= i < |front| ==> front[i] == ops[i];
    hide SomeAborts;
    assert forall j :: 0 <= j < |front| ==> front[..j] == ops[..j];
  }

  /** Of calls made one after the other: abort is set by any but a SIGHUP, and force by a request for it or by a
      SIGINT that comes after anything that sets abort. */
  lemma {:induction false} ForcedInOrderIff(ops: seq<Op>)
    ensures ApplyAll(ops).abort <==> SomeAborts(ops)
    ensures ApplyAll(ops).force <==> RequestForce in ops || InterruptAfterAbort(ops)
  {
    if ops != [] {
      assert ops == ops[..|ops| - 1] + [ops[|ops| - 1]];
      ForcedInOrderIff(ops[..|ops| - 1]);
      OneMore(ops);
      hide SomeAborts, InterruptAfterAbort;
    }
  }

  lemma OneCall(f: Flags, op: Op)
    ensures Apply(f, op).0.headless <==> f.headless || op == Handle(Hangup)
    ensures Apply(f, op).0.last == if op.Handle? then Some(op.signal) else f.last
  {
  }

  /** Of calls made one after the other: headless is set exactly by a SIGHUP. */
  lemma {:induction false} HeadlessIff(ops: seq<Op>)
    ensures ApplyAll(ops).headless <==> Handle(Hangup) in ops
  {
    if ops != [] {
      var front, last := ops[..|ops| - 1], ops[|ops| - 1];
      assert ops == front + [last];
      HeadlessIff(front);
      OneCall(ApplyAll(front), last);
      hide Apply;
    }
  }

  /** The last signal is remembered, whatever else is requested after it. */
  lemma {:induction false} LastSignalIs(before: seq<Op>, signal: SignalKind, after: seq<Op>)
    requires forall op :: op in after ==> !op.Handle?
    ensures ApplyAll(before + [Handle(signal)] + after).last == Some(signal)
  {
    var ops := before + [Handle(signal)] + after;
    OneCall(ApplyAll(ops[..|ops| - 1]), ops[|ops| - 1]);
    hide Apply;
    if after == [] {
      assert ops == before + [Handle(signal)];
    } else {
      var n := |after| - 1;
      LastSignalIs(before, signal, after[..n]);
      assert ops[..|ops| - 1] == before + [Handle(signal)] + after[..n];
      assert ops[|ops| - 1] == after[n] && after[n] in after;
    }
  }

  /** After a SIGTERM the first SIGINT forces, although it is not a second one. */
  lemma FirstInterruptForces()
    ensures ApplyAll([Handle(Terminate), Handle(Interrupt)]).force
    ensures !ApplyAll([Handle(Interrupt)]).force && !ApplyAll([Handle(Terminate)]).force
  {
    var ops := [Handle(Terminate), Handle(Interrupt)];
    assert ops[..1] == [Handle(Terminate)] && ops[..1][..0] == [];
    assert [Handle(Interrupt)][..0] == [];
  }

  function Alone(f: Flags, c: Call, n: nat): (Flags, Call)
    decreases n
  {
    if n == 0 then (f, c) else var (g, d) := Step(f, c); Alone(g, d, n - 1)
  }

  /** A call that no other interrupts does what the controller's method does. */
  lemma UninterruptedIsApply(f: Flags, op: Op)
    ensures var (g, a) := Apply(f, op); Alone(f, Call(op, AtStart), 4) == (g, Call(op, Returned(a)))
  {
  }
}
