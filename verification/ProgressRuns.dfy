/** Every interleaving of a sink's clones with the consumer: where each log line is. */
module ProgressRuns {
  import opened Wrappers
  import opened Progress

  /** The sink, what the consumer received, and the updates a `finish` is waiting to send. */
  datatype World = World(sink: Sink, delivered: seq<Telemetry>, flights: seq<Telemetry>)

  datatype Event =
    | Posted(change: Change, granted: bool)
    | FinishBegun(status: Status, outcome: Option<string>, message: string)
    | FinishSent(i: nat)
    | FinishFailed(i: nat)
    | Received
    | ReceiverClosed
    | Disconnected

  function Without(s: seq<Telemetry>, i: nat): seq<Telemetry>
    requires i < |s|
  {
    s[..i] + s[i + 1..]
  }

  /** A permit is free unless the queue is full or waiting senders may hold the rest. */
  predicate Room(w: World, granted: bool) {
    granted || |w.sink.queue| + |w.flights| < w.sink.capacity
  }

  function Next(w: World, e: Event): World {
    match e
    case Posted(c, granted) => w.(sink := Post(w.sink, c, Room(w, granted)))
    case FinishBegun(status, outcome, message) =>
      var update := Final(w.sink.state, status, outcome, message);
      World(w.sink.(state := update.(log := [])), w.delivered,
            if w.sink.connected then w.flights + [update] else w.flights)
    case FinishSent(i) =>
      if i < |w.flights| && w.sink.open && |w.sink.queue| < w.sink.capacity
      then World(w.sink.(queue := w.sink.queue + [w.flights[i]]), w.delivered, Without(w.flights, i))
      else w
    case FinishFailed(i) =>
      if i < |w.flights|
      then World(w.sink.(state := w.sink.state.(log := CapLog(w.flights[i].log + w.sink.state.log))),
                 w.delivered, Without(w.flights, i))
      else w
    case Received =>
      if w.sink.queue != []
      then w.(sink := w.sink.(queue := w.sink.queue[1..]), delivered := w.delivered + [w.sink.queue[0]])
      else w
    case ReceiverClosed => w.(sink := w.sink.(open := false))
    case Disconnected => w.(sink := w.sink.(connected := false))
  }

  function Initial(connected: bool, capacity: nat): World {
    World(Sink(connected, DEFAULT, [], true, capacity, []), [], [])
  }

  function Run(init: World, es: seq<Event>): World {
    if es == [] then init else Next(Run(init, es[..|es| - 1]), es[|es| - 1])
  }

  // ---- Lines of one step ----

  function PushedBy(e: Event): seq<string> {
    match e
    case Posted(c, _) => LinesOf(c)
    case FinishBegun(_, _, message) => [message]
    case _ => []
  }

  /** The lines a step would leave in the sink's hands without the bound. */
  function InHand(w: World, e: Event): seq<string> {
    match e
    case Posted(_, _) => w.sink.state.log + PushedBy(e)
    case FinishBegun(_, _, _) => w.sink.state.log + PushedBy(e)
    case FinishFailed(i) => if i < |w.flights| then w.flights[i].log + w.sink.state.log else []
    case _ => []
  }

  /** The two steps that throw away what they hold: a closed channel met by an update, and a final update
      without a sender. */
  predicate Loses(w: World, e: Event) {
    || (e.Posted? && w.sink.connected && !w.sink.open)
    || (e.FinishBegun? && !w.sink.connected)
  }

  function CappedBy(w: World, e: Event): seq<string> {
    Excess(InHand(w, e))
  }

  function LostBy(w: World, e: Event): seq<string> {
    if Loses(w, e) then CapLog(InHand(w, e)) else []
  }

  /** All lines the system still has, from the consumer back to the sink: received, queued, in flight
      inside a `finish`, held back. */
  function LineUp(w: World): seq<string> {
    Lines(w.delivered) + Lines(w.sink.queue) + Lines(w.flights) + w.sink.state.log
  }

  /** How often a line occurs; without one, how many lines there are. */
  function Count(lines: seq<string>, key: Option<string>): nat {
    if key.Some? then multiset(lines)[key.value] else |lines|
  }

  lemma CountJoin(a: seq<string>, b: seq<string>, key: Option<string>)
    ensures Count(a + b, key) == Count(a, key) + Count(b, key)
  {
  }

  lemma CountAround(a: seq<string>, u: seq<string>, b: seq<string>, key: Option<string>)
    ensures Count(a + u + b, key) == Count(a + b, key) + Count(u, key)
  {
  }

  lemma CountLineUp(w: World, key: Option<string>)
    ensures Count(LineUp(w), key)
         == Count(Lines(w.delivered), key) + Count(Lines(w.sink.queue), key) + Count(Lines(w.flights), key)
          + Count(w.sink.state.log, key)
  {
  }

  /** Held lines, queued updates and updates in flight never exceed the bounds. */
  predicate Bounded(w: World) {
    && |w.sink.state.log| <= MAX_LOG_LINES
    && |w.sink.queue| <= w.sink.capacity
    && (forall u :: u in w.sink.queue ==> |u.log| <= MAX_LOG_LINES)
    && (forall u :: u in w.flights ==> |u.log| <= MAX_LOG_LINES)
  }

  lemma StepBounded(w: World, e: Event)
    requires Bounded(w)
    ensures Bounded(Next(w, e))
  {
    match e
    case FinishSent(i) =>
      if i < |w.flights| {
        assert w.flights[i] in w.flights;
        assert forall u :: u in Without(w.flights, i) ==> u in w.flights;
      }
    case FinishFailed(i) =>
      if i < |w.flights| {
        assert forall u :: u in Without(w.flights, i) ==> u in w.flights;
      }
    case _ =>
  }

  lemma {:induction false} RunBounded(connected: bool, capacity: nat, es: seq<Event>)
    ensures Bounded(Run(Initial(connected, capacity), es))
  {
    if es != [] {
      RunBounded(connected, capacity, es[..|es| - 1]);
      StepBounded(Run(Initial(connected, capacity), es[..|es| - 1]), es[|es| - 1]);
    }
  }

  lemma LinesSnoc(us: seq<Telemetry>, u: Telemetry)
    ensures Lines(us + [u]) == Lines(us) + u.log
  {
  }

  lemma Regroup<T>(a: seq<T>, b: seq<T>, c: seq<T>)
    ensures (a + b) + c == a + (b + c)
  {
  }

  lemma {:induction false} LinesJoin(a: seq<Telemetry>, b: seq<Telemetry>)
    ensures Lines(a + b) == Lines(a) + Lines(b)
  {
    if b == [] {
      assert a + b == a;
    } else {
      var front, last := b[..|b| - 1], b[|b| - 1];
      LinesJoin(a, front);
      LinesSnoc(a + front, last);
      LinesSnoc(front, last);
      assert b == front + [last];
      hide Lines;
      Regroup(a, front, [last]);
      Regroup(Lines(a), Lines(front), last.log);
    }
  }

  lemma LinesOne(u: Telemetry)
    ensures Lines([u]) == u.log
  {
  }

  lemma Around(us: seq<Telemetry>, i: nat)
    requires i < |us|
    ensures us == us[..i] + [us[i]] + us[i + 1..]
  {
  }

  lemma LinesSplit(us: seq<Telemetry>, i: nat)
    requires i < |us|
    ensures Lines(us) == Lines(us[..i]) + us[i].log + Lines(us[i + 1..])
    ensures Lines(Without(us, i)) == Lines(us[..i]) + Lines(us[i + 1..])
  {
    hide Lines;
    var a, u, b := us[..i], us[i], us[i + 1..];
    Around(us, i);
    LinesJoin(a + [u], b);
    LinesSnoc(a, u);
    LinesJoin(a, b);
  }

  lemma FinishParts(w: World, e: Event)
    requires e.FinishBegun?
    ensures var n, kept := Next(w, e), CapLog(InHand(w, e));
            && n.delivered == w.delivered && n.sink.queue == w.sink.queue && n.sink.state.log == []
            && if Loses(w, e) then n.flights == w.flights else Lines(n.flights) == Lines(w.flights) + kept
  {
  }

  lemma CountCap(all: seq<string>, key: Option<string>)
    ensures Count(all, key) == Count(Excess(all), key) + Count(CapLog(all), key)
  {
    CapSplits(all);
    CountJoin(Excess(all), CapLog(all), key);
  }

  lemma ReceivedParts(w: World)
    ensures var n := Next(w, Received);
            && n.flights == w.flights && n.sink.state == w.sink.state
            && Lines(n.delivered) + Lines(n.sink.queue) == Lines(w.delivered) + Lines(w.sink.queue)
  {
    if w.sink.queue != [] {
      var u, rest := w.sink.queue[0], w.sink.queue[1..];
      assert w.sink.queue == [u] + rest;
      LinesJoin([u], rest);
      LinesOne(u);
      LinesSnoc(w.delivered, u);
      hide Lines;
      var d, q := Lines(w.delivered), Lines(rest);
      assert (d + u.log) + q == d + (u.log + q);
    }
  }

  /** What a step leaves, drops and loses is what was there and what it pushes. */
  predicate Accounts(w: World, e: Event, key: Option<string>) {
    Count(LineUp(Next(w, e)), key) + Count(CappedBy(w, e), key) + Count(LostBy(w, e), key)
    == Count(LineUp(w), key) + Count(PushedBy(e), key)
  }

  lemma HandCounts(w: World, e: Event, key: Option<string>)
    requires e.Posted? || e.FinishBegun?
    ensures Count(w.sink.state.log, key) + Count(PushedBy(e), key)
              == Count(CappedBy(w, e), key) + Count(CapLog(InHand(w, e)), key)
    ensures Count(LostBy(w, e), key) == if Loses(w, e) then Count(CapLog(InHand(w, e)), key) else 0
  {
    hide CapLog, Excess, Lines;
    CountCap(InHand(w, e), key);
    CountJoin(w.sink.state.log, PushedBy(e), key);
  }

  lemma PostedCounts(w: World, e: Event, key: Option<string>)
    requires Bounded(w) && e.Posted?
    ensures var n, kept := Next(w, e), Count(CapLog(InHand(w, e)), key);
            && n.delivered == w.delivered && n.flights == w.flights
            && Count(Lines(n.sink.queue), key) + Count(n.sink.state.log, key)
             == Count(Lines(w.sink.queue), key) + if Loses(w, e) then 0 else kept
  {
    var u := Edited(w.sink.state, e.change);
    PostParts(w.sink, e.change, Room(w, e.granted));
    EditedLog(w.sink.state, e.change);
    LinesSnoc(w.sink.queue, u);
    CountJoin(Lines(w.sink.queue), u.log, key);
    hide Post, Lines, CapLog, Edited;
  }

  lemma FinishCounts(w: World, e: Event, key: Option<string>)
    requires e.FinishBegun?
    ensures var n, kept := Next(w, e), Count(CapLog(InHand(w, e)), key);
            && n.delivered == w.delivered && n.sink.queue == w.sink.queue
            && Count(Lines(n.flights), key) + Count(n.sink.state.log, key)
             == Count(Lines(w.flights), key) + if Loses(w, e) then 0 else kept
  {
    FinishParts(w, e);
    CountJoin(Lines(w.flights), CapLog(InHand(w, e)), key);
    hide Next, Lines, CapLog, InHand, Loses;
  }

  lemma HandedAccounts(w: World, e: Event, key: Option<string>)
    requires Bounded(w) && (e.Posted? || e.FinishBegun?)
    ensures Accounts(w, e, key)
  {
    HandCounts(w, e, key);
    if e.Posted? {
      PostedCounts(w, e, key);
    } else {
      FinishCounts(w, e, key);
    }
    CountLineUp(w, key);
    CountLineUp(Next(w, e), key);
    hide Next, Lines, CapLog, InHand, Loses, Count, LineUp, CappedBy, LostBy, PushedBy, Bounded;
  }

  /** Whether a waiting update leaves now; it can always fail, and be sent when the channel has room. */
  predicate Leaves(w: World, e: Event)
    requires e.FinishSent? || e.FinishFailed?
  {
    e.i < |w.flights| && (e.FinishFailed? || (w.sink.open && |w.sink.queue| < w.sink.capacity))
  }

  lemma FlightParts(w: World, e: Event) returns (a: seq<string>, b: seq<string>)
    requires (e.FinishSent? || e.FinishFailed?) && Leaves(w, e)
    ensures var n, u := Next(w, e), w.flights[e.i].log;
            && Lines(w.flights) == a + u + b
            && n.delivered == w.delivered && Lines(n.flights) == a + b && |n.flights| == |w.flights| - 1
            && (e.FinishSent? ==> Lines(n.sink.queue) == Lines(w.sink.queue) + u && n.sink.state == w.sink.state)
            && (e.FinishFailed? ==> n.sink.queue == w.sink.queue && n.sink.state.log == CapLog(u + w.sink.state.log))
            && (|w.flights| == 1 ==> a == [] && b == [])
  {
    a, b := Lines(w.flights[..e.i]), Lines(w.flights[e.i + 1..]);
    LinesSplit(w.flights, e.i);
    LinesSnoc(w.sink.queue, w.flights[e.i]);
    assert |Without(w.flights, e.i)| == |w.flights| - 1;
    assert |w.flights| == 1 ==> w.flights[..e.i] == [] && w.flights[e.i + 1..] == [];
    assert Lines([]) == [];
    hide Lines, CapLog, Without;
  }

  lemma StayingAccounts(w: World, e: Event, key: Option<string>)
    requires (e.FinishSent? || e.FinishFailed?) && !Leaves(w, e)
    ensures Accounts(w, e, key)
  {
  }

  lemma SentAccounts(w: World, e: Event, key: Option<string>)
    requires e.FinishSent? && Leaves(w, e)
    ensures Accounts(w, e, key)
  {
    var n, u := Next(w, e), w.flights[e.i].log;
    assert Count(CappedBy(w, e), key) == Count(LostBy(w, e), key) == Count(PushedBy(e), key) == 0;
    var a, b := FlightParts(w, e);
    hide Next, Lines, LineUp, Count, CappedBy, LostBy, PushedBy, Leaves;
    CountAround(a, u, b, key);
    CountJoin(Lines(w.sink.queue), u, key);
    CountLineUp(w, key);
    CountLineUp(n, key);
  }

  lemma FailedAccounts(w: World, e: Event, key: Option<string>)
    requires e.FinishFailed? && Leaves(w, e)
    ensures Accounts(w, e, key)
  {
    var n, u, held := Next(w, e), w.flights[e.i].log, w.sink.state.log;
    assert CappedBy(w, e) == Excess(u + held);
    assert Count(LostBy(w, e), key) == Count(PushedBy(e), key) == 0;
    var a, b := FlightParts(w, e);
    hide Next, Lines, LineUp, Count, CapLog, Excess, CappedBy, LostBy, PushedBy, Leaves;
    CountAround(a, u, b, key);
    CountJoin(u, held, key);
    CountCap(u + held, key);
    CountLineUp(w, key);
    CountLineUp(n, key);
  }

  /** One step: every line that was somewhere or is pushed is somewhere, over the bound, or thrown away. */
  lemma StepAccounts(w: World, e: Event, key: Option<string>)
    requires Bounded(w)
    ensures Accounts(w, e, key)
  {
    match e
    case Posted(_, _) => HandedAccounts(w, e, key);
    case FinishBegun(_, _, _) => HandedAccounts(w, e, key);
    case FinishSent(_) =>
      if Leaves(w, e) {
        SentAccounts(w, e, key);
      } else {
        StayingAccounts(w, e, key);
      }
    case FinishFailed(_) =>
      if Leaves(w, e) {
        FailedAccounts(w, e, key);
      } else {
        StayingAccounts(w, e, key);
      }
    case Received =>
      ReceivedParts(w);
      assert Excess([]) == [];
    case _ =>
      assert Excess([]) == [] && LineUp(Next(w, e)) == LineUp(w);
  }

  lemma SameLines(a: seq<string>, b: seq<string>)
    requires forall key :: Count(a, key) == Count(b, key)
    ensures multiset(a) == multiset(b)
  {
    forall x: string
      ensures multiset(a)[x] == multiset(b)[x]
    {
      assert Count(a, Some(x)) == Count(b, Some(x));
    }
  }

  /** A step keeps every line exactly when it stays within the bound and does not meet a closed channel
      with an update or a missing sender with a final one. */
  lemma StepKeepsEveryLineIff(w: World, e: Event)
    requires Bounded(w)
    ensures multiset(LineUp(Next(w, e))) == multiset(LineUp(w) + PushedBy(e))
        <==> |InHand(w, e)| <= MAX_LOG_LINES && (Loses(w, e) ==> InHand(w, e) == [])
  {
    var now, all := LineUp(Next(w, e)), LineUp(w) + PushedBy(e);
    var capped, lost := CappedBy(w, e), LostBy(w, e);
    assert capped == [] <==> |InHand(w, e)| <= MAX_LOG_LINES;
    assert lost == [] <==> (Loses(w, e) ==> InHand(w, e) == []);
    forall key
      ensures Count(now, key) + Count(capped, key) + Count(lost, key) == Count(all, key)
    {
      StepAccounts(w, e, key);
      CountJoin(LineUp(w), PushedBy(e), key);
    }
    hide LineUp, Next, CappedBy, LostBy, InHand, PushedBy, Loses;
    NothingGone(now, capped, lost, all);
  }

  lemma NothingGone(now: seq<string>, capped: seq<string>, lost: seq<string>, all: seq<string>)
    requires forall key :: Count(now, key) + Count(capped, key) + Count(lost, key) == Count(all, key)
    ensures multiset(now) == multiset(all) <==> capped == [] && lost == []
  {
    assert Count(now, None) + Count(capped, None) + Count(lost, None) == Count(all, None);
    assert |multiset(now)| == |now| && |multiset(all)| == |all|;
    if capped == [] && lost == [] {
      SameLines(now, all);
    }
  }

  // ---- Whole runs ----

  function PushedIn(es: seq<Event>): seq<string> {
    if es == [] then [] else PushedIn(es[..|es| - 1]) + PushedBy(es[|es| - 1])
  }

  function CappedIn(init: World, es: seq<Event>): seq<string> {
    if es == [] then []
    else CappedIn(init, es[..|es| - 1]) + CappedBy(Run(init, es[..|es| - 1]), es[|es| - 1])
  }

  function LostIn(init: World, es: seq<Event>): seq<string> {
    if es == [] then []
    else LostIn(init, es[..|es| - 1]) + LostBy(Run(init, es[..|es| - 1]), es[|es| - 1])
  }

  /** Conservation: in every interleaving each pushed line is in exactly one place, or was dropped over the
      bound, or was thrown away by one of the two losing steps. */
  lemma {:induction false} Conservation(connected: bool, capacity: nat, es: seq<Event>, key: Option<string>)
    ensures var init := Initial(connected, capacity);
            Count(PushedIn(es), key)
            == Count(LineUp(Run(init, es)), key) + Count(CappedIn(init, es), key) + Count(LostIn(init, es), key)
  {
    if es != [] {
      var init, front, e := Initial(connected, capacity), es[..|es| - 1], es[|es| - 1];
      Conservation(connected, capacity, front, key);
      RunBounded(connected, capacity, front);
      var w := Run(init, front);
      StepAccounts(w, e, key);
      CountJoin(PushedIn(front), PushedBy(e), key);
      CountJoin(CappedIn(init, front), CappedBy(w, e), key);
      CountJoin(LostIn(init, front), LostBy(w, e), key);
      hide Next, LineUp, Count, CappedBy, LostBy, PushedBy;
    }
  }

  lemma StepStaysConnected(w: World, e: Event)
    requires w.sink.connected && w.sink.open && e != ReceiverClosed && e != Disconnected
    ensures var n := Next(w, e); n.sink.connected && n.sink.open
    ensures LostBy(w, e) == []
  {
  }

  lemma {:induction false} StaysConnected(capacity: nat, es: seq<Event>)
    requires ReceiverClosed !in es && Disconnected !in es
    ensures var init := Initial(true, capacity);
            Run(init, es).sink.connected && Run(init, es).sink.open && LostIn(init, es) == []
  {
    hide Next, LostBy;
    if es != [] {
      var front, e := es[..|es| - 1], es[|es| - 1];
      assert es == front + [e] && e in es;
      StaysConnected(capacity, front);
      StepStaysConnected(Run(Initial(true, capacity), front), e);
    }
  }

  /** No step of the run has more lines in hand than the bound: the cap is not hit. */
  predicate NeverOver(init: World, es: seq<Event>) {
    es == []
    || (NeverOver(init, es[..|es| - 1])
        && |InHand(Run(init, es[..|es| - 1]), es[|es| - 1])| <= MAX_LOG_LINES)
  }

  /** No update that holds lines meets a closed channel, and no such final update is without a sender. */
  predicate NeverLoses(init: World, es: seq<Event>) {
    es == []
    || (NeverLoses(init, es[..|es| - 1])
        && (Loses(Run(init, es[..|es| - 1]), es[|es| - 1]) ==> InHand(Run(init, es[..|es| - 1]), es[|es| - 1]) == []))
  }

  lemma {:induction false} NothingCappedIff(init: World, es: seq<Event>)
    ensures NeverOver(init, es) <==> CappedIn(init, es) == []
  {
    hide InHand, Next;
    if es != [] {
      NothingCappedIff(init, es[..|es| - 1]);
    }
  }

  lemma {:induction false} NothingLostIff(init: World, es: seq<Event>)
    ensures NeverLoses(init, es) <==> LostIn(init, es) == []
  {
    hide InHand, Next, Loses;
    if es != [] {
      NothingLostIff(init, es[..|es| - 1]);
    }
  }

  /** A run that pushes no more lines than the bound does not hit the cap. */
  lemma {:induction false} FewNeverOver(connected: bool, capacity: nat, es: seq<Event>)
    requires |PushedIn(es)| <= MAX_LOG_LINES
    ensures NeverOver(Initial(connected, capacity), es)
  {
    if es != [] {
      var init, front, e := Initial(connected, capacity), es[..|es| - 1], es[|es| - 1];
      FewNeverOver(connected, capacity, front);
      Conservation(connected, capacity, front, None);
      InHandFits(Run(init, front), e);
      hide LineUp, InHand;
    }
  }

  lemma InHandFits(w: World, e: Event)
    ensures |InHand(w, e)| <= |LineUp(w)| + |PushedBy(e)|
  {
    if e.FinishFailed? && e.i < |w.flights| {
      LinesSplit(w.flights, e.i);
    }
    hide Lines;
  }

  /** In every interleaving: each pushed line is received, queued, in flight or held, if and only if the cap is
      never hit and no losing step is taken with lines in hand. */
  lemma EveryLineIsSomewhereIff(connected: bool, capacity: nat, es: seq<Event>)
    ensures var init := Initial(connected, capacity);
            multiset(LineUp(Run(init, es))) == multiset(PushedIn(es)) <==> NeverOver(init, es) && NeverLoses(init, es)
    ensures var init := Initial(connected, capacity);
            NeverOver(init, es) && NeverLoses(init, es) ==> |LineUp(Run(init, es))| == |PushedIn(es)|
  {
    var init := Initial(connected, capacity);
    NothingCappedIff(init, es);
    NothingLostIff(init, es);
    var now, all := LineUp(Run(init, es)), PushedIn(es);
    forall key
      ensures Count(now, key) + Count(CappedIn(init, es), key) + Count(LostIn(init, es), key) == Count(all, key)
    {
      Conservation(connected, capacity, es, key);
    }
    hide Run, LineUp, PushedIn, CappedIn, LostIn, NeverOver, NeverLoses;
    NothingGone(now, CappedIn(init, es), LostIn(init, es), all);
    assert Count(now, None) + Count(CappedIn(init, es), None) + Count(LostIn(init, es), None) == Count(all, None);
  }

  /** While the sink is connected and the cap is not hit, no line is lost in any interleaving, however many are
      pushed. */
  lemma EveryLineIsSomewhere(capacity: nat, es: seq<Event>)
    requires ReceiverClosed !in es && Disconnected !in es && NeverOver(Initial(true, capacity), es)
    ensures multiset(LineUp(Run(Initial(true, capacity), es))) == multiset(PushedIn(es))
    ensures |LineUp(Run(Initial(true, capacity), es))| == |PushedIn(es)|
  {
    StaysConnected(capacity, es);
    NothingLostIff(Initial(true, capacity), es);
    hide *;
    EveryLineIsSomewhereIff(true, capacity, es);
  }

  function WarningsIn(es: seq<Event>): seq<string> {
    if es == [] then []
    else WarningsIn(es[..|es| - 1]) + if es[|es| - 1].Posted? then Warned(es[|es| - 1].change) else []
  }

  /** Warnings are all kept, in order, whatever happens to the channel and the log. */
  lemma {:induction false} WarningsKept(connected: bool, capacity: nat, es: seq<Event>)
    ensures Run(Initial(connected, capacity), es).sink.warnings == WarningsIn(es)
  {
    if es != [] {
      WarningsKept(connected, capacity, es[..|es| - 1]);
    }
  }

  // ---- Order ----

  /** `a` is `b` with some elements left out. */
  predicate Subsequence(a: seq<string>, b: seq<string>)
    decreases |b|
  {
    if b == [] then a == []
    else
      || Subsequence(a, b[..|b| - 1])
      || (a != [] && a[|a| - 1] == b[|b| - 1] && Subsequence(a[..|a| - 1], b[..|b| - 1]))
  }

  lemma {:induction false} SubsequenceFull(a: seq<string>, b: seq<string>)
    requires Subsequence(a, b)
    ensures |a| <= |b|
    ensures |a| == |b| ==> a == b
    decreases |b|
  {
    if b != [] {
      var front := b[..|b| - 1];
      if Subsequence(a, front) {
        SubsequenceFull(a, front);
      } else {
        SubsequenceFull(a[..|a| - 1], front);
        assert a == a[..|a| - 1] + [a[|a| - 1]] && b == front + [b[|b| - 1]];
      }
    }
  }

  lemma {:induction false} SubsequenceMore(a: seq<string>, b: seq<string>, c: seq<string>)
    requires Subsequence(a, b)
    ensures Subsequence(a + c, b + c)
    decreases |c|
  {
    if c == [] {
      assert a + c == a && b + c == b;
    } else {
      var front, x := c[..|c| - 1], c[|c| - 1];
      SubsequenceMore(a, b, front);
      assert (b + c)[..|b + c| - 1] == b + front && (a + c)[..|a + c| - 1] == a + front;
    }
  }

  lemma {:induction false} DropLast(a: seq<string>, x: seq<string>, b: seq<string>)
    requires Subsequence(a + x, b)
    ensures Subsequence(a, b)
    decreases |b|
  {
    if x == [] {
      assert a + x == a;
    } else if b != [] {
      var front := b[..|b| - 1];
      if Subsequence(a + x, front) {
        DropLast(a, x, front);
      } else {
        assert (a + x)[..|a + x| - 1] == a + x[..|x| - 1];
        DropLast(a, x[..|x| - 1], front);
      }
    }
  }

  lemma {:induction false} DropMiddle(a: seq<string>, x: seq<string>, y: seq<string>, b: seq<string>)
    requires Subsequence(a + x + y, b)
    ensures Subsequence(a + y, b)
    decreases |b|
  {
    if y == [] {
      assert a + x + y == a + x && a + y == a;
      DropLast(a, x, b);
    } else {
      var front := b[..|b| - 1];
      if Subsequence(a + x + y, front) {
        DropMiddle(a, x, y, front);
      } else {
        assert (a + x + y)[..|a + x + y| - 1] == a + x + y[..|y| - 1];
        DropMiddle(a, x, y[..|y| - 1], front);
        assert (a + y)[..|a + y| - 1] == a + y[..|y| - 1];
      }
    }
  }

  /** Nothing is pushed while a `finish` waits. */
  predicate Sequential(init: World, es: seq<Event>) {
    es == []
    || (Sequential(init, es[..|es| - 1])
        && (Run(init, es[..|es| - 1]).flights == [] || PushedBy(es[|es| - 1]) == []))
  }

  predicate Quiet(w: World) {
    |w.flights| <= 1 && (w.flights != [] ==> w.sink.state.log == [])
  }

  /** Dropping the excess, and then maybe the rest, leaves a subsequence. */
  lemma CapKeepsOrder(ahead: seq<string>, held: seq<string>, more: seq<string>, pushed: seq<string>)
    requires Subsequence(ahead + held, pushed)
    ensures Subsequence(ahead + CapLog(held + more), pushed + more) && Subsequence(ahead, pushed + more)
  {
    var x, y := Excess(held + more), CapLog(held + more);
    CapSplits(held + more);
    hide Excess, CapLog, Subsequence;
    SubsequenceMore(ahead + held, pushed, more);
    assert (ahead + held) + more == ahead + (held + more) == ahead + (x + y) == ahead + x + y;
    DropMiddle(ahead, x, y, pushed + more);
    DropLast(ahead, y, pushed + more);
  }

  lemma PostedKeepsOrder(w: World, e: Event, pushed: seq<string>)
    requires Bounded(w) && Quiet(w) && Subsequence(LineUp(w), pushed) && e.Posted?
    requires w.flights == [] || PushedBy(e) == []
    ensures Quiet(Next(w, e)) && Subsequence(LineUp(Next(w, e)), pushed + PushedBy(e))
  {
    var n, kept := Next(w, e), CapLog(InHand(w, e));
    var d, q, f := Lines(w.delivered), Lines(w.sink.queue), Lines(w.flights);
    PostParts(w.sink, e.change, Room(w, e.granted));
    EditedLog(w.sink.state, e.change);
    LinesSnoc(w.sink.queue, Edited(w.sink.state, e.change));
    CapKeepsOrder(d + q + f, w.sink.state.log, PushedBy(e), pushed);
    assert Lines([]) == [] && CapLog([]) == [];
    hide Post, Edited, Lines, CapLog, Subsequence;
    if w.flights == [] {
      PostedLineUp(d, q, kept);
    } else {
      assert InHand(w, e) == [];
      PostedLineUp(d, q, f);
    }
  }

  lemma PostedLineUp(d: seq<string>, q: seq<string>, x: seq<string>)
    ensures d + (q + x) + [] + [] == d + q + [] + x == d + q + x
    ensures d + q + x + [] == d + q + x == d + (q + []) + x + []
    ensures d + q + [] + [] == d + q == d + q + []
    ensures d + q + ([] + x) + [] == d + q + [] + x
  {
  }

  lemma FinishKeepsOrder(w: World, e: Event, pushed: seq<string>)
    requires Quiet(w) && Subsequence(LineUp(w), pushed) && e.FinishBegun? && w.flights == []
    ensures Quiet(Next(w, e)) && Subsequence(LineUp(Next(w, e)), pushed + PushedBy(e))
  {
    FinishParts(w, e);
    assert |Next(w, e).flights| <= 1;
    CapKeepsOrder(Lines(w.delivered) + Lines(w.sink.queue) + Lines(w.flights), w.sink.state.log, PushedBy(e), pushed);
    assert Lines([]) == [];
    hide Next, Lines, CapLog, Subsequence, Loses;
    PostedLineUp(Lines(w.delivered), Lines(w.sink.queue), CapLog(InHand(w, e)));
  }

  lemma OthersKeepOrder(w: World, e: Event)
    requires Bounded(w) && Quiet(w) && !e.Posted? && !e.FinishBegun?
    ensures Quiet(Next(w, e)) && LineUp(Next(w, e)) == LineUp(w)
  {
    match e
    case FinishSent(i) => FlightKeepsOrder(w, e);
    case FinishFailed(i) => FlightKeepsOrder(w, e);
    case Received =>
      hide Lines;
      ReceivedParts(w);
    case _ => hide Lines;
  }

  lemma FlightKeepsOrder(w: World, e: Event)
    requires Bounded(w) && Quiet(w) && (e.FinishSent? || e.FinishFailed?)
    ensures Quiet(Next(w, e)) && LineUp(Next(w, e)) == LineUp(w)
  {
  }

  lemma CapOfOne(x: seq<string>)
    requires |x| <= MAX_LOG_LINES
    ensures x + [] == x && CapLog(x) == x && [] + x + [] == x && Lines([]) == []
  {
  }

  lemma {:induction false} OrderInvariant(connected: bool, capacity: nat, es: seq<Event>)
    requires Sequential(Initial(connected, capacity), es)
    ensures var w := Run(Initial(connected, capacity), es); Quiet(w) && Subsequence(LineUp(w), PushedIn(es))
  {
    if es != [] {
      var init, front, e := Initial(connected, capacity), es[..|es| - 1], es[|es| - 1];
      OrderInvariant(connected, capacity, front);
      RunBounded(connected, capacity, front);
      var w := Run(init, front);
      if e.Posted? {
        PostedKeepsOrder(w, e, PushedIn(front));
      } else if e.FinishBegun? {
        FinishKeepsOrder(w, e, PushedIn(front));
      } else {
        OthersKeepOrder(w, e);
        assert PushedIn(es) == PushedIn(front);
      }
    }
  }

  /** Without a concurrent `finish`, lines line up in the order they were pushed; while connected, none is
      missing if and only if the cap is not hit. */
  lemma OrderKept(connected: bool, capacity: nat, es: seq<Event>)
    requires Sequential(Initial(connected, capacity), es)
    ensures Subsequence(LineUp(Run(Initial(connected, capacity), es)), PushedIn(es))
    ensures var init := Initial(connected, capacity);
            LineUp(Run(init, es)) == PushedIn(es) <==> NeverOver(init, es) && NeverLoses(init, es)
    ensures connected && ReceiverClosed !in es && Disconnected !in es ==> NeverLoses(Initial(connected, capacity), es)
  {
    var init := Initial(connected, capacity);
    OrderInvariant(connected, capacity, es);
    SubsequenceFull(LineUp(Run(init, es)), PushedIn(es));
    EveryLineIsSomewhereIff(connected, capacity, es);
    NothingLostIff(init, es);
    if connected && ReceiverClosed !in es && Disconnected !in es {
      StaysConnected(capacity, es);
    }
    hide Run, LineUp, PushedIn, NeverOver, NeverLoses, LostIn, Subsequence, Sequential;
  }

  /** A consumer that has received everything shows the newest of all lines that were pushed, in order. */
  lemma ConsumerCatchesUp(capacity: nat, es: seq<Event>)
    requires Sequential(Initial(true, capacity), es)
    requires ReceiverClosed !in es && Disconnected !in es && NeverOver(Initial(true, capacity), es)
    requires var w := Run(Initial(true, capacity), es); w.sink.queue == [] && w.flights == [] && w.sink.state.log == []
    ensures ApplyAll(DEFAULT, Run(Initial(true, capacity), es).delivered).log == CapLog(PushedIn(es))
  {
    var w := Run(Initial(true, capacity), es);
    OrderKept(true, capacity, es);
    ConsumerShows(DEFAULT, w.delivered);
    assert LineUp(w) == Lines(w.delivered) == DEFAULT.log + Lines(w.delivered);
  }

  // ---- What the two losing steps and a concurrent `finish` do ----

  function Run2(init: World, a: Event, b: Event): World {
    Next(Next(init, a), b)
  }

  lemma RunTwo(init: World, a: Event, b: Event)
    ensures Run(init, [a, b]) == Run2(init, a, b)
  {
    assert [a, b][..1] == [a] && [a][..0] == [];
    assert Run(init, [a]) == Next(init, a);
  }

  /** The update that finds the channel closed takes its lines with it. */
  lemma ClosedChannelLosesLines(line: string)
    ensures LineUp(Run(Initial(true, 1), [ReceiverClosed, Posted(Log(line), true)])) == []
  {
    RunTwo(Initial(true, 1), ReceiverClosed, Posted(Log(line), true));
    hide CapLog;
  }

  /** A final update that cannot be sent is kept. */
  lemma FailedFinishKeepsLines(line: string)
    ensures LineUp(Run(Initial(true, 1), [FinishBegun(Completed, None, line), FinishFailed(0)])) == [line]
  {
    var init, a := Initial(true, 1), FinishBegun(Completed, None, line);
    RunTwo(init, a, FinishFailed(0));
    assert [] + [line] == [line];
    CapOfOne([line]);
    hide CapLog, Run;
    var w := Next(init, a);
    assert w.flights[0].log == [line] && w.sink.state.log == [];
    assert Without(w.flights, 0) == [];
  }

  /** The last update of a sink without a receiver, and the lines held for it, are gone. */
  lemma DisconnectedFinishLosesLines(line: string, message: string)
    ensures LineUp(Run(Initial(false, 1), [Posted(Log(line), true), FinishBegun(Completed, None, message)])) == []
  {
    RunTwo(Initial(false, 1), Posted(Log(line), true), FinishBegun(Completed, None, message));
  }

  /** Whenever a final update waits and the queue has room for two, a line logged now is queued before it. */
  lemma FinishIsOvertaken(capacity: nat, es: seq<Event>, i: nat, late: string)
    requires var w := Run(Initial(true, capacity), es);
             i < |w.flights| && w.sink.connected && w.sink.open && |w.sink.queue| + 2 <= capacity
    ensures var w := Run(Initial(true, capacity), es);
            var after := Next(Next(w, Posted(Log(late), true)), FinishSent(i));
            after.sink.queue == w.sink.queue + [PushLog(w.sink.state, late)] + [w.flights[i]]
            && PushLog(w.sink.state, late).log == CapLog(w.sink.state.log + [late])
    ensures !Sequential(Initial(true, capacity), es + [Posted(Log(late), true)])
  {
    CapacityStays(capacity, es);
    assert (es + [Posted(Log(late), true)])[..|es|] == es;
    hide Run, CapLog;
  }

  lemma {:induction false} CapacityStays(capacity: nat, es: seq<Event>)
    ensures Run(Initial(true, capacity), es).sink.capacity == capacity
  {
    if es != [] {
      CapacityStays(capacity, es[..|es| - 1]);
    }
  }

  // ---- The final update reaches the consumer ----

  /** The consumer takes in everything that is queued. */
  function Drain(w: World): World
    decreases |w.sink.queue|
  {
    if w.sink.queue == [] then w else Drain(Next(w, Received))
  }

  lemma {:induction false} DrainDelivers(w: World)
    ensures Drain(w).delivered == w.delivered + w.sink.queue
    decreases |w.sink.queue|
  {
    if w.sink.queue != [] {
      DrainDelivers(Next(w, Received));
      assert w.sink.queue == [w.sink.queue[0]] + w.sink.queue[1..];
    } else {
      assert w.delivered + [] == w.delivered;
    }
  }

  /** The world after a `finish` whose update was sent at once. */
  function Finished(w: World, status: Status, outcome: Option<string>, message: string): World {
    Next(Next(w, FinishBegun(status, outcome, message)), FinishSent(|w.flights|))
  }

  lemma FinishIsQueued(w: World, status: Status, outcome: Option<string>, message: string)
    requires w.sink.connected && w.sink.open && |w.sink.queue| < w.sink.capacity
    ensures var sent := Finished(w, status, outcome, message);
            && sent.delivered == w.delivered
            && sent.sink.queue == w.sink.queue + [Final(w.sink.state, status, outcome, message)]
  {
    var begun := Next(w, FinishBegun(status, outcome, message));
    hide CapLog, PushLog;
    assert begun.flights[|w.flights|] == Final(w.sink.state, status, outcome, message);
  }

  lemma LastIsShown(before: seq<Telemetry>, update: Telemetry)
    ensures var shown := ApplyAll(DEFAULT, before + [update]);
            shown.(log := []) == update.(log := []) && shown.log == CapLog(Lines(before) + update.log)
  {
    ConsumerShows(DEFAULT, before + [update]);
    LinesSnoc(before, update);
    hide ApplyAll, Lines, CapLog;
    assert DEFAULT.log + Lines(before + [update]) == Lines(before) + update.log;
  }

  /** Whatever happened before: a `finish` that finds an open channel with room makes a consumer that takes in all
      that is queued show its status, outcome and message, no gauge, and the message as the newest line. */
  lemma FinishIsShown(capacity: nat, es: seq<Event>, status: Status, outcome: Option<string>, message: string)
    requires var w := Run(Initial(true, capacity), es);
             w.sink.connected && w.sink.open && |w.sink.queue| < capacity
    ensures var w := Run(Initial(true, capacity), es);
            var shown := ApplyAll(DEFAULT, Drain(Finished(w, status, outcome, message)).delivered);
            && shown.status == status && shown.outcome == outcome && shown.statusMessage == message
            && shown.verifyProgress == None && shown.bytesProcessed == w.sink.state.bytesProcessed
            && shown.log != [] && shown.log[|shown.log| - 1] == message
  {
    CapacityStays(capacity, es);
    var w := Run(Initial(true, capacity), es);
    hide Run;
    FinishIsQueued(w, status, outcome, message);
    hide Finished, Drain, ApplyAll, Lines;
    var update := Final(w.sink.state, status, outcome, message);
    DrainDelivers(Finished(w, status, outcome, message));
    assert w.delivered + (w.sink.queue + [update]) == (w.delivered + w.sink.queue) + [update];
    LastIsShown(w.delivered + w.sink.queue, update);
    NewestLine(w.sink.state.log, message, Lines(w.delivered + w.sink.queue));
  }

  lemma NewestLine(held: seq<string>, message: string, shown: seq<string>)
    ensures var log := CapLog(shown + CapLog(held + [message])); log != [] && log[|log| - 1] == message
  {
  }
}
