/** Progress updates and the sink that forwards them without ever blocking. */
module Progress {
  import opened Wrappers

  const MAX_LOG_LINES: nat := 1000

  datatype Status = Idle | Preparing | Acquiring | Flushing | Verifying | SourceReread | Finalizing | Completed
                  | Failed(reason: string) | Aborted

  datatype PhaseProgress = PhaseProgress(bytesDone: nat, totalBytes: nat)

  datatype Telemetry = Telemetry(
    status: Status,
    bytesProcessed: nat,
    statusMessage: string,
    log: seq<string>,
    verifyProgress: Option<PhaseProgress>,
    outcome: Option<string>)

  const DEFAULT: Telemetry := Telemetry(Idle, 0, "Ready to start acquisition", [], None, None)

  // ---- The bounded log ----

  /** The oldest lines, those over the bound. */
  function Excess(lines: seq<string>): seq<string> {
    if |lines| > MAX_LOG_LINES then lines[..|lines| - MAX_LOG_LINES] else []
  }

  /** The newest lines, at most MAX_LOG_LINES of them. */
  function CapLog(lines: seq<string>): seq<string> {
    if |lines| > MAX_LOG_LINES then lines[|lines| - MAX_LOG_LINES..] else lines
  }

  lemma CapSplits(lines: seq<string>)
    ensures Excess(lines) + CapLog(lines) == lines && |CapLog(lines)| <= MAX_LOG_LINES
  {
  }

  lemma CapOfCap(a: seq<string>, b: seq<string>)
    ensures CapLog(CapLog(a) + b) == CapLog(a + b)
  {
  }

  function PushLog(t: Telemetry, line: string): Telemetry {
    t.(statusMessage := line, log := CapLog(t.log + [line]))
  }

  /** Consumer: every field of `update`, its lines appended. */
  function ApplyUpdate(t: Telemetry, update: Telemetry): Telemetry {
    update.(log := CapLog(t.log + update.log))
  }

  function ApplyAll(t: Telemetry, updates: seq<Telemetry>): Telemetry {
    if updates == [] then t else ApplyUpdate(ApplyAll(t, updates[..|updates| - 1]), updates[|updates| - 1])
  }

  /** All lines of the updates, one after the other. */
  function Lines(updates: seq<Telemetry>): seq<string> {
    if updates == [] then [] else Lines(updates[..|updates| - 1]) + updates[|updates| - 1].log
  }

  /** A consumer shows the newest lines of everything it received, and the fields of the last update. */
  lemma {:induction false} ConsumerShows(t: Telemetry, updates: seq<Telemetry>)
    requires |t.log| <= MAX_LOG_LINES
    ensures ApplyAll(t, updates).log == CapLog(t.log + Lines(updates))
    ensures updates != [] ==> ApplyAll(t, updates).(log := []) == updates[|updates| - 1].(log := [])
  {
    if updates == [] {
      assert t.log + Lines(updates) == t.log;
    } else {
      var front, last := updates[..|updates| - 1], updates[|updates| - 1];
      ConsumerShows(t, front);
      assert Lines(updates) == Lines(front) + last.log;
      assert ApplyAll(t, updates) == ApplyUpdate(ApplyAll(t, front), last);
      hide Lines, ApplyAll, CapLog;
      CapOfCap(t.log + Lines(front), last.log);
      assert t.log + Lines(updates) == t.log + Lines(front) + last.log;
    }
  }

  // ---- The edits a caller makes ----

  datatype Change = Merge(update: Telemetry) | Log(line: string) | Warn(line: string)
                  | Phase(status: Status, message: string)
                  | Gauge(bytesDone: nat, totalBytes: nat)

  function WarningText(line: string): string {
    "WARNING: " + line
  }

  /** The log lines a change adds. */
  function LinesOf(c: Change): seq<string> {
    match c
    case Merge(u) => u.log
    case Log(line) => [line]
    case Warn(line) => [WarningText(line)]
    case Phase(_, message) => [message]
    case Gauge(_, _) => []
  }

  /** The passes that read everything again have a gauge of their own. */
  function FreshGauge(status: Status): Option<PhaseProgress> {
    match status
    case Verifying => Some(PhaseProgress(0, 0))
    case SourceReread => Some(PhaseProgress(0, 0))
    case _ => None
  }

  lemma PhaseFields(t: Telemetry, status: Status, message: string)
    ensures var u := PushLog(t.(verifyProgress := FreshGauge(status)).(status := status), message);
            && u == t.(status := status, statusMessage := message, verifyProgress := FreshGauge(status), log := u.log)
            && u.log == CapLog(t.log + [message])
    ensures FreshGauge(status) == Some(PhaseProgress(0, 0)) <==> status == Verifying || status == SourceReread
    ensures FreshGauge(status) == None <==> status != Verifying && status != SourceReread
  {
  }

  function Edited(t: Telemetry, c: Change): Telemetry {
    match c
    case Merge(u) => u.(log := CapLog(t.log + u.log))
    case Log(line) => PushLog(t, line)
    case Warn(line) => PushLog(t, WarningText(line))
    case Phase(status, message) =>
      PushLog(t.(verifyProgress := FreshGauge(status)).(status := status), message)
    case Gauge(done, total) => t.(verifyProgress := Some(PhaseProgress(done, total)))
  }

  lemma EditedLog(t: Telemetry, c: Change)
    requires |t.log| <= MAX_LOG_LINES
    ensures Edited(t, c).log == CapLog(t.log + LinesOf(c))
  {
  }

  // ---- The channel and the sink ----

  /** What the sink's lock protects, and the channel behind it. */
  datatype Sink = Sink(
    connected: bool,
    state: Telemetry,
    warnings: seq<string>,
    open: bool,
    capacity: nat,
    queue: seq<Telemetry>)

  /** The state is offered to the channel; `room` says whether a permit is free. */
  function Forward(s: Sink, room: bool): Sink {
    if !s.connected then s.(state := s.state.(log := CapLog(s.state.log)))
    else if !s.open then s.(connected := false, state := s.state.(log := []))
    else if room && |s.queue| < s.capacity then s.(queue := s.queue + [s.state], state := s.state.(log := []))
    else s.(state := s.state.(log := CapLog(s.state.log)))
  }

  function Warned(c: Change): seq<string> {
    if c.Warn? then [WarningText(c.line)] else []
  }

  function Post(s: Sink, c: Change, room: bool): Sink {
    Forward(s.(state := Edited(s.state, c), warnings := s.warnings + Warned(c)), room)
  }

  /** An edited state is queued, kept, or lost with its lines. */
  lemma PostParts(s: Sink, c: Change, room: bool)
    requires |s.state.log| <= MAX_LOG_LINES
    ensures var n, u := Post(s, c, room), Edited(s.state, c);
            if s.connected && !s.open then n.queue == s.queue && n.state.log == []
            else || (n.queue == s.queue + [u] && n.state.log == [])
                 || (n.queue == s.queue && n.state.log == u.log)
  {
    EditedLog(s.state, c);
    CapSplits(s.state.log + LinesOf(c));
    hide Edited, LinesOf;
  }

  /** The state just before the last update of a run is taken out. */
  function Final(t: Telemetry, status: Status, outcome: Option<string>, message: string): Telemetry {
    PushLog(t.(status := status, outcome := outcome, verifyProgress := None), message)
  }

  datatype SendResult = Sent | Full(update: Telemetry) | Closed(update: Telemetry)

  class Channel {
    const capacity: nat
    var open: bool
    var queue: seq<Telemetry>

    constructor (capacity: nat)
      ensures this.capacity == capacity && open && queue == []
    {
      this.capacity := capacity;
      open, queue := true, [];
    }

    method TrySend(update: Telemetry, room: bool) returns (r: SendResult)
      modifies this`queue
      ensures !open ==> r == Closed(update) && queue == old(queue)
      ensures open && room && |old(queue)| < capacity ==> r == Sent && queue == old(queue) + [update]
      ensures open && !(room && |old(queue)| < capacity) ==> r == Full(update) && queue == old(queue)
    {
      if !open {
        r := Closed(update);
      } else if room && |queue| < capacity {
        queue := queue + [update];
        r := Sent;
      } else {
        r := Full(update);
      }
    }
  }

  /** The sink; each method is one hold of its lock, so clones are this same object. */
  class ProgressSink {
    const channel: Channel
    var connected: bool
    var state: Telemetry
    var warnings: seq<string>

    constructor (channel: Channel, connected: bool)
      ensures this.channel == channel
      ensures State() == Sink(connected, DEFAULT, [], channel.open, channel.capacity, channel.queue)
    {
      this.channel := channel;
      this.connected := connected;
      state, warnings := DEFAULT, [];
    }

    ghost function State(): Sink
      reads this, channel
    {
      Sink(connected, state, warnings, channel.open, channel.capacity, channel.queue)
    }

    method TakeUpdate() returns (update: Telemetry)
      modifies this`state
      ensures update == old(state) && state == old(state).(log := [])
    {
      update := state;
      state := state.(log := []);
    }

    method ForwardState(room: bool)
      modifies this, channel
      ensures State() == Forward(old(State()), room)
      ensures state == old(state).(log := state.log) && warnings == old(warnings)
      ensures connected == (old(connected) && channel.open)
      ensures var sends := old(connected) && channel.open && room && |old(channel.queue)| < channel.capacity;
              && channel.queue == (if sends then old(channel.queue) + [old(state)] else old(channel.queue))
              && state.log == if sends || (old(connected) && !channel.open) then [] else CapLog(old(state.log))
    {
      if !connected {
        state := state.(log := CapLog(state.log));
        return;
      }
      var taken := TakeUpdate();
      var sent := channel.TrySend(taken, room);
      match sent {
        case Sent =>
        case Full(update) =>
          assert update.log + [] == update.log;
          state := state.(log := CapLog(update.log + state.log));
        case Closed(_) =>
          connected := false;
      }
    }

    method Send(update: Telemetry, room: bool)
      modifies this, channel
      ensures State() == Post(old(State()), Merge(update), room)
      ensures state == update.(log := state.log) && warnings == old(warnings)
      ensures channel.queue == old(channel.queue)
              || channel.queue == old(channel.queue) + [state.(log := CapLog(old(state.log) + update.log))]
    {
      state := update.(log := CapLog(state.log + update.log));
      assert warnings == old(warnings) + Warned(Merge(update));
      ForwardState(room);
    }

    method LogLine(line: string, room: bool)
      modifies this, channel
      ensures State() == Post(old(State()), Log(line), room)
      ensures state == old(state).(statusMessage := line, log := state.log) && warnings == old(warnings)
      ensures channel.queue == old(channel.queue)
              || channel.queue == old(channel.queue) + [state.(log := CapLog(old(state.log) + [line]))]
    {
      state := PushLog(state, line);
      assert warnings == old(warnings) + Warned(Log(line));
      ForwardState(room);
    }

    method WarnOf(line: string, room: bool)
      modifies this, channel
      ensures State() == Post(old(State()), Warn(line), room)
      ensures warnings == old(warnings) + ["WARNING: " + line]
      ensures state == old(state).(statusMessage := "WARNING: " + line, log := state.log)
      ensures channel.queue == old(channel.queue)
              || channel.queue == old(channel.queue) + [state.(log := CapLog(old(state.log) + ["WARNING: " + line]))]
    {
      var text := "WARNING: " + line;
      warnings := warnings + [text];
      state := PushLog(state, text);
      ForwardState(room);
    }

    method EnterPhase(status: Status, message: string, room: bool)
      modifies this, channel
      ensures State() == Post(old(State()), Phase(status, message), room)
      ensures state.status == status && state.statusMessage == message && warnings == old(warnings)
      ensures state.verifyProgress
              == if status == Verifying || status == SourceReread then Some(PhaseProgress(0, 0)) else None
      ensures state.bytesProcessed == old(state.bytesProcessed) && state.outcome == old(state.outcome)
      ensures channel.queue == old(channel.queue)
              || channel.queue == old(channel.queue) + [state.(log := CapLog(old(state.log) + [message]))]
    {
      var gauge := FreshGauge(status);
      PhaseFields(state, status, message);
      hide CapLog, PushLog, FreshGauge, Forward;
      state := state.(verifyProgress := gauge);
      state := state.(status := status);
      state := PushLog(state, message);
      assert warnings == old(warnings) + Warned(Phase(status, message));
      ForwardState(room);
    }

    method ReportGauge(done: nat, total: nat, room: bool)
      modifies this, channel
      ensures State() == Post(old(State()), Gauge(done, total), room)
      ensures state == old(state).(verifyProgress := Some(PhaseProgress(done, total)), log := state.log)
      ensures warnings == old(warnings)
    {
      state := state.(verifyProgress := Some(PhaseProgress(done, total)));
      assert warnings == old(warnings) + Warned(Gauge(done, total));
      ForwardState(room);
    }

    /** First hold of the lock in `finish`: the update to send, and whether there is a sender. */
    method BeginFinish(status: Status, outcome: Option<string>, message: string)
      returns (sender: bool, update: Telemetry)
      modifies this`state
      ensures sender == old(connected)
      ensures update == Final(old(state), status, outcome, message)
      ensures update.status == status && update.outcome == outcome && update.statusMessage == message
      ensures update.verifyProgress == None && update.bytesProcessed == old(state.bytesProcessed)
      ensures update.log == CapLog(old(state.log) + [message])
      ensures State() == old(State()).(state := update.(log := []))
    {
      state := state.(status := status, outcome := outcome, verifyProgress := None);
      state := PushLog(state, message);
      update := TakeUpdate();
      sender := connected;
    }

    /** Second hold, after the send failed: the lines go back in front of newer ones. */
    method KeepAfterFailure(update: Telemetry)
      modifies this`state
      ensures State() == old(State()).(state := old(state).(log := CapLog(update.log + old(state.log))))
    {
      state := state.(log := CapLog(update.log + state.log));
    }

    method Disconnect()
      modifies this`connected
      ensures State() == old(State()).(connected := false)
    {
      connected := false;
    }
  }
}
