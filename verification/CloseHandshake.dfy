/**
 Closing a port against its reader thread, as a small-step system. The closer clears
 thread_running, waits while is_busying, wakes the reader and joins it; the reader polls, reads,
 parses, logs and sends in between, one step at a time. Other threads may hold the host lock.
 */
module CloseHandshake {
  import opened Bytes
  import opened HciFraming
  import opened Reassembly
  import opened ReceivePort

  /** Where the reader goes on after a packet is sent. */
  datatype After = ParseOn(buf: bytes) | BackToLoop(buf: bytes) | LeaveLoop

  datatype ReaderPc =
    | LoopCheck(buf: bytes)                     // while (thread_running)
    | Polling(buf: bytes)                       // blocked in poll
    | PollRetry(buf: bytes, events: Events)     // interrupted poll, about to check thread_running
    | Polled(buf: bytes, events: Events)
    | StartRead(buf: bytes)                     // is_busying = FALSE
    | Reading(buf: bytes)                       // blocked in read
    | EndRead(buf: bytes, ret: ReadResult)      // is_busying = TRUE
    | Parsing(buf: bytes)                       // at the top of the parse loop
    | LockWait(data: bytes, after: After)       // pthread_mutex_lock(&write2host_lock)
    | SendCheck(data: bytes, after: After)      // while ((length > 0) && thread_running of port 0)
    | SendWrite(data: bytes, after: After)
    | Unlock(after: After)
    | Exiting                                   // is_busying = FALSE
    | LastStore                                 // thread_uart_id = -1
    | Done

  /** What the poll set shows; an interrupted poll leaves what an earlier one put there. */
  datatype Events = Events(signal: bool, readable: bool, hangup: bool)

  datatype ReadResult = Data(chunk: bytes) | Empty | Failed

  datatype Closer = Open | RunCleared | BusyWait | Waking | JoinGate | Joined

  /** A call the reader made: a read and its result, the decision to report a failed read, a write and
      what went out, a frame given to the log. */
  datatype Action = DidRead(ret: ReadResult) | DidReport | DidWrite(data: bytes) | DidLog(frame: bytes)

  datatype State = State(
    port: nat,
    reader: ReaderPc,
    closer: Closer,
    run: bool,         // thread_running of this port
    run0: bool,        // thread_running of port 0
    busy: bool,        // is_busying
    alive: bool,       // thread_uart_id != -1
    driver: bool,      // driver_state
    lockedByOther: bool,
    actions: seq<Action>)

  /** What the system calls of one reader step return. */
  datatype Outcome = PollReturns(interrupted: bool, events: Events)
                   | ReadReturns(ret: ReadResult)
                   | WriteReturns(n: nat)
                   | Plain

  datatype Step = ReaderStep(out: Outcome) | CloserStep | ClearPort0 | OtherLocks | OtherUnlocks

  predicate Running0(s: State) {
    if s.port == 0 then s.run else s.run0
  }

  /** The reader can take a step with this outcome. */
  predicate Ready(r: ReaderPc, out: Outcome) {
    match r
    case Polling(_) => out.PollReturns?
    case Reading(buf) => out.ReadReturns? &&
      (out.ret.Data? ==> out.ret.chunk != [] && |buf| + |out.ret.chunk| <= BUFFER_SIZE)
    case SendWrite(data, _) => out.WriteReturns? && out.n <= |data|
    case Parsing(buf) => out.Plain? && buf != []
    case Done => false
    case _ => out.Plain?
  }

  predicate ReaderEnabled(s: State, out: Outcome) {
    Ready(s.reader, out) && (s.reader.LockWait? ==> !s.lockedByOther)
  }

  function Resume(after: After): ReaderPc {
    match after
    case ParseOn(buf) => Parsing(buf)
    case BackToLoop(buf) => LoopCheck(buf)
    case LeaveLoop => Exiting
  }

  /** What one iteration of the parse loop leads to. */
  function NextAfterPass(buf: bytes, p: PassResult): ReaderPc {
    var after := if p.more then ParseOn(p.rest) else BackToLoop(p.rest);
    if p.spins then Parsing(buf)
    else if SendsPacket(p) then LockWait(p.segs[0].data, after)
    else Resume(after)
  }

  predicate SendsPacket(p: PassResult) {
    p.segs != [] && p.segs[0].Frame? && !IsLog(p.segs[0].data)
  }

  /** Where a reader step leads, given both running flags. */
  function Next(r: ReaderPc, port: nat, run: bool, run0: bool, out: Outcome): ReaderPc
    requires Ready(r, out)
  {
    match r
    case LoopCheck(buf) => if run then Polling(buf) else Exiting
    case Polling(buf) => if out.interrupted then PollRetry(buf, out.events) else Polled(buf, out.events)
    case PollRetry(buf, events) => if run then Polling(buf) else Polled(buf, events)
    case Polled(buf, events) =>
      if events.signal && !run then Exiting
      else if events.readable then StartRead(buf)
      else if events.hangup then Exiting
      else LoopCheck(buf)
    case StartRead(buf) => Reading(buf)
    case Reading(buf) => EndRead(buf, out.ret)
    case EndRead(buf, ret) =>
      (match ret
       case Empty => if run then LoopCheck(buf) else Exiting
       case Failed => if run && port == 0 then LockWait(HW_ERROR_EVENT, LeaveLoop) else Exiting
       case Data(chunk) => Parsing(buf + chunk))
    case Parsing(buf) => NextAfterPass(buf, Pass(buf))
    case LockWait(data, after) => SendCheck(data, after)
    case SendCheck(data, after) => if data != [] && run0 then SendWrite(data, after) else Unlock(after)
    case SendWrite(data, after) => SendCheck(data[out.n..], after)
    case Unlock(after) => Resume(after)
    case Exiting => LastStore
    case LastStore => Done
  }

  /** The read, write or log call a reader step makes. */
  function Acts(r: ReaderPc, port: nat, run: bool, out: Outcome): seq<Action>
    requires Ready(r, out)
  {
    match r
    case Reading(_) => [DidRead(out.ret)]
    case EndRead(_, ret) => if ret.Failed? && run && port == 0 then [DidReport] else []
    case SendWrite(data, _) => [DidWrite(data[..out.n])]
    case Parsing(buf) =>
      var p := Pass(buf);
      if p.segs != [] && p.segs[0].Frame? && !SendsPacket(p) then [DidLog(p.segs[0].data)] else []
    case _ => []
  }

  function ApplyReader(s: State, out: Outcome): State
    requires ReaderEnabled(s, out)
  {
    var r := s.reader;
    s.(reader := Next(r, s.port, s.run, Running0(s), out),
       busy := if r.StartRead? || r.Exiting? then false else if r.EndRead? then true else s.busy,
       alive := s.alive && !r.LastStore?,
       driver := s.driver && !(r.Polled? && HangsUp(r.events, s.run)),
       actions := s.actions + Acts(r, s.port, s.run, out))
  }

  predicate HangsUp(events: Events, run: bool) {
    events.hangup && !events.readable && !(events.signal && !run)
  }

  /** The closer; while busy it sleeps and looks again, and while the reader runs the join blocks. */
  function ApplyCloser(s: State): State {
    match s.closer
    case Open => s.(run := false, closer := RunCleared)
    case RunCleared => s.(driver := false, closer := BusyWait)
    case BusyWait => if s.busy then s else s.(closer := Waking)
    case Waking => s.(closer := JoinGate)
    case JoinGate => if s.alive && !s.reader.Done? then s else s.(closer := Joined)
    case Joined => s
  }

  predicate ReaderHoldsLock(r: ReaderPc) {
    r.SendCheck? || r.SendWrite? || r.Unlock?
  }

  predicate Enabled(s: State, step: Step) {
    match step
    case ReaderStep(out) => ReaderEnabled(s, out)
    case OtherLocks => !s.lockedByOther && !ReaderHoldsLock(s.reader)
    case _ => true
  }

  function Apply(s: State, step: Step): State
    requires Enabled(s, step)
  {
    match step
    case ReaderStep(out) => ApplyReader(s, out)
    case CloserStep => ApplyCloser(s)
    case ClearPort0 => s.(run0 := false)
    case OtherLocks => s.(lockedByOther := true)
    case OtherUnlocks => s.(lockedByOther := false)
  }

  predicate CanRun(s: State, steps: seq<Step>)
    decreases |steps|
  {
    steps == [] || (Enabled(s, steps[0]) && CanRun(Apply(s, steps[0]), steps[1..]))
  }

  function RunSteps(s: State, steps: seq<Step>): State
    requires CanRun(s, steps)
    decreases |steps|
  {
    if steps == [] then s else RunSteps(Apply(s, steps[0]), steps[1..])
  }

  function ReaderSteps(steps: seq<Step>): nat {
    if steps == [] then 0 else (if steps[0].ReaderStep? then 1 else 0) + ReaderSteps(steps[1..])
  }

  // ----- ranking -----

  /** At the top of the parse loop with a header whose computed length is zero. */
  predicate Spinning(s: State) {
    s.reader.Parsing? && ZeroCut(s.reader.buf)
  }

  function AfterRank(after: After): nat {
    match after
    case ParseOn(buf) => 4 + 6 * |buf|
    case BackToLoop(_) => 3
    case LeaveLoop => 2
  }

  /** How many more steps a reader takes once both running flags are clear. */
  function Rank(r: ReaderPc): nat {
    match r
    case Done => 0
    case LastStore => 1
    case Exiting => 2
    case LoopCheck(_) => 3
    case Parsing(buf) => 4 + 6 * |buf|
    case Unlock(after) => 1 + AfterRank(after)
    case SendCheck(_, after) => 2 + AfterRank(after)
    case SendWrite(_, after) => 3 + AfterRank(after)
    case LockWait(_, after) => 3 + AfterRank(after)
    case EndRead(buf, ret) => 5 + 6 * (|buf| + if ret.Data? then |ret.chunk| else 0)
    case Reading(buf) => 6 + 6 * (|buf| + BUFFER_SIZE)
    case StartRead(buf) => 7 + 6 * (|buf| + BUFFER_SIZE)
    case Polled(buf, _) => 8 + 6 * (|buf| + BUFFER_SIZE)
    case PollRetry(buf, _) => 9 + 6 * (|buf| + BUFFER_SIZE)
    case Polling(buf) => 10 + 6 * (|buf| + BUFFER_SIZE)
  }

  lemma PassLowersRank(buf: bytes, p: PassResult)
    requires !p.spins && buf != [] && (p.more || p.segs != [] ==> |p.rest| < |buf|)
    ensures Rank(NextAfterPass(buf, p)) < Rank(Parsing(buf))
  {
  }

  /** With both flags clear, every step of the reader but an iteration that spins lowers its rank. */
  lemma StepLowersRank(r: ReaderPc, port: nat, out: Outcome)
    requires Ready(r, out) && !(r.Parsing? && ZeroCut(r.buf))
    ensures Rank(Next(r, port, false, false, out)) < Rank(r)
  {
    if r.Parsing? {
      PassShrinks(r.buf);
      PassLowersRank(r.buf, Pass(r.buf));
    }
  }

  lemma PassShrinks(buf: bytes)
    requires buf != [] && !ZeroCut(buf)
    ensures var p := Pass(buf);
            !p.spins && (p.more ==> p.rest != []) && (p.more || p.segs != [] ==> |p.rest| < |buf|)
  {
    if !Accepted(buf[0]) {
      assert FindValidType(buf) > 0;
    }
  }

  /** No state of the run, up to its end, is spinning. */
  predicate NeverSpins(s: State, steps: seq<Step>)
    requires CanRun(s, steps)
    decreases |steps|
  {
    !Spinning(s) && (steps == [] || NeverSpins(Apply(s, steps[0]), steps[1..]))
  }

  /** From s to t the reader took n steps, and its rank came down by at least as many. */
  predicate RankPaid(s: State, t: State, n: nat) {
    Rank(t.reader) + n <= Rank(s.reader)
  }

  lemma StepPays(s: State, step: Step)
    requires Enabled(s, step) && !s.run && !Running0(s) && !Spinning(s)
    ensures var t := Apply(s, step);
            RankPaid(s, t, if step.ReaderStep? then 1 else 0) && !t.run && !Running0(t)
  {
    if step.ReaderStep? {
      StepLowersRank(s.reader, s.port, step.out);
    }
  }

  /** Once both flags are clear, every run takes at most Rank steps of the reader, whatever the
      other threads do between them. */
  lemma {:induction false} ReaderStepsAreBounded(s: State, steps: seq<Step>)
    requires CanRun(s, steps) && !s.run && !Running0(s) && NeverSpins(s, steps)
    ensures RankPaid(s, RunSteps(s, steps), ReaderSteps(steps))
    decreases |steps|
  {
    if steps != [] {
      StepPays(s, steps[0]);
      ReaderStepsAreBounded(Apply(s, steps[0]), steps[1..]);
    }
  }

  /** Until it is done the reader can always step, unless another thread holds the lock it waits for. */
  lemma ReaderCanStep(s: State)
    requires !s.reader.Done? && (s.reader.Parsing? ==> s.reader.buf != [])
    requires s.reader.LockWait? ==> !s.lockedByOther
    ensures exists out :: ReaderEnabled(s, out)
  {
    var out :=
      if s.reader.Polling? then PollReturns(false, Events(false, false, false))
      else if s.reader.Reading? then ReadReturns(Empty)
      else if s.reader.SendWrite? then WriteReturns(0)
      else Plain;
    assert ReaderEnabled(s, out);
  }

  // ----- invariants -----

  function Init(port: nat): State {
    State(port, LoopCheck([]), Open, true, true, false, true, true, false, [])
  }

  predicate AfterSound(after: After) {
    match after
    case ParseOn(buf) => 0 < |buf| <= BUFFER_SIZE
    case BackToLoop(buf) => |buf| <= BUFFER_SIZE
    case LeaveLoop => true
  }

  /** The bytes a reader holds fit its buffer. */
  predicate ReaderSound(r: ReaderPc) {
    match r
    case Done | LastStore | Exiting => true
    case EndRead(buf, ret) => |buf| <= BUFFER_SIZE &&
      (ret.Data? ==> ret.chunk != [] && |buf| + |ret.chunk| <= BUFFER_SIZE)
    case Parsing(buf) => 0 < |buf| <= BUFFER_SIZE
    case LockWait(_, after) => AfterSound(after)
    case SendCheck(_, after) => AfterSound(after)
    case SendWrite(_, after) => AfterSound(after)
    case Unlock(after) => AfterSound(after)
    case _ => |r.buf| <= BUFFER_SIZE
  }

  /** Inside the parse loop, sends included. */
  predicate InParseLoop(r: ReaderPc) {
    r.Parsing? || ((r.LockWait? || r.SendCheck? || r.SendWrite? || r.Unlock?) && r.after.ParseOn?)
  }

  predicate Inv(s: State) {
    && ReaderSound(s.reader)
    && (s.alive <==> !s.reader.Done?)
    && (s.reader.Done? || s.reader.LastStore? || s.reader.Reading? ==> !s.busy)
    && (InParseLoop(s.reader) ==> s.busy)
    && (!s.closer.Open? ==> !s.run)
    && (!s.closer.Open? && !s.closer.RunCleared? ==> !s.driver)
    && (s.closer.Joined? ==> s.reader.Done?)
  }

  lemma PassKeepsSound(buf: bytes, p: PassResult)
    requires 0 < |buf| <= BUFFER_SIZE && |p.rest| <= |buf| && (p.more ==> p.rest != [])
    ensures ReaderSound(NextAfterPass(buf, p))
  {
  }

  lemma StepKeepsSound(r: ReaderPc, port: nat, run: bool, run0: bool, out: Outcome)
    requires ReaderSound(r) && Ready(r, out)
    ensures ReaderSound(Next(r, port, run, run0, out))
  {
    if r.Parsing? {
      var p := Pass(r.buf);
      assert |p.rest| <= |r.buf| && (p.more ==> p.rest != []);
      PassKeepsSound(r.buf, p);
    }
  }

  lemma ReaderStepKeepsInv(s: State, out: Outcome)
    requires Inv(s) && ReaderEnabled(s, out)
    ensures Inv(ApplyReader(s, out))
  {
    StepKeepsSound(s.reader, s.port, s.run, Running0(s), out);
    if InParseLoop(ApplyReader(s, out).reader) {
      EntersParseLoop(s.reader, s.port, s.run, Running0(s), out);
    }
  }

  lemma EntersParseLoop(r: ReaderPc, port: nat, run: bool, run0: bool, out: Outcome)
    requires Ready(r, out) && InParseLoop(Next(r, port, run, run0, out))
    ensures r.EndRead? || InParseLoop(r)
  {
  }

  lemma StepKeepsInv(s: State, step: Step)
    requires Inv(s) && Enabled(s, step)
    ensures Inv(Apply(s, step))
  {
    if step.ReaderStep? {
      ReaderStepKeepsInv(s, step.out);
    }
  }

  // ----- results -----

  /** Past the join the reader is gone, whatever ran before: and no later step of any thread reads,
      writes or logs on its behalf. */
  lemma {:induction false} NothingPastJoin(s: State, steps: seq<Step>)
    requires Inv(s) && CanRun(s, steps)
    ensures var t := RunSteps(s, steps);
            && Inv(t)
            && (t.closer.Joined? ==> t.reader.Done? && !t.busy)
            && (s.closer.Joined? ==> t.closer.Joined? && t.actions == s.actions)
    decreases |steps|
  {
    if steps != [] {
      StepKeepsInv(s, steps[0]);
      NothingPastJoin(Apply(s, steps[0]), steps[1..]);
    }
  }

  /** The closer leaves its wait only when the reader is not busy: no packet is then being cut out, sent
      or logged, the running flag is clear, and the driver is marked down. */
  lemma WaitEndsIdle(s: State, step: Step)
    requires Inv(s) && Enabled(s, step) && s.closer.BusyWait? && !Apply(s, step).closer.BusyWait?
    ensures !s.busy && !InParseLoop(s.reader) && !s.run && !s.driver
    ensures Apply(s, step).reader == s.reader
  {
  }

  lemma RankBound(r: ReaderPc)
    requires ReaderSound(r)
    ensures Rank(r) <= 10 + 12 * BUFFER_SIZE
  {
  }

  /** A reader that spins does so for ever, and busily: no run gets it out. */
  lemma {:induction false} SpinningIsForEver(s: State, steps: seq<Step>)
    requires Inv(s) && Spinning(s) && CanRun(s, steps)
    ensures Spinning(RunSteps(s, steps)) && RunSteps(s, steps).busy
    decreases |steps|
  {
    if steps != [] {
      StepKeepsInv(s, steps[0]);
      SpinningIsForEver(Apply(s, steps[0]), steps[1..]);
    }
  }

  // ----- schedules -----

  /** What a schedule does: the steps that are possible when their turn comes; the others do nothing. */
  function Taken(s: State, schedule: seq<Step>): (steps: seq<Step>)
    ensures CanRun(s, steps)
    decreases |schedule|
  {
    if schedule == [] then []
    else if Enabled(s, schedule[0]) then [schedule[0]] + Taken(Apply(s, schedule[0]), schedule[1..])
    else Taken(s, schedule[1..])
  }

  function Scheduled(s: State, schedule: seq<Step>): State {
    RunSteps(s, Taken(s, schedule))
  }

  lemma ScheduledOne(s: State, schedule: seq<Step>)
    requires schedule != []
    ensures Scheduled(s, schedule) == Scheduled(Turn(s, schedule[0]), schedule[1..])
  {
    var steps := Taken(s, schedule);
    if Enabled(s, schedule[0]) {
      assert steps[1..] == Taken(Apply(s, schedule[0]), schedule[1..]);
    }
  }

  function Turn(s: State, step: Step): State {
    if Enabled(s, step) then Apply(s, step) else s
  }

  /** How often the schedule gives the reader its turn when it can take a step or is done. */
  function Offers(s: State, schedule: seq<Step>): nat
    decreases |schedule|
  {
    if schedule == [] then 0
    else (if IsOffer(s, schedule[0]) then 1 else 0) + Offers(Turn(s, schedule[0]), schedule[1..])
  }

  predicate IsOffer(s: State, step: Step) {
    step.ReaderStep? && (s.reader.Done? || ReaderEnabled(s, step.out))
  }

  /** While no other thread holds the lock, there is a schedule with any number of offers. */
  lemma {:induction false} OffersCanBeMade(s: State, n: nat) returns (schedule: seq<Step>)
    requires Inv(s) && !s.lockedByOther
    ensures Offers(s, schedule) == n
    decreases n
  {
    if n == 0 {
      schedule := [];
    } else {
      var out := Plain;
      if !s.reader.Done? {
        ReaderCanStep(s);
        out :| ReaderEnabled(s, out);
        ReaderStepKeepsInv(s, out);
      }
      var step := ReaderStep(out);
      var rest := OffersCanBeMade(Turn(s, step), n - 1);
      schedule := [step] + rest;
      assert schedule[1..] == rest;
    }
  }

  /** A reader that was offered as many steps as its rank has left, or spins. */
  predicate EndsOrSpins(s: State) {
    if s.reader.Done? then !s.busy && !s.alive else Spinning(s) && s.busy && s.alive
  }

  lemma {:induction false} OfferedEndsOrSpins(s: State, schedule: seq<Step>)
    requires Inv(s) && !s.run && !Running0(s) && Offers(s, schedule) >= Rank(s.reader)
    ensures EndsOrSpins(Scheduled(s, schedule))
    decreases |schedule|
  {
    if Spinning(s) {
      SpinningIsForEver(s, Taken(s, schedule));
      NothingPastJoin(s, Taken(s, schedule));
    } else if schedule == [] {
      assert s.reader.Done?;
    } else {
      ScheduledOne(s, schedule);
      OneOfferLess(s, schedule[0]);
      OfferedEndsOrSpins(Turn(s, schedule[0]), schedule[1..]);
    }
  }

  /** A turn of the schedule costs the reader as much rank as it is an offer. */
  lemma OneOfferLess(s: State, step: Step)
    requires Inv(s) && !s.run && !Running0(s) && !Spinning(s)
    ensures var t := Turn(s, step);
            && Inv(t) && !t.run && !Running0(t)
            && (Rank(t.reader) + (if IsOffer(s, step) then 1 else 0) <= Rank(s.reader) || t.reader.Done?)
  {
    if Enabled(s, step) {
      StepPays(s, step);
      StepKeepsInv(s, step);
    }
  }

  /** Close terminates: once the flags of port 0 and of the port are clear, every schedule that gives the
      reader its turn Rank times (a bound that depends on the reader's control state alone) ends with
      the reader gone and not busy, or else spinning on a zero length for ever. */
  lemma CloseEndsExactly(s: State, schedule: seq<Step>)
    requires Inv(s) && !s.run && !Running0(s) && Offers(s, schedule) >= Rank(s.reader)
    ensures var t := Scheduled(s, schedule);
            && (t.reader.Done? && !t.busy && !t.alive <==> !Spinning(t))
            && (Spinning(t) ==> forall more :: CanRun(t, more) ==> RunSteps(t, more).busy)
    ensures Rank(s.reader) <= 10 + 12 * BUFFER_SIZE
  {
    RankBound(s.reader);
    OfferedEndsOrSpins(s, schedule);
    NothingPastJoin(s, Taken(s, schedule));
    var t := Scheduled(s, schedule);
    if Spinning(t) {
      forall more | CanRun(t, more) ensures RunSteps(t, more).busy {
        SpinningIsForEver(t, more);
      }
    }
  }

  /** With the reader gone, the closer that is waiting gets through in three steps. */
  lemma CloserGetsThrough(s: State)
    requires Inv(s) && s.reader.Done? && s.closer.BusyWait?
    ensures ApplyCloser(ApplyCloser(ApplyCloser(s))).closer.Joined?
  {
  }
}
