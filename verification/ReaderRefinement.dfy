/**
 The small-step reader refines the reassembler: at every point of every run, in any interleaving with
 the closer and with other threads, what it wrote and logged and what it still holds are what the
 reassembler makes of the bytes it read.
 */
module ReaderRefinement {
  import opened Bytes
  import opened Reassembly
  import opened ReceivePort
  import opened CloseHandshake

  // ----- what the calls of a run amount to -----

  /** The chunks read, the bytes written to the host, the frames logged, the report of a failed read. */
  datatype Trace = Trace(chunks: seq<bytes>, host: bytes, logs: seq<bytes>, report: bytes)

  function Add(t: Trace, x: Action): Trace {
    match x
    case DidRead(ret) => if ret.Data? then t.(chunks := t.chunks + [ret.chunk]) else t
    case DidReport => t.(report := t.report + HW_ERROR_EVENT)
    case DidWrite(data) => t.(host := t.host + data)
    case DidLog(frame) => t.(logs := t.logs + [frame])
  }

  function Effects(a: seq<Action>): Trace {
    if a == [] then Trace([], [], [], []) else Add(Effects(a[..|a| - 1]), a[|a| - 1])
  }

  lemma EffectsOf(a: seq<Action>, more: seq<Action>)
    requires |more| <= 1
    ensures Effects(a + more) == if more == [] then Effects(a) else Add(Effects(a), more[0])
  {
    if more == [] {
      assert a + more == a;
    } else {
      assert (a + more)[..|a|] == a && (a + more)[|a|] == more[0];
    }
  }

  // ----- what is still to come -----

  /** What a reader has yet to write and log, what the buffer will hold then, and whether it spins. */
  datatype Due = Due(host: bytes, logs: seq<bytes>, rest: bytes, spins: bool)

  function Nothing(buf: bytes): Due {
    Due([], [], buf, false)
  }

  function DueParse(buf: bytes): Due {
    if buf == [] then Nothing(buf)
    else
      var d := Drain(buf);
      Due(HostBytes(d.segs), LogFrames(d.segs), d.rest, d.spins)
  }

  function DueAfter(after: After): Due {
    match after
    case ParseOn(buf) => DueParse(buf)
    case BackToLoop(buf) => Nothing(buf)
    case LeaveLoop => Nothing([])
  }

  function DueSending(data: bytes, after: After): Due {
    var due := DueAfter(after);
    due.(host := data + due.host)
  }

  function DueOf(r: ReaderPc): Due {
    match r
    case Exiting | LastStore | Done => Nothing([])
    case Parsing(buf) => DueParse(buf)
    case EndRead(buf, ret) => if ret.Data? then DueParse(buf + ret.chunk) else Nothing(buf)
    case LockWait(data, after) => DueSending(data, after)
    case SendCheck(data, after) => DueSending(data, after)
    case SendWrite(data, after) => DueSending(data, after)
    case Unlock(after) => DueAfter(after)
    case _ => Nothing(r.buf)
  }

  predicate Leaving(r: ReaderPc) {
    r.Exiting? || r.LastStore? || r.Done?
    || ((r.LockWait? || r.SendCheck? || r.SendWrite? || r.Unlock?) && r.after.LeaveLoop?)
  }

  // ----- the invariant -----

  /** Everything owed was written or is still to be; or, with port 0 stopped, some first part was
      written and no more will be. */
  predicate HostAgrees(written: bytes, owed: bytes, due: bytes, stopped: bool, writing: bool) {
    written + due == owed || (stopped && !writing && written <= owed)
  }

  predicate LoopAgrees(st: Reader, due: Due, report: bytes) {
    st.buf == due.rest && report == []
  }

  /** A trace and a reader's control state agree with st, what the reassembler made of the chunks. */
  predicate Agrees(st: Reader, t: Trace, r: ReaderPc, run0: bool) {
    && LogFrames(st.segs) == t.logs + DueOf(r).logs
    && HostAgrees(t.host, HostBytes(st.segs) + t.report, DueOf(r).host, !run0, r.SendWrite?)
    && st.spins == DueOf(r).spins
    && (!Leaving(r) ==> LoopAgrees(st, DueOf(r), t.report))
    && (t.report == [] || t.report == HW_ERROR_EVENT)
  }

  predicate TraceAgrees(t: Trace, r: ReaderPc, run0: bool) {
    Feasible(t.chunks) && Agrees(Run(t.chunks), t, r, run0)
  }

  predicate Refines(s: State) {
    TraceAgrees(Effects(s.actions), s.reader, Running0(s))
  }

  // ----- every step of the reader -----

  /** The reassembler takes a chunk: what it makes of it is due. */
  lemma ChunkIsDue(st: Reader, t: Trace, d: Drained, due: Due)
    requires t.host == HostBytes(st.segs) || t.host <= HostBytes(st.segs)
    requires LogFrames(st.segs) == t.logs && due == Due(HostBytes(d.segs), LogFrames(d.segs), d.rest, d.spins)
    ensures var next := Reader(st.segs + d.segs, d.rest, d.spins);
            && LogFrames(next.segs) == t.logs + due.logs
            && t.host <= HostBytes(next.segs) + []
            && (t.host == HostBytes(st.segs) ==> t.host + due.host == HostBytes(next.segs) + [])
            && LoopAgrees(next, due, []) && next.spins == due.spins
  {
    LogFramesAppend(st.segs, d.segs);
    HostBytesAppend(st.segs, d.segs);
    var all := HostBytes(st.segs) + HostBytes(d.segs);
    assert all + [] == all;
  }

  lemma ParsedAgrees(st: Reader, t: Trace, buf: bytes, chunk: bytes, run0: bool, next: Reader)
    requires Agrees(st, t, Reading(buf), run0) && chunk != []
    requires var d := Drain(buf + chunk); next == Reader(st.segs + d.segs, d.rest, d.spins)
    ensures Agrees(next, t.(chunks := t.chunks + [chunk]), EndRead(buf, Data(chunk)), run0)
  {
    assert t.host + [] == t.host && t.logs + [] == t.logs && HostBytes(st.segs) + [] == HostBytes(st.segs);
    ChunkIsDue(st, t, Drain(buf + chunk), DueParse(buf + chunk));
  }

  lemma ReadAgrees(t: Trace, buf: bytes, chunk: bytes, run0: bool)
    requires TraceAgrees(t, Reading(buf), run0) && chunk != [] && |buf| + |chunk| <= BUFFER_SIZE
    ensures TraceAgrees(t.(chunks := t.chunks + [chunk]), EndRead(buf, Data(chunk)), run0)
  {
    RunSnoc(t.chunks, chunk);
    ParsedAgrees(Run(t.chunks), t, buf, chunk, run0, Feed(Run(t.chunks), chunk));
  }

  /** What a pass leaves due, once its packet is sent or logged. */
  lemma PassDue(buf: bytes, p: PassResult)
    requires buf != [] && p == Pass(buf) && !p.spins
    ensures var after := DueAfter(if p.more then ParseOn(p.rest) else BackToLoop(p.rest));
            DueParse(buf)
            == Due(HostBytes(p.segs) + after.host, LogFrames(p.segs) + after.logs, after.rest, after.spins)
  {
    DrainByPasses(buf);
    if p.more {
      HostBytesAppend(p.segs, Drain(p.rest).segs);
      LogFramesAppend(p.segs, Drain(p.rest).segs);
    }
  }

  lemma PassEffects(p: PassResult)
    requires |p.segs| <= 1
    ensures HostBytes(p.segs) == if SendsPacket(p) then p.segs[0].data else []
    ensures LogFrames(p.segs) == if p.segs != [] && p.segs[0].Frame? && !SendsPacket(p) then [p.segs[0].data] else []
  {
    if p.segs != [] {
      assert p.segs == [p.segs[0]];
      SinksOfOne(p.segs[0]);
    }
  }

  /** Moving a log frame from what is due to what is done. */
  lemma ParseAgrees(st: Reader, t: Trace, buf: bytes, run0: bool, p: PassResult)
    requires Agrees(st, t, Parsing(buf), run0) && buf != [] && p == Pass(buf) && !p.spins
    ensures Agrees(st, t.(logs := t.logs + LogFrames(p.segs)), NextAfterPass(buf, p), run0)
  {
    var after := if p.more then ParseOn(p.rest) else BackToLoop(p.rest);
    PassDue(buf, p);
    PassEffects(p);
    Assoc(t.logs, LogFrames(p.segs), DueAfter(after).logs);
    PassNext(buf, p, after);
  }

  lemma PassNext(buf: bytes, p: PassResult, after: After)
    requires !p.spins && after == (if p.more then ParseOn(p.rest) else BackToLoop(p.rest))
    requires HostBytes(p.segs) == if SendsPacket(p) then p.segs[0].data else []
    ensures var r, due := NextAfterPass(buf, p), DueAfter(after);
            && DueOf(r) == Due(HostBytes(p.segs) + due.host, due.logs, due.rest, due.spins)
            && !Leaving(r) && !r.SendWrite?
  {
    assert [] + DueAfter(after).host == DueAfter(after).host;
  }

  lemma ReportAgrees(st: Reader, t: Trace, buf: bytes, run0: bool)
    requires Agrees(st, t, EndRead(buf, Failed), run0)
    ensures Agrees(st, t.(report := t.report + HW_ERROR_EVENT), LockWait(HW_ERROR_EVENT, LeaveLoop), run0)
  {
    var owed := HostBytes(st.segs);
    assert t.host + [] == t.host && owed + [] == owed;
    assert [] + HW_ERROR_EVENT == HW_ERROR_EVENT + [] == HW_ERROR_EVENT;
  }

  lemma WriteAgrees(st: Reader, t: Trace, data: bytes, after: After, n: nat, run0: bool)
    requires Agrees(st, t, SendWrite(data, after), run0) && n <= |data|
    ensures Agrees(st, t.(host := t.host + data[..n]), SendCheck(data[n..], after), run0)
  {
    var due := DueAfter(after).host;
    assert t.host + (data + due) == t.host + data[..n] + (data[n..] + due);
  }

  lemma CheckAgrees(st: Reader, t: Trace, data: bytes, after: After, run0: bool)
    requires Agrees(st, t, SendCheck(data, after), run0)
    ensures Agrees(st, t, if data != [] && run0 then SendWrite(data, after) else Unlock(after), run0)
  {
    assert [] + DueAfter(after).host == DueAfter(after).host;
  }

  function AddAll(t: Trace, more: seq<Action>): Trace {
    if more == [] then t else Add(t, more[0])
  }

  /** The steps that make no call but a check of a flag, a poll or taking the lock. */
  lemma QuietAgrees(st: Reader, t: Trace, r: ReaderPc, port: nat, run: bool, run0: bool, out: Outcome)
    requires Agrees(st, t, r, run0) && Ready(r, out)
    requires !r.Reading? && !r.EndRead? && !r.Parsing? && !r.SendWrite? && !r.SendCheck?
    ensures Agrees(st, t, Next(r, port, run, run0, out), run0)
  {
  }

  lemma EndReadAgrees(st: Reader, t: Trace, r: ReaderPc, port: nat, run: bool, run0: bool, out: Outcome)
    requires Agrees(st, t, r, run0) && Ready(r, out) && r.EndRead?
    ensures Agrees(st, AddAll(t, Acts(r, port, run, out)), Next(r, port, run, run0, out), run0)
  {
    if r.ret.Failed? && run && port == 0 {
      ReportAgrees(st, t, r.buf, run0);
    }
  }

  lemma ParsingAgrees(st: Reader, t: Trace, buf: bytes, port: nat, run: bool, run0: bool, out: Outcome)
    requires Agrees(st, t, Parsing(buf), run0) && Ready(Parsing(buf), out)
    ensures Agrees(st, AddAll(t, Acts(Parsing(buf), port, run, out)), NextAfterPass(buf, Pass(buf)), run0)
  {
    var p := Pass(buf);
    if !p.spins {
      ParseAgrees(st, t, buf, run0, p);
      PassEffects(p);
      assert t.logs + [] == t.logs;
    }
  }

  lemma CallAgrees(st: Reader, t: Trace, r: ReaderPc, port: nat, run: bool, run0: bool, out: Outcome)
    requires Agrees(st, t, r, run0) && Ready(r, out) && !(r.Reading? && out.ret.Data?)
    ensures Agrees(st, AddAll(t, Acts(r, port, run, out)), Next(r, port, run, run0, out), run0)
  {
    match r
    case Reading(buf) =>
    case EndRead(_, _) => EndReadAgrees(st, t, r, port, run, run0, out);
    case Parsing(buf) => ParsingAgrees(st, t, buf, port, run, run0, out);
    case SendWrite(data, after) => WriteAgrees(st, t, data, after, out.n, run0);
    case SendCheck(data, after) => CheckAgrees(st, t, data, after, run0);
    case _ => QuietAgrees(st, t, r, port, run, run0, out);
  }

  lemma CallKeepsChunks(t: Trace, r: ReaderPc, port: nat, run: bool, out: Outcome)
    requires Ready(r, out) && !(r.Reading? && out.ret.Data?)
    ensures AddAll(t, Acts(r, port, run, out)).chunks == t.chunks
  {
  }

  lemma SameChunksAgree(t: Trace, next: Trace, r: ReaderPc, run0: bool)
    requires next.chunks == t.chunks && Feasible(t.chunks)
    ensures Agrees(Run(t.chunks), next, r, run0) ==> TraceAgrees(next, r, run0)
  {
  }

  lemma NextAgrees(t: Trace, r: ReaderPc, port: nat, run: bool, run0: bool, out: Outcome)
    requires Ready(r, out)
    ensures TraceAgrees(t, r, run0) ==>
              TraceAgrees(AddAll(t, Acts(r, port, run, out)), Next(r, port, run, run0, out), run0)
  {
    if TraceAgrees(t, r, run0) {
      if r.Reading? && out.ret.Data? {
        ReadAgrees(t, r.buf, out.ret.chunk, run0);
      } else {
        CallAgrees(Run(t.chunks), t, r, port, run, run0, out);
        CallKeepsChunks(t, r, port, run, out);
        SameChunksAgree(t, AddAll(t, Acts(r, port, run, out)), Next(r, port, run, run0, out), run0);
      }
    }
  }

  lemma StopAgrees(t: Trace, r: ReaderPc, before: bool, after: bool)
    requires TraceAgrees(t, r, before) && (after ==> before)
    ensures TraceAgrees(t, r, after)
  {
  }

  lemma ReaderStepEffects(s: State, out: Outcome)
    requires ReaderEnabled(s, out)
    ensures var u := ApplyReader(s, out);
            && Effects(u.actions) == AddAll(Effects(s.actions), Acts(s.reader, s.port, s.run, out))
            && u.reader == Next(s.reader, s.port, s.run, Running0(s), out) && Running0(u) == Running0(s)
  {
    EffectsOf(s.actions, Acts(s.reader, s.port, s.run, out));
  }

  lemma ReaderStepRefines(s: State, out: Outcome)
    requires ReaderEnabled(s, out)
    ensures Refines(s) ==> Refines(ApplyReader(s, out))
  {
    ReaderStepEffects(s, out);
    NextAgrees(Effects(s.actions), s.reader, s.port, s.run, Running0(s), out);
  }

  /** A step of another thread leaves the reader alone; it may clear a running flag. */
  lemma OtherStepRefines(s: State, u: State)
    requires u.reader == s.reader && u.actions == s.actions && (Running0(u) ==> Running0(s))
    ensures Refines(s) ==> Refines(u)
  {
    if Refines(s) {
      StopAgrees(Effects(s.actions), s.reader, Running0(s), Running0(u));
    }
  }

  lemma OtherStep(s: State, step: Step)
    requires Enabled(s, step) && !step.ReaderStep?
    ensures var u := Apply(s, step); u.reader == s.reader && u.actions == s.actions && (Running0(u) ==> Running0(s))
  {
    if step.CloserStep? {
      CloserLeavesReader(s);
    }
  }

  lemma CloserLeavesReader(s: State)
    ensures var u := ApplyCloser(s); u.reader == s.reader && u.actions == s.actions && (Running0(u) ==> Running0(s))
  {
  }

  lemma StepRefines(s: State, step: Step)
    requires Enabled(s, step)
    ensures Refines(s) ==> Refines(Apply(s, step))
  {
    if step.ReaderStep? {
      ReaderStepRefines(s, step.out);
    } else {
      OtherStep(s, step);
      OtherStepRefines(s, Apply(s, step));
    }
  }

  lemma {:induction false} RunRefines(s: State, steps: seq<Step>)
    requires Refines(s) && CanRun(s, steps)
    ensures Refines(RunSteps(s, steps))
    decreases |steps|
  {
    if steps != [] {
      StepRefines(s, steps[0]);
      RunRefines(Apply(s, steps[0]), steps[1..]);
    }
  }

  /** At every point of every run of a port's reader, its closer and the other threads: the log got the
      log packets of the bytes read, in order, up to those still to be parsed; the host stream is a
      first part of the other packets and at most one Hardware Error event behind them, all of it but for what the
      reader is about to write unless port 0 was stopped; and back at the top of the loop nothing of it
      is outstanding and the buffer is the reassembler's. */
  lemma ReaderRefinesReassembler(port: nat, steps: seq<Step>)
    requires CanRun(CloseHandshake.Init(port), steps)
    ensures var s := RunSteps(CloseHandshake.Init(port), steps); var t := Effects(s.actions);
            && Feasible(t.chunks)
            && t.logs <= LogFrames(Run(t.chunks).segs)
            && t.host <= HostBytes(Run(t.chunks).segs) + t.report
            && (t.report == [] || t.report == HW_ERROR_EVENT)
            && (s.reader.LoopCheck? ==>
                  && s.reader.buf == Run(t.chunks).buf && !Run(t.chunks).spins && t.report == []
                  && t.logs == LogFrames(Run(t.chunks).segs)
                  && (Running0(s) ==> t.host == HostBytes(Run(t.chunks).segs)))
  {
    var s := CloseHandshake.Init(port);
    RunRefines(s, steps);
    var u := RunSteps(s, steps);
    var t := Effects(u.actions);
    if u.reader.LoopCheck? {
      assert t.logs + [] == t.logs && t.host + [] == t.host;
      assert HostBytes(Run(t.chunks).segs) + [] == HostBytes(Run(t.chunks).segs);
    }
  }
}
