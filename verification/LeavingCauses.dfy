/**
 Why a reader leaves its loop, and when it reports a failed read.
 */
module LeavingCauses {
  import opened Bytes
  import opened CloseHandshake

  /** Out of the loop, or sending the last thing before. */
  predicate Gone(r: ReaderPc) {
    r.Exiting? || r.LastStore? || r.Done?
    || ((r.LockWait? || r.SendCheck? || r.SendWrite? || r.Unlock?) && r.after.LeaveLoop?)
  }

  /** While its flag is set, a reader is gone only for a failed read or a hang-up; a failed read is
      reported on port 0 only, and there always; and no reader goes on after one. */
  predicate Caused(s: State) {
    var failed := DidRead(Failed) in s.actions;
    && (s.reader.EndRead? ==> DidRead(s.reader.ret) in s.actions)
    && (Gone(s.reader) && s.run ==> failed || !s.driver)
    && (DidReport in s.actions ==> s.port == 0 && failed)
    && (failed ==> Gone(s.reader) || (s.reader.EndRead? && s.reader.ret.Failed?))
    && (failed && Gone(s.reader) && s.run && s.port == 0 ==> DidReport in s.actions)
  }

  lemma NextGone(r: ReaderPc, port: nat, run: bool, run0: bool, out: Outcome)
    requires Ready(r, out) && Gone(r)
    ensures Gone(Next(r, port, run, run0, out))
    ensures forall x :: x in Acts(r, port, run, out) ==> x.DidWrite?
  {
  }

  /** The steps that take a reader out of the loop. */
  lemma NextLeaves(r: ReaderPc, port: nat, run: bool, run0: bool, out: Outcome)
    requires Ready(r, out) && !Gone(r) && Gone(Next(r, port, run, run0, out)) && run
    ensures (r.Polled? && r.events.hangup && !r.events.readable) || (r.EndRead? && r.ret.Failed?)
  {
  }

  lemma NextStays(r: ReaderPc, port: nat, run: bool, run0: bool, out: Outcome)
    requires Ready(r, out) && !Gone(r) && !Gone(Next(r, port, run, run0, out))
    ensures !(r.EndRead? && r.ret.Failed?)
    ensures DidReport !in Acts(r, port, run, out)
    ensures Next(r, port, run, run0, out).EndRead? <==> r.Reading?
    ensures DidRead(Failed) in Acts(r, port, run, out) <==> r.Reading? && out.ret.Failed?
  {
  }

  lemma GoneStepCaused(s: State, out: Outcome)
    requires ReaderEnabled(s, out) && Gone(s.reader)
    ensures Caused(s) ==> Caused(ApplyReader(s, out))
  {
    NextGone(s.reader, s.port, s.run, Running0(s), out);
  }

  lemma LeavingStepCaused(s: State, out: Outcome)
    requires ReaderEnabled(s, out) && !Gone(s.reader) && Gone(ApplyReader(s, out).reader)
    ensures Caused(s) ==> Caused(ApplyReader(s, out))
  {
    if s.run {
      NextLeaves(s.reader, s.port, s.run, Running0(s), out);
    }
    if s.reader.EndRead? && s.reader.ret.Failed? && s.run && s.port == 0 {
      assert DidReport in [DidReport];
    }
  }

  lemma LoopStepCaused(s: State, out: Outcome)
    requires ReaderEnabled(s, out) && !Gone(s.reader) && !Gone(ApplyReader(s, out).reader)
    ensures Caused(s) ==> Caused(ApplyReader(s, out))
  {
    NextStays(s.reader, s.port, s.run, Running0(s), out);
    if s.reader.Reading? {
      assert DidRead(out.ret) in [DidRead(out.ret)];
    }
  }

  lemma ReaderStepCaused(s: State, out: Outcome)
    requires ReaderEnabled(s, out)
    ensures Caused(s) ==> Caused(ApplyReader(s, out))
  {
    if Gone(s.reader) {
      GoneStepCaused(s, out);
    } else if Gone(ApplyReader(s, out).reader) {
      LeavingStepCaused(s, out);
    } else {
      LoopStepCaused(s, out);
    }
  }

  /** A step that leaves the reader alone and sets no flag again. */
  lemma OtherStepCaused(s: State, u: State)
    requires u.reader == s.reader && u.actions == s.actions && u.port == s.port
    requires (u.run ==> s.run) && (u.driver ==> s.driver)
    ensures Caused(s) ==> Caused(u)
  {
  }

  lemma CloserStepLeavesReader(s: State)
    ensures var u := ApplyCloser(s);
            && u.reader == s.reader && u.actions == s.actions && u.port == s.port
            && (u.run ==> s.run) && (u.driver ==> s.driver)
  {
    match s.closer
    case Open =>
    case RunCleared =>
    case BusyWait =>
    case _ =>
  }

  lemma OtherStepLeavesReader(s: State, step: Step)
    requires Enabled(s, step) && !step.ReaderStep?
    ensures var u := Apply(s, step);
            && u.reader == s.reader && u.actions == s.actions && u.port == s.port
            && (u.run ==> s.run) && (u.driver ==> s.driver)
  {
    if step.CloserStep? {
      CloserStepLeavesReader(s);
    }
  }

  lemma StepCaused(s: State, step: Step)
    requires Enabled(s, step)
    ensures Caused(s) ==> Caused(Apply(s, step))
  {
    if step.ReaderStep? {
      ReaderStepCaused(s, step.out);
    } else {
      OtherStepLeavesReader(s, step);
      OtherStepCaused(s, Apply(s, step));
    }
  }

  /** In every run, in any interleaving with the closer and other threads. */
  lemma {:induction false} RunCaused(s: State, steps: seq<Step>)
    requires Caused(s) && CanRun(s, steps)
    ensures Caused(RunSteps(s, steps))
    decreases |steps|
  {
    if steps != [] {
      StepCaused(s, steps[0]);
      RunCaused(Apply(s, steps[0]), steps[1..]);
    }
  }

  lemma EveryLeavingHasCause(port: nat, steps: seq<Step>)
    requires CanRun(Init(port), steps)
    ensures Caused(RunSteps(Init(port), steps))
  {
    RunCaused(Init(port), steps);
  }

  // ----- the exit signal -----

  /** Stopped, and told so by the exit signal of the last poll; or out of the loop. */
  predicate Signalled(s: State) {
    (s.reader.Polled? && s.reader.events.signal && !s.run) || s.reader.Exiting? || s.reader.LastStore? || s.reader.Done?
  }

  lemma StepStaysSignalled(s: State, step: Step)
    requires Enabled(s, step) && Signalled(s)
    ensures Signalled(Apply(s, step)) && Apply(s, step).actions == s.actions
  {
    if step.CloserStep? {
      CloserStepLeavesReader(s);
    }
  }

  /** After a stop, a reader that sees the exit signal reads, sends and logs nothing more, even if the same
      poll showed data. */
  lemma {:induction false} NothingAfterSignal(s: State, steps: seq<Step>)
    requires Signalled(s) && CanRun(s, steps)
    ensures Signalled(RunSteps(s, steps)) && RunSteps(s, steps).actions == s.actions
    decreases |steps|
  {
    if steps != [] {
      StepStaysSignalled(s, steps[0]);
      NothingAfterSignal(Apply(s, steps[0]), steps[1..]);
    }
  }
}
