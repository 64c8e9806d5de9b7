/**
 How closing a port ends, told by the bytes its reader has read: the reader is gone unless those bytes
 make the reassembler spin, which well-formed packets never do and five bytes of a data packet can.
 */
module CloseOutcome {
  import opened Bytes
  import opened HciFraming
  import opened Reassembly
  import opened Chunking
  import opened ReceivePort
  import opened CloseHandshake
  import opened ReaderRefinement

  /** A state that some run of a port's reader, its closer and the other threads leads to. */
  ghost predicate Reached(port: nat, s: State) {
    exists steps :: CanRun(CloseHandshake.Init(port), steps) && s == RunSteps(CloseHandshake.Init(port), steps)
  }

  function ChunksRead(s: State): seq<bytes> {
    Effects(s.actions).chunks
  }

  lemma ReachedIsSound(port: nat, s: State)
    requires Reached(port, s)
    ensures CloseHandshake.Inv(s) && ReaderRefinement.Refines(s)
  {
    var start := CloseHandshake.Init(port);
    var steps :| CanRun(start, steps) && s == RunSteps(start, steps);
    NothingPastJoin(start, steps);
    RunRefines(start, steps);
  }

  /** In a sound state a reader that is gone has read nothing to spin on, and one that spins has. */
  lemma SpinsByBytes(s: State)
    requires ReaderRefinement.Refines(s) && CloseHandshake.Inv(s)
    ensures Feasible(ChunksRead(s))
    ensures s.reader.Done? ==> !Run(ChunksRead(s)).spins
    ensures Spinning(s) ==> Run(ChunksRead(s)).spins
  {
  }

  /** From any state reached, with the flags of port 0 and of the port clear, and under any schedule
      with as many turns of the reader as its rank: the reader has left and is not busy if and only if
      the bytes it read, in their chunks, do not make the reassembler spin. */
  lemma CloseEndsByBytes(port: nat, s: State, schedule: seq<Step>)
    requires Reached(port, s) && !s.run && !Running0(s) && Offers(s, schedule) >= Rank(s.reader)
    ensures var t := Scheduled(s, schedule);
            && Feasible(ChunksRead(t))
            && (t.reader.Done? && !t.busy && !t.alive <==> !Run(ChunksRead(t)).spins)
            && (t.busy && t.alive <==> Run(ChunksRead(t)).spins)
  {
    ReachedIsSound(port, s);
    OfferedEndsOrSpins(s, schedule);
    NothingPastJoin(s, Taken(s, schedule));
    RunRefines(s, Taken(s, schedule));
    SpinsByBytes(Scheduled(s, schedule));
  }

  /** A controller that sends well-formed packets always lets close through, wherever in a packet the
      reader stands: the reader is gone, and the closer in its busy wait is past the join three steps later. */
  lemma WellFormedLetsCloseThrough(port: nat, s: State, schedule: seq<Step>, frames: seq<bytes>)
    requires Reached(port, s) && !s.run && !Running0(s) && Offers(s, schedule) >= Rank(s.reader)
    requires AllWellFormed(frames) && Concat(ChunksRead(Scheduled(s, schedule))) <= Concat(frames)
    ensures var t := Scheduled(s, schedule);
            && t.reader.Done? && !t.busy && !t.alive
            && (t.closer.BusyWait? ==> ApplyCloser(ApplyCloser(ApplyCloser(t))).closer.Joined?)
  {
    var t := Scheduled(s, schedule);
    CloseEndsByBytes(port, s, schedule);
    var chunks := ChunksRead(t);
    var n := EndToEnd(frames, Concat(chunks), chunks, Run(chunks));
    ReachedIsSound(port, s);
    NothingPastJoin(s, Taken(s, schedule));
    if t.closer.BusyWait? {
      CloserGetsThrough(t);
    }
  }

  // ----- a run that does not end -----

  // An ACL packet whose length field is 0xFFFB.
  const ENDLESS: bytes := [ACLDATA_PKT, 0, 0, 0xFB, 0xFF]

  /** The steps of a reader that reads these bytes and goes on to parse them. */
  function ReadAndParse(chunk: bytes): seq<Step> {
    [ReaderStep(Plain)] + ([ReaderStep(ReadReturns(Data(chunk)))] + ([ReaderStep(Plain)] + []))
  }

  /** The same from the top of the loop, with a poll that finds the port readable. */
  function PollAndRead(chunk: bytes): seq<Step> {
    var poll := PollReturns(false, Events(false, true, false));
    [ReaderStep(Plain)] + ([ReaderStep(poll)] + ([ReaderStep(Plain)] + ReadAndParse(chunk)))
  }

  lemma RunCons(s: State, step: Step, steps: seq<Step>)
    requires Enabled(s, step)
    ensures CanRun(Apply(s, step), steps) ==>
              CanRun(s, [step] + steps) && RunSteps(s, [step] + steps) == RunSteps(Apply(s, step), steps)
  {
    assert ([step] + steps)[1..] == steps;
  }

  lemma ReadAndParseRuns(s: State, chunk: bytes)
    requires s.reader == StartRead([]) && chunk != [] && |chunk| <= BUFFER_SIZE
    ensures CanRun(s, ReadAndParse(chunk))
    ensures var t := RunSteps(s, ReadAndParse(chunk)); t.reader == Parsing(chunk) && t.busy
  {
    var a, b, c := ReaderStep(Plain), ReaderStep(ReadReturns(Data(chunk))), ReaderStep(Plain);
    var s1 := Apply(s, a);
    var s2 := Apply(s1, b);
    assert [] + chunk == chunk;
    RunCons(s2, c, []);
    RunCons(s1, b, [c] + []);
    RunCons(s, a, [b] + ([c] + []));
  }

  lemma PollAndReadRuns(s: State, chunk: bytes)
    requires s.reader == LoopCheck([]) && s.run && chunk != [] && |chunk| <= BUFFER_SIZE
    ensures CanRun(s, PollAndRead(chunk))
    ensures var t := RunSteps(s, PollAndRead(chunk)); t.reader == Parsing(chunk) && t.busy
  {
    var a, b, c := ReaderStep(Plain), ReaderStep(PollReturns(false, Events(false, true, false))), ReaderStep(Plain);
    var s1 := Apply(s, a);
    var s2 := Apply(s1, b);
    ReadAndParseRuns(Apply(s2, c), chunk);
    RunCons(s2, c, ReadAndParse(chunk));
    RunCons(s1, b, [c] + ReadAndParse(chunk));
    RunCons(s, a, [b] + ([c] + ReadAndParse(chunk)));
  }

  /** A reader that reads these five bytes spins and is busy; whatever all threads do after that, close
      included, it stays so. */
  lemma CloseCanWaitForEver(port: nat, more: seq<Step>)
    ensures CanRun(CloseHandshake.Init(port), PollAndRead(ENDLESS))
    ensures var t := RunSteps(CloseHandshake.Init(port), PollAndRead(ENDLESS));
            && Spinning(t) && t.busy
            && (CanRun(t, more) ==> Spinning(RunSteps(t, more)) && RunSteps(t, more).busy)
  {
    var s := CloseHandshake.Init(port);
    PollAndReadRuns(s, ENDLESS);
    var t := RunSteps(s, PollAndRead(ENDLESS));
    ZeroCutExactly(ENDLESS);
    NothingPastJoin(s, PollAndRead(ENDLESS));
    if CanRun(t, more) {
      SpinningIsForEver(t, more);
    }
  }
}
