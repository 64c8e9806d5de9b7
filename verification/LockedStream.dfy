/**
 Several writers sharing one byte stream under a mutex, as a small-step system: the port readers
 that send packets to the host, and in the same way the two threads that append records to the
 snoop file. Taking the lock, checking the running flag, each partial write and releasing the lock
 are separate steps that interleave freely; the flag may be cleared between any two of them.
 */
module LockedStream {
  import opened Bytes

  datatype Control =
    | Idle
    | Waiting(packet: bytes)
    | Checking(packet: bytes, sent: nat)
    | Writing(packet: bytes, sent: nat)
    | Releasing(packet: bytes, sent: nat)
  {
    predicate Holds() {
      Checking? || Writing? || Releasing?
    }
  }

  /** One holding of the lock: who, for which packet, and how much of it went out. */
  datatype Entry = Entry(writer: nat, packet: bytes, sent: nat)

  datatype State = State(
    todo: seq<seq<bytes>>,
    control: seq<Control>,
    lock: Option<nat>,
    running: bool,
    stream: bytes,
    history: seq<Entry>)

  datatype Step = Begin(w: nat) | Acquire(w: nat) | Check(w: nat) | Write(w: nat, n: nat) | Release(w: nat) | Stop

  function Init(todo: seq<seq<bytes>>): State {
    State(todo, seq(|todo|, _ => Idle), None, true, [], [])
  }

  predicate Enabled(s: State, step: Step) {
    match step
    case Stop => true
    case Begin(w) => w < |s.control| == |s.todo| && s.control[w].Idle? && s.todo[w] != []
    case Acquire(w) => w < |s.control| && s.control[w].Waiting? && s.lock == None
    case Check(w) => w < |s.control| && s.control[w].Checking?
    case Write(w, n) => w < |s.control| && s.control[w].Writing? && s.control[w].sent + n <= |s.control[w].packet|
                        && s.history != []
    case Release(w) => w < |s.control| && s.control[w].Releasing?
  }

  function Apply(s: State, step: Step): State
    requires Enabled(s, step)
  {
    match step
    case Stop => s.(running := false)
    case Begin(w) =>
      s.(todo := s.todo[w := s.todo[w][1..]], control := s.control[w := Waiting(s.todo[w][0])])
    case Acquire(w) =>
      var p := s.control[w].packet;
      s.(control := s.control[w := Checking(p, 0)], lock := Some(w), history := s.history + [Entry(w, p, 0)])
    case Check(w) =>
      // while ((length > 0) && thread_running)
      var c := s.control[w];
      var next := if c.sent < |c.packet| && s.running then Writing(c.packet, c.sent) else Releasing(c.packet, c.sent);
      s.(control := s.control[w := next])
    case Write(w, n) =>
      // n is 0 for an interrupted, failed or empty write
      var c := s.control[w];
      var last := |s.history| - 1;
      s.(control := s.control[w := Checking(c.packet, c.sent + n)],
         stream := s.stream + c.packet[c.sent..c.sent + n],
         history := s.history[last := s.history[last].(sent := c.sent + n)])
    case Release(w) =>
      s.(control := s.control[w := Idle], lock := None)
  }

  /** These steps can be taken one after the other. */
  predicate CanRun(s: State, steps: seq<Step>)
    decreases |steps|
  {
    steps == [] || (Enabled(s, steps[0]) && CanRun(Apply(s, steps[0]), steps[1..]))
  }

  function RunSteps(s: State, steps: seq<Step>): State
    requires CanRun(s, steps)
    decreases |steps|
  {
    if steps == [] then s else RunSteps(Apply(s, steps[0]), steps[1..])
  }

  // ----- what every step keeps -----

  /** The bytes the holdings wrote, in order. */
  function Written(h: seq<Entry>): bytes
    requires SentWithin(h)
  {
    if h == [] then [] else Written(h[..|h| - 1]) + h[|h| - 1].packet[..h[|h| - 1].sent]
  }

  predicate SentWithin(h: seq<Entry>) {
    forall i :: 0 <= i < |h| ==> h[i].sent <= |h[i].packet|
  }

  predicate Full(e: Entry) {
    e.sent == |e.packet|
  }

  /** At most one holding is cut short, and nothing is written after it. */
  predicate CutOnce(h: seq<Entry>) {
    forall i, j :: 0 <= i < j < |h| && !Full(h[i]) ==> h[j].sent == 0
  }

  /** The lock says who holds it, and the last entry describes what the holder is doing. */
  predicate LockAgrees(s: State) {
    && (forall w :: 0 <= w < |s.control| ==> (s.control[w].Holds() <==> s.lock == Some(w)))
    && (s.lock.Some? ==>
          && s.lock.value < |s.control|
          && s.history != []
          && var c := s.control[s.lock.value];
             s.history[|s.history| - 1] == Entry(s.lock.value, c.packet, c.sent))
  }

  /** The holdings that are over. */
  function Closed(s: State): nat {
    if s.lock.Some? && s.history != [] then |s.history| - 1 else |s.history|
  }

  /** A holding ends short only after the stop; after a short one no holder gets past the check. */
  predicate StopAgrees(s: State) {
    && (forall i :: 0 <= i < Closed(s) && !Full(s.history[i]) ==> !s.running)
    && (s.lock.Some? && s.lock.value < |s.control| ==>
          && (s.control[s.lock.value].Writing? ==> forall i :: 0 <= i < Closed(s) ==> Full(s.history[i]))
          && (s.control[s.lock.value].Releasing? && s.history != [] && !Full(s.history[|s.history| - 1])
              ==> !s.running))
  }

  /** The packets writer w got the lock for. */
  function Issued(h: seq<Entry>, w: nat): seq<bytes> {
    if h == [] then []
    else Issued(h[..|h| - 1], w) + if h[|h| - 1].writer == w then [h[|h| - 1].packet] else []
  }

  function InHand(c: Control): seq<bytes> {
    if c.Waiting? then [c.packet] else []
  }

  /** Each writer's packets are the issued ones, the one it waits with, and those to come, in order. */
  predicate OrderKept(s: State, input: seq<seq<bytes>>) {
    |input| == |s.control| == |s.todo| &&
    forall w :: 0 <= w < |input| ==> input[w] == Issued(s.history, w) + InHand(s.control[w]) + s.todo[w]
  }

  predicate WritersKnown(s: State) {
    forall i :: 0 <= i < |s.history| ==> s.history[i].writer < |s.control|
  }

  predicate Inv(s: State, input: seq<seq<bytes>>) {
    && WritersKnown(s)
    && SentWithin(s.history) && CutOnce(s.history) && LockAgrees(s) && StopAgrees(s)
    && s.stream == Written(s.history)
    && OrderKept(s, input)
  }

  lemma InitKeeps(input: seq<seq<bytes>>)
    ensures Inv(Init(input), input)
  {
  }

  lemma WrittenSnoc(h: seq<Entry>, e: Entry)
    requires SentWithin(h) && e.sent <= |e.packet|
    ensures SentWithin(h + [e]) && Written(h + [e]) == Written(h) + e.packet[..e.sent]
  {
    assert (h + [e])[..|h|] == h;
  }

  lemma IssuedSnoc(h: seq<Entry>, e: Entry, w: nat)
    ensures Issued(h + [e], w) == Issued(h, w) + if e.writer == w then [e.packet] else []
  {
    assert (h + [e])[..|h|] == h;
  }

  lemma BeginKeeps(s: State, input: seq<seq<bytes>>, w: nat)
    requires Inv(s, input) && Enabled(s, Begin(w))
    ensures Inv(Apply(s, Begin(w)), input)
  {
    var t := Apply(s, Begin(w));
    assert s.todo[w] == [s.todo[w][0]] + s.todo[w][1..];
    assert Issued(s.history, w) + [] + s.todo[w] == Issued(s.history, w) + [s.todo[w][0]] + s.todo[w][1..];
    assert t.control[w].Holds() <==> s.control[w].Holds();
  }

  lemma AcquireKeeps(s: State, input: seq<seq<bytes>>, w: nat)
    requires Inv(s, input) && Enabled(s, Acquire(w))
    ensures Inv(Apply(s, Acquire(w)), input)
  {
    var t := Apply(s, Acquire(w));
    var e := Entry(w, s.control[w].packet, 0);
    WrittenSnoc(s.history, e);
    forall v | 0 <= v < |input|
      ensures input[v] == Issued(t.history, v) + InHand(t.control[v]) + t.todo[v]
    {
      IssuedSnoc(s.history, e, v);
      assert Issued(s.history, w) + [e.packet] == Issued(s.history, w) + [e.packet] + [];
    }
  }

  lemma CheckKeeps(s: State, input: seq<seq<bytes>>, w: nat)
    requires Inv(s, input) && Enabled(s, Check(w))
    ensures Inv(Apply(s, Check(w)), input)
  {
    assert s.control[w].Holds();
  }

  /** A write of n more bytes, seen in the history and the stream. */
  lemma WriteExtendsLast(g: seq<Entry>, n: nat)
    requires SentWithin(g) && g != [] && g[|g| - 1].sent + n <= |g[|g| - 1].packet|
    ensures var e := g[|g| - 1]; var t := g[|g| - 1 := e.(sent := e.sent + n)];
            && SentWithin(t) && Written(t) == Written(g) + e.packet[e.sent..e.sent + n]
            && forall w: nat :: Issued(t, w) == Issued(g, w)
  {
    var h, e := g[..|g| - 1], g[|g| - 1];
    var f := e.(sent := e.sent + n);
    assert g == h + [e] && g[|g| - 1 := f] == h + [f];
    WrittenSnoc(h, e);
    WrittenSnoc(h, f);
    assert e.packet[..e.sent] + e.packet[e.sent..e.sent + n] == e.packet[..f.sent];
    forall w: nat
      ensures Issued(h + [f], w) == Issued(h + [e], w)
    {
      IssuedSnoc(h, e, w);
      IssuedSnoc(h, f, w);
    }
  }

  lemma WriteKeepsCut(s: State, input: seq<seq<bytes>>, w: nat, n: nat)
    requires Inv(s, input) && Enabled(s, Write(w, n))
    ensures var t := Apply(s, Write(w, n)); CutOnce(t.history) && StopAgrees(t)
  {
    assert s.control[w].Holds();
    var t := Apply(s, Write(w, n));
    assert Closed(t) == Closed(s) == |s.history| - 1;
    assert forall i :: 0 <= i < Closed(t) ==> t.history[i] == s.history[i];
    assert forall i :: 0 <= i < Closed(s) ==> Full(s.history[i]);
  }

  lemma WriteKeepsLock(s: State, input: seq<seq<bytes>>, w: nat, n: nat)
    requires Inv(s, input) && Enabled(s, Write(w, n))
    ensures var t := Apply(s, Write(w, n)); LockAgrees(t) && s.lock == Some(w)
  {
    assert s.control[w].Holds();
  }

  lemma WriteKeepsOrder(s: State, input: seq<seq<bytes>>, w: nat, n: nat)
    requires Inv(s, input) && Enabled(s, Write(w, n))
    requires var t := Apply(s, Write(w, n)); forall v: nat :: Issued(t.history, v) == Issued(s.history, v)
    ensures OrderKept(Apply(s, Write(w, n)), input)
  {
    var t := Apply(s, Write(w, n));
    assert forall v :: 0 <= v < |input| ==> InHand(t.control[v]) == InHand(s.control[v]);
  }

  lemma WriteKeeps(s: State, input: seq<seq<bytes>>, w: nat, n: nat)
    requires Inv(s, input) && Enabled(s, Write(w, n))
    ensures Inv(Apply(s, Write(w, n)), input)
  {
    WriteKeepsLock(s, input, w, n);
    WriteKeepsCut(s, input, w, n);
    WriteExtendsLast(s.history, n);
    WriteKeepsOrder(s, input, w, n);
  }

  lemma ReleaseKeeps(s: State, input: seq<seq<bytes>>, w: nat)
    requires Inv(s, input) && Enabled(s, Release(w))
    ensures Inv(Apply(s, Release(w)), input)
  {
    assert s.control[w].Holds();
  }

  lemma StepKeeps(s: State, input: seq<seq<bytes>>, step: Step)
    requires Inv(s, input) && Enabled(s, step)
    ensures Inv(Apply(s, step), input)
  {
    match step
    case Stop =>
    case Begin(w) => BeginKeeps(s, input, w);
    case Acquire(w) => AcquireKeeps(s, input, w);
    case Check(w) => CheckKeeps(s, input, w);
    case Write(w, n) => WriteKeeps(s, input, w, n);
    case Release(w) => ReleaseKeeps(s, input, w);
  }

  lemma {:induction false} RunKeeps(s: State, input: seq<seq<bytes>>, steps: seq<Step>)
    requires Inv(s, input) && CanRun(s, steps)
    ensures Inv(RunSteps(s, steps), input)
    decreases |steps|
  {
    if steps != [] {
      StepKeeps(s, input, steps[0]);
      RunKeeps(Apply(s, steps[0]), input, steps[1..]);
    }
  }

  // ----- what that means for the stream -----

  function Packets(h: seq<Entry>): seq<bytes> {
    if h == [] then [] else Packets(h[..|h| - 1]) + [h[|h| - 1].packet]
  }

  lemma {:induction false} PacketsAt(h: seq<Entry>)
    ensures |Packets(h)| == |h| && forall i :: 0 <= i < |h| ==> Packets(h)[i] == h[i].packet
  {
    if h != [] {
      var g := h[..|h| - 1];
      PacketsAt(g);
      assert forall i :: 0 <= i < |g| ==> g[i] == h[i];
    }
  }

  lemma {:induction false} WrittenWhole(h: seq<Entry>)
    requires SentWithin(h) && forall i :: 0 <= i < |h| ==> Full(h[i])
    ensures Written(h) == Concat(Packets(h))
  {
    if h != [] {
      var g, e := h[..|h| - 1], h[|h| - 1];
      WrittenWhole(g);
      ConcatSnoc(Packets(g), e.packet);
      assert e.packet[..e.sent] == e.packet;
    }
  }

  lemma {:induction false} WrittenNothing(h: seq<Entry>, c: nat)
    requires c <= |h| && SentWithin(h) && forall i :: c <= i < |h| ==> h[i].sent == 0
    ensures SentWithin(h[..c]) && Written(h) == Written(h[..c])
  {
    if c < |h| {
      WrittenNothing(h[..|h| - 1], c);
      assert h[..|h| - 1][..c] == h[..c];
    } else {
      assert h[..c] == h;
    }
  }

  /** The first holding cut short, or none. */
  function FirstCut(h: seq<Entry>): (c: nat)
    ensures c <= |h| && (forall i :: 0 <= i < c ==> Full(h[i])) && (c < |h| ==> !Full(h[c]))
  {
    if h == [] then 0
    else
      var c := FirstCut(h[..|h| - 1]);
      if c < |h| - 1 || !Full(h[|h| - 1]) then c else |h|
  }

  lemma {:induction false} IssuedPrefix(h: seq<Entry>, c: nat, w: nat)
    requires c <= |h|
    ensures Issued(h[..c], w) <= Issued(h, w)
  {
    if c < |h| {
      IssuedPrefix(h[..|h| - 1], c, w);
      assert h[..|h| - 1][..c] == h[..c];
    } else {
      assert h[..c] == h;
    }
  }

  /** What the first holding cut short put out. */
  function PartOfCut(h: seq<Entry>): bytes
    requires SentWithin(h)
  {
    var c := FirstCut(h);
    if c < |h| then h[c].packet[..h[c].sent] else []
  }

  /** The packet a writer has begun and not put out whole. */
  function Unfinished(c: Control): seq<bytes> {
    match c
    case Idle => []
    case Waiting(p) => [p]
    case Checking(p, sent) => if sent == |p| then [] else [p]
    case Writing(p, sent) => if sent == |p| then [] else [p]
    case Releasing(p, sent) => if sent == |p| then [] else [p]
  }

  /** Nothing is lost: each writer's packets are those in the stream, the unfinished one, and those to come. */
  predicate NothingLost(s: State, input: seq<seq<bytes>>, c: nat) {
    && c <= |s.history| && |input| == |s.control| == |s.todo|
    && forall w :: 0 <= w < |input| ==> input[w] == Issued(s.history[..c], w) + Unfinished(s.control[w]) + s.todo[w]
  }

  /** The stream is a merge of whole packets, and then at most the first part of one more: each packet
      is some writer's, each writer's packets are in its own order, and as long as the flag is set none
      is missing and the incomplete one is the lock holder's. */
  predicate PacketAtomic(s: State, input: seq<seq<bytes>>) {
    var c := FirstCut(s.history);
    && SentWithin(s.history)
    && s.stream == Concat(Packets(s.history[..c])) + PartOfCut(s.history)
    && (forall i :: 0 <= i < |s.history| ==> s.history[i].writer < |input|)
    && (forall w :: 0 <= w < |input| ==> Issued(s.history[..c], w) <= input[w])
    && (s.running ==> NothingLost(s, input, c))
    && (c < |s.history| && s.running ==> c == |s.history| - 1 && s.lock == Some(s.history[c].writer))
  }

  lemma StreamIsPackets(s: State, input: seq<seq<bytes>>)
    requires Inv(s, input)
    ensures s.stream == Concat(Packets(s.history[..FirstCut(s.history)])) + PartOfCut(s.history)
  {
    var h := s.history;
    var c := FirstCut(h);
    WrittenWhole(h[..c]);
    if c < |h| {
      WrittenNothing(h, c + 1);
      assert h[..c + 1] == h[..c] + [h[c]];
      WrittenSnoc(h[..c], h[c]);
    } else {
      assert h[..c] == h;
    }
  }

  /** While the flag is set, what a writer was issued is in the stream or is what it holds the lock for. */
  lemma IssuedIsThere(s: State, input: seq<seq<bytes>>, w: nat)
    requires Inv(s, input) && s.running && w < |input|
    ensures Issued(s.history, w) + InHand(s.control[w])
         == Issued(s.history[..FirstCut(s.history)], w) + Unfinished(s.control[w])
  {
    var h := s.history;
    var c := FirstCut(h);
    if c < |h| {
      assert h[..c] + [h[c]] == h;
      IssuedSnoc(h[..c], h[c], w);
    } else {
      assert h[..c] == h;
    }
  }

  lemma InvLosesNothing(s: State, input: seq<seq<bytes>>)
    requires Inv(s, input) && s.running
    ensures NothingLost(s, input, FirstCut(s.history))
  {
    forall w | 0 <= w < |input|
      ensures input[w] == Issued(s.history[..FirstCut(s.history)], w) + Unfinished(s.control[w]) + s.todo[w]
    {
      IssuedIsThere(s, input, w);
    }
  }

  lemma InvIsPacketAtomic(s: State, input: seq<seq<bytes>>)
    requires Inv(s, input)
    ensures PacketAtomic(s, input)
  {
    var h := s.history;
    var c := FirstCut(h);
    StreamIsPackets(s, input);
    forall w | 0 <= w < |input|
      ensures Issued(h[..c], w) <= input[w]
    {
      IssuedPrefix(h, c, w);
    }
    if s.running {
      InvLosesNothing(s, input);
    }
  }

  /** For any number of writers, any packets and any interleaving of their steps. */
  lemma EveryRunIsPacketAtomic(input: seq<seq<bytes>>, steps: seq<Step>)
    requires CanRun(Init(input), steps)
    ensures PacketAtomic(RunSteps(Init(input), steps), input)
    ensures Stop !in steps ==> RunSteps(Init(input), steps).running
  {
    InitKeeps(input);
    RunKeeps(Init(input), input, steps);
    InvIsPacketAtomic(RunSteps(Init(input), steps), input);
    OnlyStopStops(Init(input), steps);
  }

  lemma {:induction false} OnlyStopStops(s: State, steps: seq<Step>)
    requires CanRun(s, steps)
    ensures s.running && Stop !in steps ==> RunSteps(s, steps).running
    decreases |steps|
  {
    if steps != [] {
      OnlyStopStops(Apply(s, steps[0]), steps[1..]);
    }
  }

  /** Every writer has nothing in hand and nothing to come. */
  predicate Finished(s: State) {
    && (forall w :: 0 <= w < |s.control| ==> s.control[w].Idle?)
    && (forall w :: 0 <= w < |s.todo| ==> s.todo[w] == [])
  }

  lemma FinishedIsUncut(s: State, input: seq<seq<bytes>>)
    requires Inv(s, input) && s.running && Finished(s)
    ensures s.lock == None && FirstCut(s.history) == |s.history|
  {
    assert s.lock.Some? ==> s.control[s.lock.value].Holds();
  }

  /** When every writer is finished, the stream is all their packets, whole, each writer's in order. */
  lemma FinishedIsComplete(input: seq<seq<bytes>>, steps: seq<Step>)
    requires CanRun(Init(input), steps) && Stop !in steps && Finished(RunSteps(Init(input), steps))
    ensures var s := RunSteps(Init(input), steps);
            && s.stream == Concat(Packets(s.history))
            && (forall i :: 0 <= i < |s.history| ==> s.history[i].writer < |input|)
            && (forall w :: 0 <= w < |input| ==> Issued(s.history, w) == input[w])
  {
    EveryRunIsPacketAtomic(input, steps);
    InitKeeps(input);
    RunKeeps(Init(input), input, steps);
    FinishedState(RunSteps(Init(input), steps), input);
  }

  lemma FinishedState(s: State, input: seq<seq<bytes>>)
    requires Inv(s, input) && s.running && Finished(s)
    ensures s.stream == Concat(Packets(s.history))
    ensures forall w :: 0 <= w < |input| ==> Issued(s.history, w) == input[w]
  {
    FinishedIsUncut(s, input);
    StreamIsPackets(s, input);
    assert s.history[..|s.history|] == s.history;
    assert Concat(Packets(s.history)) + [] == Concat(Packets(s.history));
  }

  // ----- after the flag is cleared -----

  /** What may still be written: the rest of the packet of a holder that is past the check. */
  function StillToCome(s: State): bytes {
    if s.lock.Some? && s.lock.value < |s.control| && s.control[s.lock.value].Writing?
       && s.control[s.lock.value].sent <= |s.control[s.lock.value].packet|
    then s.control[s.lock.value].packet[s.control[s.lock.value].sent..]
    else []
  }

  /** Once the flag is cleared it stays cleared, and whatever steps follow add no more than one
      first part of the rest of one packet: that of a holder already past its check. */
  lemma {:induction false} NothingAfterStop(s: State, input: seq<seq<bytes>>, steps: seq<Step>)
    requires Inv(s, input) && !s.running && CanRun(s, steps)
    ensures var t := RunSteps(s, steps);
            && !t.running
            && s.stream <= t.stream
            && t.stream[|s.stream|..] <= StillToCome(s)
    decreases |steps|
  {
    if steps != [] {
      var m := Apply(s, steps[0]);
      StepKeeps(s, input, steps[0]);
      NothingAfterStop(m, input, steps[1..]);
      OneStepAfterStop(s, input, steps[0]);
    }
  }

  lemma OneStepAfterStop(s: State, input: seq<seq<bytes>>, step: Step)
    requires Inv(s, input) && !s.running && Enabled(s, step)
    ensures var m := Apply(s, step);
            if step.Write? then
              |StillToCome(s)| >= step.n && m.stream == s.stream + StillToCome(s)[..step.n] && StillToCome(m) == []
            else m.stream == s.stream && (StillToCome(m) == StillToCome(s))
  {
  }
}
