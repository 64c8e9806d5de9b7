/**
 The readers of all ports with their closers, the lock and the host stream they share, as one
 small-step system. Each port reads its own bytes; its packets arise as it parses them, and go through
 the lock in between those of the other ports.
 */
module SharedHost {
  import opened Bytes
  import opened Reassembly
  import opened Chunking
  import opened ReceivePort
  import opened CloseHandshake
  import opened ReaderRefinement
  import LockedStream

  /** The packets for the host, in order. */
  function HostPackets(segs: seq<Segment>): seq<bytes> {
    Select(Frames(segs), false)
  }

  lemma {:induction false} HostPacketsSpellHostBytes(segs: seq<Segment>)
    ensures Concat(HostPackets(segs)) == HostBytes(segs)
  {
    if segs != [] {
      var x, rest := segs[0], segs[1..];
      HostPacketsSpellHostBytes(rest);
      assert segs == [x] + rest;
      FramesAppend([x], rest);
      FramesOfOne(x);
      SelectAppend(Frames([x]), Frames(rest), false);
      ConcatAppend(HostPackets([x]), HostPackets(rest));
      HostBytesAppend([x], rest);
      SinksOfOne(x);
      OnePacket(x);
    }
  }

  lemma OnePacket(x: Segment)
    ensures Concat(HostPackets([x])) == if x.Frame? && !IsLog(x.data) then x.data else []
  {
    FramesOfOne(x);
    if x.Frame? {
      var one := Select([x.data], false);
      assert [x.data][1..] == [] && Select([x.data][1..], false) == [];
      assert one == if IsLog(x.data) then [] else [x.data];
      ConcatSnoc([], x.data);
      assert [] + [x.data] == [x.data];
    }
  }

  /** The selections part the packets by their type byte: 7 for the log. */
  lemma {:induction false} SelectedByType(fs: seq<bytes>)
    ensures forall f :: f in Select(fs, true) ==> f != [] && f[0] == 7
    ensures forall f :: f in Select(fs, false) ==> f == [] || f[0] != 7
    ensures multiset(Select(fs, true)) + multiset(Select(fs, false)) == multiset(fs)
  {
    if fs != [] {
      SelectedByType(fs[1..]);
      assert fs == [fs[0]] + fs[1..];
    }
  }

  lemma HostPacketsAppend(a: seq<Segment>, b: seq<Segment>)
    ensures HostPackets(a + b) == HostPackets(a) + HostPackets(b)
  {
    FramesAppend(a, b);
    SelectAppend(Frames(a), Frames(b), false);
  }

  // ----- the system -----

  /** Each port's reader and closer; the lock with the stream behind it; and the packets each port has
      brought to the lock so far. */
  datatype System = System(ports: seq<CloseHandshake.State>, shared: LockedStream.State, brought: seq<seq<bytes>>)

  datatype Turn = ReaderTurn(w: nat, out: Outcome) | CloserTurn(w: nat)

  function Start(n: nat): System {
    System(seq(n, w requires 0 <= w < n => CloseHandshake.Init(w)), LockedStream.Init(seq(n, _ => [])), seq(n, _ => []))
  }

  predicate CanTurn(s: System, turn: Turn) {
    turn.w < |s.ports| && (turn.ReaderTurn? ==> ReaderEnabled(s.ports[turn.w], turn.out))
  }

  /** What a reader's step is to the lock. */
  function LockStep(r: ReaderPc, w: nat, out: Outcome): Option<LockedStream.Step> {
    match r
    case LockWait(_, _) => Some(LockedStream.Acquire(w))
    case SendCheck(_, _) => Some(LockedStream.Check(w))
    case SendWrite(_, _) => if out.WriteReturns? then Some(LockedStream.Write(w, out.n)) else None
    case Unlock(_) => Some(LockedStream.Release(w))
    case _ => None
  }

  function TakeLockStep(sh: LockedStream.State, step: Option<LockedStream.Step>): LockedStream.State {
    if step.Some? && LockedStream.Enabled(sh, step.value) then LockedStream.Apply(sh, step.value) else sh
  }

  /** Port w waits for the lock with a packet. */
  function Bring(sh: LockedStream.State, w: nat, packet: bytes): LockedStream.State
    requires w < |sh.control|
  {
    sh.(control := sh.control[w := LockedStream.Waiting(packet)])
  }

  /** What each port sees of the others: whether one of them holds the lock, and port 0's flag. */
  function Seen(p: CloseHandshake.State, w: nat, sh: LockedStream.State): CloseHandshake.State {
    p.(lockedByOther := sh.lock.Some? && sh.lock != Some(w), run0 := sh.running)
  }

  function AllSeen(ports: seq<CloseHandshake.State>, sh: LockedStream.State): seq<CloseHandshake.State> {
    seq(|ports|, w requires 0 <= w < |ports| => Seen(ports[w], w, sh))
  }

  function ReaderMoves(s: System, w: nat, out: Outcome): System
    requires w < |s.ports| == |s.shared.control| == |s.brought| && ReaderEnabled(s.ports[w], out)
  {
    var p := ApplyReader(s.ports[w], out);
    var sh := TakeLockStep(s.shared, LockStep(s.ports[w].reader, w, out));
    var ports := AllSeen(s.ports[w := p], sh);
    if p.reader.LockWait? && w < |sh.control| then
      System(ports, Bring(sh, w, p.reader.data), s.brought[w := s.brought[w] + [p.reader.data]])
    else System(ports, sh, s.brought)
  }

  /** Closing port 0 clears the flag that all writes to the host obey. */
  function CloserMoves(s: System, w: nat): System
    requires w < |s.ports|
  {
    var p := ApplyCloser(s.ports[w]);
    var sh := if w == 0 && !p.run then LockedStream.Apply(s.shared, LockedStream.Stop) else s.shared;
    System(AllSeen(s.ports[w := p], sh), sh, s.brought)
  }

  predicate Sized(s: System) {
    |s.ports| == |s.shared.control| == |s.shared.todo| == |s.brought|
  }

  function Take(s: System, turn: Turn): System
    requires Sized(s) && CanTurn(s, turn)
  {
    match turn
    case ReaderTurn(w, out) => ReaderMoves(s, w, out)
    case CloserTurn(w) => CloserMoves(s, w)
  }

  predicate CanTake(s: System, turns: seq<Turn>)
    decreases |turns|
  {
    turns == [] || (Sized(s) && CanTurn(s, turns[0]) && CanTake(Take(s, turns[0]), turns[1..]))
  }

  function TakeAll(s: System, turns: seq<Turn>): System
    requires CanTake(s, turns)
    decreases |turns|
  {
    if turns == [] then s else TakeAll(Take(s, turns[0]), turns[1..])
  }

  // ----- readers and lock agree -----

  /** A reader's control state is what the lock knows of it. */
  predicate Match(r: ReaderPc, c: LockedStream.Control) {
    match r
    case LockWait(data, _) => c == LockedStream.Waiting(data)
    case SendCheck(data, _) => c.Checking? && c.sent <= |c.packet| && data == c.packet[c.sent..]
    case SendWrite(data, _) => c.Writing? && c.sent <= |c.packet| && data == c.packet[c.sent..]
    case Unlock(_) => c.Releasing?
    case _ => c.Idle?
  }

  predicate PortCoupled(p: CloseHandshake.State, w: nat, sh: LockedStream.State)
    requires w < |sh.control| == |sh.todo|
  {
    && p.port == w && sh.todo[w] == [] && Match(p.reader, sh.control[w])
    && (p.lockedByOther <==> sh.lock.Some? && sh.lock != Some(w)) && Running0(p) == sh.running
  }

  predicate Coupled(s: System) {
    Sized(s) && forall w :: 0 <= w < |s.ports| ==> PortCoupled(s.ports[w], w, s.shared)
  }

  /** The lock is free for the reader that waits for it, and held by the one that writes. */
  lemma LockStepEnabled(sh: LockedStream.State, brought: seq<seq<bytes>>, p: CloseHandshake.State, w: nat, out: Outcome)
    requires LockedStream.Inv(sh, brought) && w < |sh.control| == |sh.todo| && PortCoupled(p, w, sh)
    requires ReaderEnabled(p, out)
    ensures var step := LockStep(p.reader, w, out); step.Some? ==> LockedStream.Enabled(sh, step.value)
  {
    assert sh.control[w].Holds() <==> sh.lock == Some(w);
  }

  /** The lock's step touches no other port's control state, nor what is to come, nor the flag. */
  lemma LockStepIsOwn(sh: LockedStream.State, r: ReaderPc, w: nat, out: Outcome)
    requires w < |sh.control|
    ensures var sh' := TakeLockStep(sh, LockStep(r, w, out));
            && |sh'.control| == |sh.control| && sh'.todo == sh.todo && sh'.running == sh.running
            && (forall v :: 0 <= v < |sh.control| && v != w ==> sh'.control[v] == sh.control[v])
  {
  }

  lemma ReaderStepKeepsFlags(p: CloseHandshake.State, out: Outcome)
    requires ReaderEnabled(p, out)
    ensures var q := ApplyReader(p, out); Running0(q) == Running0(p) && q.port == p.port && q.run == p.run
  {
  }

  /** The reader's step and the lock's go together. */
  lemma LockStepMatches(sh: LockedStream.State, p: CloseHandshake.State, w: nat, out: Outcome)
    requires w < |sh.control| == |sh.todo| && PortCoupled(p, w, sh) && ReaderEnabled(p, out)
    requires var step := LockStep(p.reader, w, out); step.Some? ==> LockedStream.Enabled(sh, step.value)
    ensures var sh' := TakeLockStep(sh, LockStep(p.reader, w, out));
            var next := Next(p.reader, p.port, p.run, Running0(p), out);
            |sh'.control| == |sh.control| &&
            if next.LockWait? then sh'.control[w].Idle? else Match(next, sh'.control[w])
  {
  }

  /** Once a port has seen the lock, it is coupled to it. */
  lemma SeenCoupled(q: CloseHandshake.State, v: nat, sh: LockedStream.State)
    requires v < |sh.control| == |sh.todo| && sh.todo[v] == [] && q.port == v && Match(q.reader, sh.control[v])
    requires v == 0 ==> q.run == sh.running
    ensures PortCoupled(Seen(q, v, sh), v, sh)
  {
  }

  lemma BroughtMatches(sh: LockedStream.State, w: nat, r: ReaderPc)
    requires w < |sh.control| && r.LockWait?
    ensures Match(r, Bring(sh, w, r.data).control[w])
  {
  }

  /** What a reader's move makes of the lock's side. */
  lemma ReaderMovesShared(s: System, w: nat, out: Outcome)
    requires Coupled(s) && LockedStream.Inv(s.shared, s.brought) && CanTurn(s, ReaderTurn(w, out))
    ensures var t := ReaderMoves(s, w, out);
            && Sized(t) && t.shared.todo == s.shared.todo && t.shared.running == s.shared.running
            && Match(ApplyReader(s.ports[w], out).reader, t.shared.control[w])
            && (forall v :: 0 <= v < |s.ports| && v != w ==> t.shared.control[v] == s.shared.control[v])
  {
    LockStepEnabled(s.shared, s.brought, s.ports[w], w, out);
    LockStepMatches(s.shared, s.ports[w], w, out);
    LockStepIsOwn(s.shared, s.ports[w].reader, w, out);
    var p := ApplyReader(s.ports[w], out);
    if p.reader.LockWait? {
      BroughtMatches(TakeLockStep(s.shared, LockStep(s.ports[w].reader, w, out)), w, p.reader);
    }
  }

  lemma ReaderMovesCoupled(s: System, w: nat, out: Outcome)
    requires Coupled(s) && LockedStream.Inv(s.shared, s.brought) && CanTurn(s, ReaderTurn(w, out))
    ensures Coupled(ReaderMoves(s, w, out))
  {
    var p, t := ApplyReader(s.ports[w], out), ReaderMoves(s, w, out);
    ReaderMovesShared(s, w, out);
    ReaderStepKeepsFlags(s.ports[w], out);
    forall v | 0 <= v < |t.ports| ensures PortCoupled(t.ports[v], v, t.shared) {
      assert PortCoupled(s.ports[v], v, s.shared);
      SeenCoupled(s.ports[w := p][v], v, t.shared);
    }
  }

  lemma CloserMovesCoupled(s: System, w: nat)
    requires Coupled(s) && w < |s.ports|
    ensures Coupled(CloserMoves(s, w))
  {
    var p, t := ApplyCloser(s.ports[w]), CloserMoves(s, w);
    CloserKeepsPort(s.ports[w]);
    forall v | 0 <= v < |t.ports| ensures PortCoupled(t.ports[v], v, t.shared) {
      assert PortCoupled(s.ports[v], v, s.shared);
      SeenCoupled(s.ports[w := p][v], v, t.shared);
    }
  }

  lemma CloserKeepsPort(p: CloseHandshake.State)
    ensures var q := ApplyCloser(p);
            q.port == p.port && q.reader == p.reader && q.actions == p.actions && q.run == (p.run && !p.closer.Open?)
  {
  }

  // ----- the lock's invariant -----

  lemma BringKeeps(sh: LockedStream.State, brought: seq<seq<bytes>>, w: nat, packet: bytes)
    requires LockedStream.Inv(sh, brought) && w < |sh.control| == |sh.todo|
    requires sh.control[w].Idle? && sh.todo[w] == []
    ensures w < |brought| && LockedStream.Inv(Bring(sh, w, packet), brought[w := brought[w] + [packet]])
  {
    var t, more := Bring(sh, w, packet), brought[w := brought[w] + [packet]];
    assert t.control[w].Holds() <==> sh.control[w].Holds();
    forall v | 0 <= v < |more|
      ensures more[v] == LockedStream.Issued(t.history, v) + LockedStream.InHand(t.control[v]) + t.todo[v]
    {
      assert brought[v] == LockedStream.Issued(sh.history, v) + LockedStream.InHand(sh.control[v]) + sh.todo[v];
    }
  }

  lemma ReaderMovesKeepsLock(s: System, w: nat, out: Outcome)
    requires Coupled(s) && LockedStream.Inv(s.shared, s.brought) && CanTurn(s, ReaderTurn(w, out))
    ensures var t := ReaderMoves(s, w, out); LockedStream.Inv(t.shared, t.brought)
  {
    var p := s.ports[w];
    assert PortCoupled(p, w, s.shared);
    LockStepEnabled(s.shared, s.brought, p, w, out);
    LockStepMatches(s.shared, p, w, out);
    LockStepIsOwn(s.shared, p.reader, w, out);
    var step := LockStep(p.reader, w, out);
    if step.Some? {
      LockedStream.StepKeeps(s.shared, s.brought, step.value);
    }
    if ApplyReader(p, out).reader.LockWait? {
      BringKeeps(TakeLockStep(s.shared, step), s.brought, w, ApplyReader(p, out).reader.data);
    }
  }

  // ----- each port does what its reassembler does -----

  lemma ReaderMovesRefines(s: System, w: nat, out: Outcome, v: nat)
    requires Coupled(s) && CanTurn(s, ReaderTurn(w, out)) && v < |s.ports|
    requires ReaderRefinement.Refines(s.ports[v])
    ensures v < |ReaderMoves(s, w, out).ports| && ReaderRefinement.Refines(ReaderMoves(s, w, out).ports[v])
  {
    var sh := TakeLockStep(s.shared, LockStep(s.ports[w].reader, w, out));
    var p := if v == w then ApplyReader(s.ports[w], out) else s.ports[v];
    LockStepIsOwn(s.shared, s.ports[w].reader, w, out);
    ReaderStepKeepsFlags(s.ports[w], out);
    assert PortCoupled(s.ports[v], v, s.shared);
    if v == w {
      ReaderStepRefines(s.ports[w], out);
    }
    OtherStepRefines(p, Seen(p, v, sh));
  }

  lemma CloserMovesRefines(s: System, w: nat, v: nat)
    requires Coupled(s) && w < |s.ports| && v < |s.ports| && ReaderRefinement.Refines(s.ports[v])
    ensures ReaderRefinement.Refines(CloserMoves(s, w).ports[v])
  {
    assert PortCoupled(s.ports[v], v, s.shared);
    CloserLeavesReader(s.ports[v]);
    OtherStepRefines(s.ports[v], CloserMoves(s, w).ports[v]);
  }

  // ----- the packets -----

  /** Packets a reader has still to bring to the lock. */
  function ParsePackets(buf: bytes): seq<bytes> {
    if buf == [] then [] else HostPackets(Drain(buf).segs)
  }

  function PacketsAfter(after: After): seq<bytes> {
    if after.ParseOn? then ParsePackets(after.buf) else []
  }

  function PacketsDue(r: ReaderPc): seq<bytes> {
    match r
    case Parsing(buf) => ParsePackets(buf)
    case EndRead(buf, ret) => if ret.Data? then ParsePackets(buf + ret.chunk) else []
    case LockWait(_, after) => PacketsAfter(after)
    case SendCheck(_, after) => PacketsAfter(after)
    case SendWrite(_, after) => PacketsAfter(after)
    case Unlock(after) => PacketsAfter(after)
    case _ => []
  }

  /** What a port's reader owes the host when this is what its reassembler made of the bytes it has read,
      and for a failed read of port 0. */
  function OwedFor(st: Reader, report: bytes): seq<bytes> {
    HostPackets(st.segs) + if report == [] then [] else [HW_ERROR_EVENT]
  }

  function Owed(t: Trace): seq<bytes>
    requires Feasible(t.chunks)
  {
    OwedFor(Run(t.chunks), t.report)
  }

  /** Brought to the lock and still to be brought make up what is owed. */
  predicate BringsFor(st: Reader, report: bytes, r: ReaderPc, brought: seq<bytes>) {
    brought + PacketsDue(r) == OwedFor(st, report)
  }

  predicate Brings(t: Trace, r: ReaderPc, brought: seq<bytes>) {
    Feasible(t.chunks) && BringsFor(Run(t.chunks), t.report, r, brought)
  }

  /** The packet a step brings to the lock. */
  function Brought(next: ReaderPc): seq<bytes> {
    if next.LockWait? then [next.data] else []
  }

  lemma ChunkBrings(st: Reader, next: Reader, buf: bytes, chunk: bytes, brought: seq<bytes>)
    requires chunk != [] && next.segs == st.segs + Drain(buf + chunk).segs
    ensures BringsFor(st, [], Reading(buf), brought) ==> BringsFor(next, [], EndRead(buf, Data(chunk)), brought)
  {
    var owed, more := HostPackets(st.segs), HostPackets(Drain(buf + chunk).segs);
    HostPacketsAppend(st.segs, Drain(buf + chunk).segs);
    assert buf + chunk != [];
    assert brought + [] == brought && owed + [] == owed && owed + more + [] == owed + more;
  }

  lemma ReadBrings(t: Trace, buf: bytes, chunk: bytes, brought: seq<bytes>)
    requires chunk != [] && |buf| + |chunk| <= BUFFER_SIZE && t.report == []
    requires Feasible(t.chunks) && Run(t.chunks).buf == buf && !Run(t.chunks).spins
    ensures Brings(t, Reading(buf), brought) ==>
              Brings(t.(chunks := t.chunks + [chunk]), EndRead(buf, Data(chunk)), brought)
  {
    RunSnoc(t.chunks, chunk);
    ChunkBrings(Run(t.chunks), Feed(Run(t.chunks), chunk), buf, chunk, brought);
  }

  lemma PassPackets(buf: bytes, p: PassResult)
    requires buf != [] && p == Pass(buf) && !p.spins
    ensures var after := if p.more then ParseOn(p.rest) else BackToLoop(p.rest);
            ParsePackets(buf) == HostPackets(p.segs) + PacketsAfter(after)
  {
    DrainByPasses(buf);
    if p.more {
      HostPacketsAppend(p.segs, Drain(p.rest).segs);
    }
  }

  lemma PassBrings(buf: bytes, p: PassResult)
    requires buf != [] && p == Pass(buf) && !p.spins
    ensures var next := NextAfterPass(buf, p); ParsePackets(buf) == Brought(next) + PacketsDue(next)
  {
    PassPackets(buf, p);
    if p.segs != [] {
      assert p.segs == [p.segs[0]];
      PacketOf(p.segs[0]);
    }
  }

  lemma PacketOf(x: Segment)
    ensures HostPackets([x]) == if x.Frame? && !IsLog(x.data) then [x.data] else []
  {
    FramesOfOne(x);
    if x.Frame? {
      assert [x.data][1..] == [] && Select([x.data][1..], false) == [];
    }
  }

  /** A step that reads nothing brings what it takes from what was due. */
  lemma QuietBrings(r: ReaderPc, port: nat, run: bool, run0: bool, out: Outcome)
    requires Ready(r, out) && !r.Reading? && !(r.EndRead? && r.ret.Failed?)
    ensures var next := Next(r, port, run, run0, out); PacketsDue(r) == Brought(next) + PacketsDue(next)
  {
    if r.Parsing? && !Pass(r.buf).spins {
      PassBrings(r.buf, Pass(r.buf));
    }
  }

  lemma QuietKeepsOwed(t: Trace, r: ReaderPc, port: nat, run: bool, out: Outcome)
    requires Ready(r, out) && !r.Reading? && !(r.EndRead? && r.ret.Failed?)
    ensures var u := AddAll(t, Acts(r, port, run, out)); u.chunks == t.chunks && u.report == t.report
  {
  }

  lemma ReportBrings(st: Reader, buf: bytes, next: ReaderPc, brought: seq<bytes>)
    requires next == LockWait(HW_ERROR_EVENT, LeaveLoop)
    ensures BringsFor(st, [], EndRead(buf, Failed), brought) ==>
              BringsFor(st, [] + HW_ERROR_EVENT, next, brought + Brought(next))
  {
    var owed := HostPackets(st.segs);
    assert brought + [] == brought && owed + [] == owed;
    assert brought + [HW_ERROR_EVENT] + [] == brought + [HW_ERROR_EVENT];
  }

  lemma FailedBrings(t: Trace, buf: bytes, port: nat, run: bool, run0: bool, out: Outcome, brought: seq<bytes>)
    requires Ready(EndRead(buf, Failed), out) && t.report == []
    ensures var r := EndRead(buf, Failed); var next := Next(r, port, run, run0, out);
            Brings(t, r, brought) ==> Brings(AddAll(t, Acts(r, port, run, out)), next, brought + Brought(next))
  {
    if Feasible(t.chunks) && run && port == 0 {
      ReportBrings(Run(t.chunks), buf, LockWait(HW_ERROR_EVENT, LeaveLoop), brought);
    } else {
      assert brought + [] == brought;
    }
  }

  lemma EmptyReadBrings(t: Trace, buf: bytes, port: nat, run: bool, run0: bool, out: Outcome, brought: seq<bytes>)
    requires Ready(Reading(buf), out) && !out.ret.Data?
    ensures var r := Reading(buf); var next := Next(r, port, run, run0, out);
            Brings(t, r, brought) ==> Brings(AddAll(t, Acts(r, port, run, out)), next, brought + Brought(next))
  {
    assert brought + [] == brought;
  }

  lemma NextBrings(t: Trace, r: ReaderPc, port: nat, run: bool, run0: bool, out: Outcome, brought: seq<bytes>)
    requires Ready(r, out) && TraceAgrees(t, r, run0)
    ensures var next := Next(r, port, run, run0, out);
            Brings(t, r, brought) ==> Brings(AddAll(t, Acts(r, port, run, out)), next, brought + Brought(next))
  {
    var next := Next(r, port, run, run0, out);
    if r.Reading? {
      if out.ret.Data? {
        ReadBrings(t, r.buf, out.ret.chunk, brought);
        assert brought + [] == brought;
      } else {
        EmptyReadBrings(t, r.buf, port, run, run0, out, brought);
      }
    } else if r.EndRead? && r.ret.Failed? {
      FailedBrings(t, r.buf, port, run, run0, out, brought);
    } else {
      QuietBrings(r, port, run, run0, out);
      QuietKeepsOwed(t, r, port, run, out);
      Assoc(brought, Brought(next), PacketsDue(next));
    }
  }

  /** A port's reader brings what it owes. */
  predicate PortBrings(p: CloseHandshake.State, brought: seq<bytes>) {
    Brings(Effects(p.actions), p.reader, brought)
  }

  lemma ReaderStepBrings(p: CloseHandshake.State, out: Outcome, brought: seq<bytes>)
    requires ReaderEnabled(p, out) && ReaderRefinement.Refines(p)
    ensures var q := ApplyReader(p, out); PortBrings(p, brought) ==> PortBrings(q, brought + Brought(q.reader))
  {
    ReaderStepEffects(p, out);
    NextBrings(Effects(p.actions), p.reader, p.port, p.run, Running0(p), out, brought);
  }

  // ----- every turn -----

  predicate SystemOk(s: System) {
    && Coupled(s) && LockedStream.Inv(s.shared, s.brought)
    && (forall w :: 0 <= w < |s.ports| ==> ReaderRefinement.Refines(s.ports[w]))
    && (forall w :: 0 <= w < |s.ports| ==> PortBrings(s.ports[w], s.brought[w]))
  }

  lemma StartOk(n: nat)
    ensures SystemOk(Start(n))
  {
    var s := Start(n);
    LockedStream.InitKeeps(seq(n, _ => []));
    assert s.brought == seq(n, _ => []);
    forall w | 0 <= w < n ensures ReaderRefinement.Refines(s.ports[w]) && PortBrings(s.ports[w], s.brought[w]) {
      InitRefines(w);
    }
  }

  lemma InitRefines(w: nat)
    ensures ReaderRefinement.Refines(CloseHandshake.Init(w)) && PortBrings(CloseHandshake.Init(w), [])
  {
    assert Run([]) == Reader([], [], false);
  }

  lemma ReaderMovesBrings(s: System, w: nat, out: Outcome, v: nat)
    requires SystemOk(s) && CanTurn(s, ReaderTurn(w, out)) && v < |s.ports|
    ensures var t := ReaderMoves(s, w, out); v < |t.ports| == |t.brought| && PortBrings(t.ports[v], t.brought[v])
  {
    LockStepEnabled(s.shared, s.brought, s.ports[w], w, out);
    LockStepMatches(s.shared, s.ports[w], w, out);
    LockStepIsOwn(s.shared, s.ports[w].reader, w, out);
    ReaderStepKeepsFlags(s.ports[w], out);
    if v == w {
      ReaderStepBrings(s.ports[w], out, s.brought[w]);
      assert s.brought[w] + [] == s.brought[w];
    }
  }

  lemma ReaderMovesOk(s: System, w: nat, out: Outcome)
    requires SystemOk(s) && CanTurn(s, ReaderTurn(w, out))
    ensures SystemOk(ReaderMoves(s, w, out))
  {
    var t := ReaderMoves(s, w, out);
    ReaderMovesCoupled(s, w, out);
    ReaderMovesKeepsLock(s, w, out);
    forall v | 0 <= v < |t.ports| ensures ReaderRefinement.Refines(t.ports[v]) && PortBrings(t.ports[v], t.brought[v]) {
      ReaderMovesRefines(s, w, out, v);
      ReaderMovesBrings(s, w, out, v);
    }
  }

  lemma CloserMovesOk(s: System, w: nat)
    requires SystemOk(s) && w < |s.ports|
    ensures SystemOk(CloserMoves(s, w))
  {
    var t := CloserMoves(s, w);
    CloserMovesCoupled(s, w);
    LockedStream.StepKeeps(s.shared, s.brought, LockedStream.Stop);
    CloserKeepsPort(s.ports[w]);
    forall v | 0 <= v < |t.ports| ensures ReaderRefinement.Refines(t.ports[v]) && PortBrings(t.ports[v], t.brought[v]) {
      CloserMovesRefines(s, w, v);
      assert PortBrings(s.ports[v], s.brought[v]);
    }
  }

  lemma TurnKeepsOk(s: System, turn: Turn)
    requires SystemOk(s) && CanTurn(s, turn)
    ensures SystemOk(Take(s, turn))
  {
    match turn
    case ReaderTurn(w, out) => ReaderMovesOk(s, w, out);
    case CloserTurn(w) => CloserMovesOk(s, w);
  }

  lemma {:induction false} RunKeepsOk(s: System, turns: seq<Turn>)
    requires SystemOk(s) && CanTake(s, turns)
    ensures SystemOk(TakeAll(s, turns))
    decreases |turns|
  {
    if turns != [] {
      TurnKeepsOk(s, turns[0]);
      RunKeepsOk(Take(s, turns[0]), turns[1..]);
    }
  }

  // ----- results -----

  /** Each port has brought to the lock the first packets its own reassembler owes the host for the bytes
      it has read, in order; all of them when it is back at the top of its loop. */
  predicate OwnPackets(s: System) {
    && |s.brought| == |s.ports|
    && forall w :: 0 <= w < |s.ports| ==>
        var t := Effects(s.ports[w].actions);
        && Feasible(t.chunks)
        && s.brought[w] <= Owed(t)
        && (s.ports[w].reader.LoopCheck? ==> s.brought[w] == Owed(t))
  }

  lemma OkIsOwnPackets(s: System)
    requires SystemOk(s)
    ensures OwnPackets(s)
  {
    forall w | 0 <= w < |s.ports|
      ensures var t := Effects(s.ports[w].actions);
              Feasible(t.chunks) && s.brought[w] <= Owed(t)
              && (s.ports[w].reader.LoopCheck? ==> s.brought[w] == Owed(t))
    {
      assert PortBrings(s.ports[w], s.brought[w]);
      assert s.brought[w] + [] == s.brought[w];
    }
  }

  /** Any number of ports, each reading what its controller sends in any chunks, their closers, and any
      interleaving of all their steps: the host stream is a merge of whole packets and then at most the
      first part of one more; each packet is some port's; each port's are the first ones its own
      reassembler owes for the bytes it has read, in order; and as long as port 0 is not stopped, the
      packets brought and not in the stream are at most one to a port, the one it is waiting or writing
      with. */
  lemma PortsShareHost(n: nat, turns: seq<Turn>)
    requires CanTake(Start(n), turns)
    ensures var s := TakeAll(Start(n), turns);
            && |s.ports| == n && OwnPackets(s)
            && LockedStream.PacketAtomic(s.shared, s.brought)
            && (s.shared.running ==> forall w :: 0 <= w < |s.shared.todo| ==> s.shared.todo[w] == [])
  {
    StartOk(n);
    RunKeepsOk(Start(n), turns);
    SamePorts(Start(n), turns);
    var s := TakeAll(Start(n), turns);
    OkIsOwnPackets(s);
    LockedStream.InvIsPacketAtomic(s.shared, s.brought);
    forall w | 0 <= w < |s.shared.todo| ensures s.shared.todo[w] == [] {
      assert PortCoupled(s.ports[w], w, s.shared);
    }
  }

  lemma {:induction false} SamePorts(s: System, turns: seq<Turn>)
    requires CanTake(s, turns)
    ensures |TakeAll(s, turns).ports| == |s.ports|
    decreases |turns|
  {
    if turns != [] {
      SamePorts(Take(s, turns[0]), turns[1..]);
    }
  }

  /** When port 0 was not stopped and every reader is at the top of its loop, the host stream is all that
      the ports owe, whole: the packets of each in its own order, and nothing else. */
  lemma AllDelivered(n: nat, turns: seq<Turn>)
    requires CanTake(Start(n), turns)
    requires var s := TakeAll(Start(n), turns);
             s.shared.running && forall w :: 0 <= w < |s.ports| ==> s.ports[w].reader.LoopCheck?
    ensures var s := TakeAll(Start(n), turns);
            && |s.ports| == n && s.shared.stream == Concat(LockedStream.Packets(s.shared.history))
            && (forall i :: 0 <= i < |s.shared.history| ==> s.shared.history[i].writer < n)
            && OwnPackets(s)
            && (forall w :: 0 <= w < n ==>
                  LockedStream.Issued(s.shared.history, w) == Owed(Effects(s.ports[w].actions)))
  {
    PortsShareHost(n, turns);
    StartOk(n);
    RunKeepsOk(Start(n), turns);
    var s := TakeAll(Start(n), turns);
    AllIdle(s);
    LockedStream.FinishedState(s.shared, s.brought);
  }

  lemma AllIdle(s: System)
    requires Coupled(s) && forall w :: 0 <= w < |s.ports| ==> s.ports[w].reader.LoopCheck?
    ensures LockedStream.Finished(s.shared)
  {
    forall w | 0 <= w < |s.ports| ensures s.shared.control[w].Idle? && s.shared.todo[w] == [] {
      assert PortCoupled(s.ports[w], w, s.shared);
    }
  }

  /** If the controller sends well-formed packets on a port, what the port owes the host are the first of
      their non-log packets, in order, and a Hardware Error event at most behind them. */
  lemma WellFormedOwed(frames: seq<bytes>, t: Trace)
    requires AllWellFormed(frames) && Feasible(t.chunks) && Concat(t.chunks) <= Concat(frames)
    ensures HostPackets(Run(t.chunks).segs) <= Select(frames, false)
    ensures t.report == [] ==> Owed(t) <= Select(frames, false)
  {
    var st := Run(t.chunks);
    EndToEndFrames(frames, Concat(t.chunks), t.chunks, st);
    var n := |st.segs|;
    assert frames[..n] + frames[n..] == frames;
    SelectAppend(frames[..n], frames[n..], false);
  }
}
