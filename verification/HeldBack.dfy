/**
 Exactly what the parse loop holds back: one run of it told by what the buffer is made of, and when a
 read leaves a whole packet waiting.
 */
module HeldBack {
  import opened Bytes
  import opened HciFraming
  import opened Reassembly
  import opened Chunking
  import opened ReceivePort

  // ----- one run of the parse loop -----

  /** A packet with fewer than four bytes behind it is cut off, and those bytes stay, whatever they are. */
  lemma PacketThenFew(f: bytes, r: bytes)
    requires WellFormed(f) && |r| < 4
    ensures Drain(f + r) == Drained([Frame(f)], r, false)
  {
    WellFormedHead(f, r);
    assert (f + r)[..|f|] == f && (f + r)[|f|..] == r;
  }

  /** With four bytes or more behind it, the loop goes on with those. */
  lemma PacketThenMore(f: bytes, r: bytes)
    requires WellFormed(f) && |r| >= 4
    ensures Drain(f + r) == Drained([Frame(f)] + Drain(r).segs, Drain(r).rest, Drain(r).spins)
  {
    WellFormedHead(f, r);
    assert (f + r)[..|f|] == f && (f + r)[|f|..] == r;
  }

  /** The start of a packet stays. */
  lemma IncompleteStays(p: bytes)
    requires p != [] && Incomplete(p)
    ensures Drain(p) == Drained([], p, false)
  {
    IncompleteNotReady(p);
  }

  /** Bytes of no known type: they start with one that no packet starts with, and hold none of the types
      2, 3, 4 and 7. */
  predicate IsJunk(j: bytes) {
    && j != [] && j[0] != 5
    && forall k :: 0 <= k < |j| ==> j[k] != 2 && j[k] != 3 && j[k] != 4 && j[k] != 7
  }

  predicate Resyncs(r: bytes) {
    r == [] || r[0] == 2 || r[0] == 3 || r[0] == 4 || r[0] == 7
  }

  lemma {:induction false} JunkRunEnds(j: bytes, r: bytes)
    requires Resyncs(r) && forall k :: 0 <= k < |j| ==> j[k] != 2 && j[k] != 3 && j[k] != 4 && j[k] != 7
    ensures FindValidType(j + r) == |j|
    decreases |j|
  {
    if j == [] {
      assert j + r == r;
    } else {
      assert (j + r)[1..] == j[1..] + r;
      JunkRunEnds(j[1..], r);
    }
  }

  /** Junk at the front is dropped and nothing else is done: even whole packets behind it stay. */
  lemma JunkThenAnything(j: bytes, r: bytes)
    requires IsJunk(j) && Resyncs(r)
    ensures Drain(j + r) == Drained([Junk(j)], r, false)
  {
    JunkRunEnds(j, r);
    assert (j + r)[..|j|] == j && (j + r)[|j|..] == r;
  }

  // ----- whole packets -----

  lemma ConcatSplit(frames: seq<bytes>)
    requires frames != []
    ensures Concat(frames) == frames[0] + Concat(frames[1..])
  {
  }

  lemma AtLeastThree(frames: seq<bytes>)
    requires AllWellFormed(frames) && frames != []
    ensures |Concat(frames)| >= 3
    ensures |Concat(frames)| == 3 ==> |frames| == 1 && ZeroParameterEvent(frames[0])
  {
    var f := frames[0];
    assert WellFormed(f);
    if |frames| > 1 {
      assert WellFormed(frames[1..][0]);
      ConcatSplit(frames[1..]);
    }
  }

  /** What one run of the parse loop leaves of whole packets: a last event without parameters, unless it
      is alone, and nothing otherwise. */
  function Leaves(frames: seq<bytes>): bytes {
    if |frames| > 1 && ZeroParameterEvent(frames[|frames| - 1]) then frames[|frames| - 1] else []
  }

  lemma {:induction false} DrainPackets(frames: seq<bytes>)
    requires AllWellFormed(frames) && frames != []
    ensures Concat(frames) != [] && Drain(Concat(frames)).rest == Leaves(frames)
    decreases |frames|
  {
    var f, r := frames[0], Concat(frames[1..]);
    assert WellFormed(f);
    assert AllWellFormed(frames[1..]);
    if |frames| == 1 {
      assert f + r == f;
      PacketThenFew(f, []);
    } else {
      AtLeastThree(frames[1..]);
      assert frames[1..][|frames| - 2] == frames[|frames| - 1];
      if |r| < 4 {
        PacketThenFew(f, r);
        assert r == frames[1] + [];
      } else {
        PacketThenMore(f, r);
        DrainPackets(frames[1..]);
        LongerLeaves(frames, r);
      }
    }
  }

  lemma LongerLeaves(frames: seq<bytes>, r: bytes)
    requires AllWellFormed(frames) && |frames| > 1 && r == Concat(frames[1..]) && |r| >= 4
    ensures Leaves(frames[1..]) == Leaves(frames)
  {
    if |frames| == 2 {
      assert r == frames[1] + [];
    }
    assert frames[1..][|frames| - 2] == frames[|frames| - 1];
  }

  // ----- the last read of a stream -----

  lemma RunOfLast(before: seq<bytes>, chunk: bytes)
    requires Feasible(before + [chunk])
    ensures Feasible(before) && CanRead(Run(before), chunk)
    ensures Run(before + [chunk]) == Feed(Run(before), chunk) && Concat(before + [chunk]) == Concat(before) + chunk
  {
    assert (before + [chunk])[..|before|] == before;
    RunSnoc(before, chunk);
  }

  /** What the last read of a stream of whole packets is parsed with are the packets not yet delivered. */
  lemma LastReadIsPackets(frames: seq<bytes>, before: seq<bytes>, chunk: bytes) returns (n: nat)
    requires AllWellFormed(frames) && Feasible(before) && CanRead(Run(before), chunk)
    requires Concat(before) + chunk == Concat(frames)
    ensures n < |frames| && Run(before).buf + chunk == Concat(frames[n..])
  {
    var st := Run(before);
    EndToEndFrames(frames, Concat(before), before, st);
    n := |st.segs|;
    assert frames == frames[..n] + frames[n..];
    ConcatAppend(frames[..n], frames[n..]);
    assert Concat(frames[..n]) + (st.buf + chunk) == Concat(frames[..n]) + Concat(frames[n..]);
    assert st.buf + chunk == (Concat(frames[..n]) + (st.buf + chunk))[|Concat(frames[..n])|..];
  }

  /** A trailing event without parameters is held back exactly if the last read was not parsed as that
      event alone; then it stays in the buffer, and in no other case does anything stay. */
  lemma HeldBackExactly(frames: seq<bytes>, before: seq<bytes>, chunk: bytes)
    requires AllWellFormed(frames) && frames != []
    requires Feasible(before + [chunk]) && Concat(before + [chunk]) == Concat(frames)
    ensures Feasible(before)
    ensures var e, buf := frames[|frames| - 1], Run(before + [chunk]).buf;
            && (buf == e <==> ZeroParameterEvent(e) && Run(before).buf + chunk != e)
            && (buf != e ==> buf == [])
  {
    RunOfLast(before, chunk);
    var n := LastReadIsPackets(frames, before, chunk);
    var rest := frames[n..];
    DrainPackets(rest);
    var e := frames[|frames| - 1];
    assert rest[|rest| - 1] == e && WellFormed(e);
    if |rest| == 1 {
      assert Concat(rest) == e + [];
    } else {
      assert AllWellFormed(rest);
      TwoAreLonger(rest);
    }
  }

  lemma TwoAreLonger(frames: seq<bytes>)
    requires AllWellFormed(frames) && |frames| > 1
    ensures |Concat(frames)| > |frames[|frames| - 1]|
  {
    var n := |frames| - 1;
    assert frames == frames[..n] + [frames[n]];
    ConcatSnoc(frames[..n], frames[n]);
    assert WellFormed(frames[..n][0]);
    AtLeastThree(frames[..n]);
  }

  // ----- examples -----

  lemma FeedIs(st: Reader, chunk: bytes, s: bytes, d: Drained)
    requires CanRead(st, chunk) && s == st.buf + chunk && d == Drain(s)
    ensures Feed(st, chunk) == Reader(st.segs + d.segs, d.rest, d.spins)
  {
  }

  lemma EmptyFirst<T>(a: seq<T>)
    ensures [] + a == a
  {
  }

  lemma FeedFresh(x: bytes)
    requires 0 < |x| <= BUFFER_SIZE
    ensures Feed(Reader([], [], false), x) == Reader(Drain(x).segs, Drain(x).rest, Drain(x).spins)
  {
    EmptyFirst(x);
    EmptyFirst(Drain(x).segs);
    FeedIs(Reader([], [], false), x, x, Drain(x));
  }

  lemma FirstRead(x: bytes)
    requires 0 < |x| <= BUFFER_SIZE
    ensures Feasible([x]) && Run([x]) == Reader(Drain(x).segs, Drain(x).rest, Drain(x).spins)
  {
    FeedFresh(x);
    assert Run([]) == Reader([], [], false);
    RunSnoc([], x);
    assert [] + [x] == [x];
  }

  lemma SecondRead(x: bytes, y: bytes)
    requires Feasible([x]) && CanRead(Run([x]), y)
    ensures Feasible([x, y]) && Run([x, y]) == Feed(Run([x]), y)
  {
    RunSnoc([x], y);
    assert [x] + [y] == [x, y];
  }

  lemma JunkAlone(j: bytes)
    requires IsJunk(j)
    ensures Drain(j) == Drained([Junk(j)], [], false) && Frames(Drain(j).segs) == []
  {
    assert j + [] == j;
    JunkThenAnything(j, []);
    FramesOfOne(Junk(j));
  }

  /** An event without parameters followed by FF in one read, and 05 00 00 00 00 in the next: FF stays
      behind the event and is then dropped together with all that follows. */
  lemma JunkStaysBehind(e: bytes, x: bytes, y: bytes)
    requires e == [4, 0x0E, 0] && x == [4, 0x0E, 0, 0xFF] && y == [5, 0, 0, 0, 0]
    ensures Drain(x) == Drained([Frame(e)], [0xFF], false)
    ensures Feasible([x, y]) && Frames(Run([x, y]).segs) == [e] && Run([x, y]).buf == []
  {
    assert x == e + [0xFF];
    PacketThenFew(e, [0xFF]);
    FirstRead(x);
    FramesOfOne(Frame(e));
    JunkAlone([0xFF] + y);
    SecondRead(x, y);
    FramesFed(Run([x]), y);
  }

  /** Two events without parameters in one read: the second waits. */
  lemma SecondEventWaits(e: bytes, f: bytes)
    requires e == [4, 0x0E, 0] && f == [4, 0x13, 0]
    ensures Feasible([e + f]) && Frames(Run([e + f]).segs) == [e] && Run([e + f]).buf == f
  {
    PacketThenFew(e, f);
    FirstRead(e + f);
    FramesOfOne(Frame(e));
  }
}
