/**
 When the reassembler's result does not depend on how the input is split into reads, and what it
 delivers on streams of well-formed packets.
 */
module Chunking {
  import opened Bytes
  import opened HciFraming
  import opened Reassembly

  // ----- one byte per read -----

  function Bytewise(s: bytes): seq<bytes> {
    seq(|s|, i requires 0 <= i < |s| => [s[i]])
  }

  /** Every header the one-shot parser meets promises a packet that fits the buffer. */
  predicate FitsBuffer(s: bytes)
    decreases |s|
  {
    if s == [] then true
    else if !Accepted(s[0]) then FitsBuffer(s[1..])
    else HeaderComplete(s) ==>
      && DeclaredLength(s) <= BUFFER_SIZE
      && (HeadReady(s) ==> FitsBuffer(s[CutLength(s)..]))
  }

  lemma {:induction false} FitsBufferResumes(s: bytes, x: bytes)
    requires FitsBuffer(s + x)
    ensures FitsBuffer(s) && FitsBuffer(OneShot(s).rest + x)
    decreases |s|
  {
    if s == [] {
      assert s + x == x;
    } else if !Accepted(s[0]) {
      assert (s + x)[1..] == s[1..] + x;
      FitsBufferResumes(s[1..], x);
    } else if HeadReady(s) {
      var n := CutLength(s);
      HeaderIsPrefixStable(s, x);
      assert (s + x)[n..] == s[n..] + x;
      FitsBufferResumes(s[n..], x);
    } else if HeaderComplete(s) {
      HeaderIsPrefixStable(s, x);
    }
  }

  lemma {:induction false} OneShotRest(s: bytes)
    ensures var r := OneShot(s).rest; r == [] || (Accepted(r[0]) && !HeadReady(r))
    decreases |s|
  {
    if s != [] && !Accepted(s[0]) {
      OneShotRest(s[1..]);
    } else if s != [] && HeadReady(s) {
      OneShotRest(s[CutLength(s)..]);
    }
  }

  lemma WholePacketAlone(s: bytes)
    requires HeadReady(s) && CutLength(s) == |s|
    ensures Drain(s) == Drained([Frame(s)], [], false) && OneShot(s) == Parse([s], [])
  {
    assert s[|s|..] == [] && s[..|s|] == s;
  }

  lemma JunkByteAlone(b: byte)
    requires !Accepted(b)
    ensures Drain([b]) == Drained([Junk([b])], [], false) && OneShot([b]) == Parse([], [])
  {
    var s := [b];
    assert FindValidType(s) == 1 + FindValidType(s[1..]);
    assert s[1..] == [] && s[..1] == s;
  }

  lemma FramesOfOne(x: Segment)
    ensures Frames([x]) == if x.Frame? then [x.data] else []
  {
    assert [x][1..] == [];
  }

  /** A packet that was incomplete is, with one more byte, still incomplete or exactly whole. */
  lemma CompletedExactly(r: bytes, b: byte)
    requires r != [] && Accepted(r[0]) && !HeadReady(r) && FitsBuffer(r + [b])
    ensures HeadReady(r + [b]) ==> CutLength(r + [b]) == |r| + 1
    ensures |r| < BUFFER_SIZE
  {
    if HeaderComplete(r) {
      HeaderIsPrefixStable(r, [b]);
    }
  }

  /** One more byte on an incomplete packet: the parse loop does what the one-shot parser does. */
  lemma DrainOneMoreByte(r: bytes, b: byte)
    requires r == [] || (Accepted(r[0]) && !HeadReady(r))
    requires FitsBuffer(r + [b])
    ensures |r| < BUFFER_SIZE
    ensures var d, p := Drain(r + [b]), OneShot(r + [b]);
            !d.spins && d.rest == p.rest && Frames(d.segs) == p.frames
  {
    var s := r + [b];
    if r == [] {
      assert s == [b];
      FramesOfOne(Junk([b]));
      if !Accepted(b) {
        JunkByteAlone(b);
      }
    } else {
      CompletedExactly(r, b);
      FramesOfOne(Frame(s));
      if HeadReady(s) {
        WholePacketAlone(s);
      }
    }
  }

  /** The one-shot parser is the reader fed one byte at a time, on every stream whose packets fit. */
  lemma {:induction false} BytewiseIsOneShot(s: bytes)
    requires FitsBuffer(s)
    ensures Feasible(Bytewise(s)) && Concat(Bytewise(s)) == s
    ensures Run(Bytewise(s)).buf == OneShot(s).rest && !Run(Bytewise(s)).spins
    ensures Frames(Run(Bytewise(s)).segs) == OneShot(s).frames
    decreases |s|
  {
    if s != [] {
      var t, b := s[..|s| - 1], s[|s| - 1];
      assert s == t + [b];
      FitsBufferResumes(t, [b]);
      BytewiseIsOneShot(t);
      OneShotRest(t);
      DrainOneMoreByte(OneShot(t).rest, b);
      assert Bytewise(s) == Bytewise(t) + [[b]];
      RunSnoc(Bytewise(t), [b]);
      FramesAppend(Run(Bytewise(t)).segs, Drain(OneShot(t).rest + [b]).segs);
      OneShotResumes(t, [b]);
    }
  }

  // ----- exactly when the split does not matter -----

  /** At every point of the stream, any two splits agree on the packets delivered or whole in the
      buffer, in order, and on what is left besides. */
  ghost predicate ChunkIndependent(s: bytes) {
    forall k: nat, a: seq<bytes>, b: seq<bytes> {:trigger s[..k], Run(a), Run(b)} ::
      k <= |s| && Feasible(a) && Feasible(b) && Concat(a) == s[..k] && Concat(b) == s[..k]
      ==> Meaning(Run(a)) == Meaning(Run(b))
  }

  /** Where safety first fails: junk at k - 2 with nothing pending before it, ISO at k - 1. */
  lemma {:induction false} IsoViolation(s: bytes) returns (k: nat)
    requires FitsBuffer(s) && !IsoSafe(s)
    ensures 2 <= k <= |s| && !Accepted(s[k - 2]) && s[k - 1] == ISO_PKT && OneShot(s[..k - 2]).rest == []
    decreases |s|
  {
    if !Accepted(s[0]) && s[1] == ISO_PKT {
      k := 2;
    } else {
      var n := if Accepted(s[0]) then CutLength(s) else 1;
      var k' := IsoViolation(s[n..]);
      k := k' + n;
      assert s[n..][..k' - 2] == s[..k - 2][n..];
      if Accepted(s[0]) {
        HeaderCutOff(s, k - 2);
      }
    }
  }

  lemma HeaderCutOff(s: bytes, k: nat)
    requires HeadReady(s) && CutLength(s) <= k <= |s|
    requires DeclaredLength(s) < U16
    ensures HeadReady(s[..k]) && CutLength(s[..k]) == CutLength(s)
  {
  }

  /** For streams whose packets fit the buffer, independence of the split is the same thing as no ISO
      byte directly after junk. Packets waiting in the buffer count as delivered here. */
  lemma ChunkIndependenceExactly(s: bytes)
    requires FitsBuffer(s)
    ensures ChunkIndependent(s) <==> IsoSafe(s)
  {
    if IsoSafe(s) {
      forall k: nat, a: seq<bytes>, b: seq<bytes>
        | k <= |s| && Feasible(a) && Feasible(b) && Concat(a) == s[..k] && Concat(b) == s[..k]
        ensures Meaning(Run(a)) == Meaning(Run(b))
      {
        assert s[..k] + s[k..] == s;
        RunRefinesOneShot(a, s[k..]);
        RunRefinesOneShot(b, s[k..]);
      }
    } else {
      SplitMatters(s);
    }
  }

  /** Read together, junk and an ISO byte after it are both dropped; read apart, the ISO byte stays. */
  lemma JunkThenIso(j: byte)
    requires !Accepted(j)
    ensures Drain([j, ISO_PKT]) == Drained([Junk([j, ISO_PKT])], [], false)
    ensures OneShot([j, ISO_PKT]) == Parse([], [ISO_PKT])
  {
    var s := [j, ISO_PKT];
    assert s[1..] == [ISO_PKT];
    assert FindValidType(s) == 2;
    assert s[..2] == s;
  }

  lemma ReadTogether(t: bytes, j: byte) returns (a: seq<bytes>)
    requires FitsBuffer(t) && OneShot(t).rest == [] && !Accepted(j)
    ensures Feasible(a) && Concat(a) == t + [j, ISO_PKT]
    ensures Meaning(Run(a)).rest == []
  {
    var x := [j, ISO_PKT];
    BytewiseIsOneShot(t);
    assert [] + x == x;
    RunSnoc(Bytewise(t), x);
    JunkThenIso(j);
    a := Bytewise(t) + [x];
    assert Run(a).buf == [];
  }

  lemma ReadApart(t: bytes, j: byte)
    requires FitsBuffer(t + [j, ISO_PKT]) && OneShot(t).rest == [] && !Accepted(j)
    ensures Feasible(Bytewise(t + [j, ISO_PKT])) && Concat(Bytewise(t + [j, ISO_PKT])) == t + [j, ISO_PKT]
    ensures Meaning(Run(Bytewise(t + [j, ISO_PKT]))).rest == [ISO_PKT]
  {
    var x := [j, ISO_PKT];
    BytewiseIsOneShot(t + x);
    OneShotResumes(t, x);
    assert [] + x == x;
    JunkThenIso(j);
    assert Run(Bytewise(t + x)).buf == [ISO_PKT];
  }

  lemma SplitMatters(s: bytes)
    requires FitsBuffer(s) && !IsoSafe(s)
    ensures !ChunkIndependent(s)
  {
    var k := IsoViolation(s);
    var t, j := s[..k - 2], s[k - 2];
    assert s[..k] == t + [j, ISO_PKT];
    assert s == s[..k] + s[k..];
    FitsBufferResumes(s[..k], s[k..]);
    FitsBufferResumes(t, [j, ISO_PKT]);
    var a := ReadTogether(t, j);
    ReadApart(t, j);
    var b := Bytewise(s[..k]);
    assert Meaning(Run(a)) != Meaning(Run(b));
  }

  // ----- what the split does to what is delivered -----

  /** On a safe stream every split delivers a first part of the one-shot parser's packets, and holds
      the others whole in its buffer. */
  lemma DeliveredIsFirstPart(s: bytes, a: seq<bytes>)
    requires IsoSafe(s) && Feasible(a) && Concat(a) == s
    ensures Frames(Run(a).segs) + OneShot(Run(a).buf).frames == OneShot(s).frames
    ensures Frames(Run(a).segs) <= OneShot(s).frames
  {
    assert s + [] == s;
    RunRefinesOneShot(a, []);
  }

  lemma FramesFed(st: Reader, chunk: bytes)
    requires CanRead(st, chunk)
    ensures Frames(Feed(st, chunk).segs) == Frames(st.segs) + Frames(Drain(st.buf + chunk).segs)
  {
    FramesAppend(st.segs, Drain(st.buf + chunk).segs);
  }

  lemma EmptyIsoPacket(iso: bytes)
    requires iso == [ISO_PKT, 0, 0, 0, 0]
    ensures Drain(iso) == Drained([Frame(iso)], [], false)
  {
    assert HeaderComplete(iso) && PayloadLength(iso) == 0;
    WholePacketAlone(iso);
  }

  lemma ZerosAreJunk(z: bytes)
    requires z == [0, 0, 0, 0]
    ensures Frames(Drain(z).segs) == []
  {
    FramesOfOne(Junk(z[..FindValidType(z)]));
  }

  /** Four bytes more, after the two reads together and after the two reads apart. */
  lemma MoreAfterTogether(t: bytes, j: byte, z: bytes) returns (a: seq<bytes>)
    requires FitsBuffer(t) && OneShot(t).rest == [] && !Accepted(j) && z == [0, 0, 0, 0]
    ensures Feasible(a) && Concat(a) == t + [j, ISO_PKT] + z && Frames(Run(a).segs) == OneShot(t).frames
  {
    var x := [j, ISO_PKT];
    BytewiseIsOneShot(t);
    assert [] + x == x && [] + z == z;
    RunSnoc(Bytewise(t), x);
    JunkThenIso(j);
    FramesFed(Run(Bytewise(t)), x);
    FramesOfOne(Junk(x));
    var b := Bytewise(t) + [x];
    RunSnoc(b, z);
    FramesFed(Run(b), z);
    ZerosAreJunk(z);
    a := b + [z];
  }

  lemma IsoCompleted(a: seq<bytes>, z: bytes, iso: bytes)
    requires Feasible(a) && Run(a).buf == [ISO_PKT] && !Run(a).spins
    requires z == [0, 0, 0, 0] && iso == [ISO_PKT] + z
    ensures Feasible(a + [z]) && Concat(a + [z]) == Concat(a) + z
    ensures Frames(Run(a + [z]).segs) == Frames(Run(a).segs) + [iso]
  {
    RunSnoc(a, z);
    FramesFed(Run(a), z);
    EmptyIsoPacket(iso);
    FramesOfOne(Frame(iso));
  }

  lemma MoreAfterApart(t: bytes, j: byte, z: bytes) returns (b: seq<bytes>)
    requires FitsBuffer(t + [j, ISO_PKT]) && OneShot(t).rest == [] && !Accepted(j) && z == [0, 0, 0, 0]
    ensures Feasible(b) && Concat(b) == t + [j, ISO_PKT] + z
    ensures Frames(Run(b).segs) == OneShot(t).frames + [[ISO_PKT] + z]
  {
    var x := [j, ISO_PKT];
    BytewiseIsOneShot(t + x);
    OneShotResumes(t, x);
    assert [] + x == x;
    JunkThenIso(j);
    var a := Bytewise(t + x);
    IsoCompleted(a, z, [ISO_PKT] + z);
    b := a + [z];
  }

  /** a and b are two splits of the first k bytes of s and then x; b delivers one packet more than a. */
  ghost predicate DeliverDifferently(s: bytes, k: nat, x: bytes, a: seq<bytes>, b: seq<bytes>) {
    && k <= |s| && Feasible(a) && Feasible(b) && Concat(a) == Concat(b) == s[..k] + x
    && Frames(Run(b).segs) == Frames(Run(a).segs) + [[ISO_PKT] + x]
  }

  /** Whenever an ISO byte follows directly on junk, the split changes what is delivered: with the bytes
      up to there and four zeros, one split of the same stream delivers a packet that another does not. */
  lemma SplitChangesDelivery(s: bytes) returns (k: nat, x: bytes, a: seq<bytes>, b: seq<bytes>)
    requires FitsBuffer(s) && !IsoSafe(s)
    ensures DeliverDifferently(s, k, x, a, b)
  {
    k := IsoViolation(s);
    x := [0, 0, 0, 0];
    var t, j := s[..k - 2], s[k - 2];
    assert s[..k] == t + [j, ISO_PKT];
    assert s == s[..k] + s[k..];
    FitsBufferResumes(s[..k], s[k..]);
    FitsBufferResumes(t, [j, ISO_PKT]);
    a := MoreAfterTogether(t, j, x);
    b := MoreAfterApart(t, j, x);
  }

  // ----- streams of well-formed packets -----

  ghost predicate AllWellFormed(frames: seq<bytes>) {
    forall f :: f in frames ==> WellFormed(f)
  }

  /** Nothing, or the start of a well-formed packet. */
  predicate Incomplete(p: bytes) {
    p == [] || (Accepted(p[0]) && (HeaderComplete(p) ==> |p| < DeclaredLength(p) < U16))
  }

  lemma WellFormedHead(f: bytes, x: bytes)
    requires WellFormed(f)
    ensures HeadReady(f + x) && CutLength(f + x) == |f| >= 3
  {
    HeaderIsPrefixStable(f, x);
  }

  lemma HeadOfFrames(frames: seq<bytes>, partial: bytes)
    requires AllWellFormed(frames) && frames != []
    ensures var s := Concat(frames) + partial;
            && HeadReady(s) && CutLength(s) == |frames[0]| >= 3
            && s == frames[0] + (Concat(frames[1..]) + partial)
            && s[|frames[0]|..] == Concat(frames[1..]) + partial
  {
    var f, x := frames[0], Concat(frames[1..]) + partial;
    assert WellFormed(f);
    WellFormedHead(f, x);
    assert Concat(frames) + partial == f + x;
  }

  /** The first segment of a well-formed stream is its first packet. */
  lemma FirstSegment(frames: seq<bytes>, partial: bytes, segs: seq<Segment>, rest: bytes)
    requires AllWellFormed(frames) && Incomplete(partial) && segs != []
    requires Segmentation(Concat(frames) + partial, segs, rest)
    ensures frames != [] && segs[0] == Frame(frames[0])
    ensures Segmentation(Concat(frames[1..]) + partial, segs[1..], rest)
  {
    var s := Concat(frames) + partial;
    assert segs[0].data[0] == s[0];
    if frames == [] {
      assert false;
    }
    HeadOfFrames(frames, partial);
  }

  /** The segments are the first packets, and rest what is left of the stream behind them. */
  predicate FirstOnes(frames: seq<bytes>, partial: bytes, segs: seq<Segment>, rest: bytes) {
    && |segs| <= |frames| && Frames(segs) == frames[..|segs|]
    && (forall i :: 0 <= i < |segs| ==> segs[i].Frame?)
    && rest == Concat(frames[|segs|..]) + partial
  }

  lemma OneMoreFirst(frames: seq<bytes>, partial: bytes, segs: seq<Segment>, rest: bytes)
    requires frames != [] && segs != [] && segs[0] == Frame(frames[0])
    ensures FirstOnes(frames[1..], partial, segs[1..], rest) ==> FirstOnes(frames, partial, segs, rest)
  {
    if FirstOnes(frames[1..], partial, segs[1..], rest) {
      assert frames[..|segs|] == [frames[0]] + frames[1..][..|segs| - 1];
      assert frames[|segs|..] == frames[1..][|segs| - 1..];
      forall i | 0 <= i < |segs| ensures segs[i].Frame? {
        assert i > 0 ==> segs[i] == segs[1..][i - 1];
      }
    }
  }

  /** On a well-formed stream the segments are the stream's own packets, in order. */
  lemma {:induction false} SegmentsAreFrames(frames: seq<bytes>, partial: bytes, segs: seq<Segment>, rest: bytes)
    requires AllWellFormed(frames) && Incomplete(partial)
    requires Segmentation(Concat(frames) + partial, segs, rest)
    ensures FirstOnes(frames, partial, segs, rest)
    decreases |segs|
  {
    if segs == [] {
      assert frames[|segs|..] == frames;
    } else {
      FirstSegment(frames, partial, segs, rest);
      SegmentsAreFrames(frames[1..], partial, segs[1..], rest);
      OneMoreFirst(frames, partial, segs, rest);
    }
  }

  /** The reader does not spin, it has delivered every whole packet but at most one trailing
      three-byte event, and what it holds is that event or the incomplete packet. */
  predicate DeliversAll(r: Reader, frames: seq<bytes>, partial: bytes) {
    && !r.spins
    && ((Frames(r.segs) == frames && r.buf == partial)
        || (partial == [] && ZeroParameterEvent(r.buf) && Frames(r.segs) + [r.buf] == frames))
  }

  /** So it is on a well-formed stream, under every split into reads. */
  lemma WellFormedRun(frames: seq<bytes>, partial: bytes, chunks: seq<bytes>)
    requires AllWellFormed(frames) && Incomplete(partial)
    requires Feasible(chunks) && Concat(chunks) == Concat(frames) + partial
    ensures DeliversAll(Run(chunks), frames, partial)
  {
    RunSegments(chunks);
    SegmentsAreFrames(frames, partial, Run(chunks).segs, Run(chunks).buf);
    SettledDeliversAll(Run(chunks), frames, partial);
  }

  /** A reader whose segments are the first packets, and that has nothing of four bytes or more waiting. */
  lemma SettledDeliversAll(r: Reader, frames: seq<bytes>, partial: bytes)
    requires AllWellFormed(frames) && Incomplete(partial)
    requires |r.segs| <= |frames| && Frames(r.segs) == frames[..|r.segs|]
    requires r.buf == Concat(frames[|r.segs|..]) + partial
    requires r.spins ==> ZeroCut(r.buf)
    requires |r.buf| < 4 || !HeadReady(r.buf)
    ensures DeliversAll(r, frames, partial)
  {
    var k := |r.segs|;
    if k < |frames| {
      LeftoverIsLast(frames, partial, k, r.buf);
      assert frames == frames[..k] + [frames[k]];
    } else {
      assert frames[..k] == frames && frames[k..] == [];
      IncompleteNotReady(partial);
    }
  }

  lemma IncompleteNotReady(partial: bytes)
    requires Incomplete(partial)
    ensures !HeadReady(partial) && !ZeroCut(partial)
  {
  }

  /** A whole packet can only be left waiting if it is the last thing received and three bytes long. */
  lemma LeftoverIsLast(frames: seq<bytes>, partial: bytes, k: nat, buf: bytes)
    requires AllWellFormed(frames) && k < |frames| && buf == Concat(frames[k..]) + partial
    requires |buf| < 4 || !HeadReady(buf)
    ensures partial == [] && ZeroParameterEvent(buf) && k + 1 == |frames| && buf == frames[k]
    ensures !ZeroCut(buf)
  {
    HeadOfFrames(frames[k..], partial);
    assert frames[k..][1..] == frames[k + 1..];
    LeftoverIsEvent(frames[k], frames[k + 1..], partial);
  }

  predicate ZeroParameterEvent(f: bytes) {
    |f| == 3 && f[0] == EVENT_PKT && f[2] == 0
  }

  lemma LeftoverIsEvent(f: bytes, more: seq<bytes>, partial: bytes)
    requires WellFormed(f) && AllWellFormed(more) && |f + (Concat(more) + partial)| < 4
    ensures ZeroParameterEvent(f) && more == [] && partial == []
    ensures f + (Concat(more) + partial) == f
  {
    if more != [] {
      HeadOfFrames(more, partial);
    }
  }

  /** With packets and pending start of at most 2056 bytes, every read has room: the reader never
      asks for zero bytes. */
  lemma ReadAlwaysHasRoom(frames: seq<bytes>, partial: bytes, chunks: seq<bytes>)
    requires AllWellFormed(frames) && Incomplete(partial)
    requires HeaderComplete(partial) ==> DeclaredLength(partial) <= 2056
    requires Feasible(chunks) && Concat(chunks) == Concat(frames) + partial
    ensures |Run(chunks).buf| < 2056
  {
    WellFormedRun(frames, partial, chunks);
  }

  /** The parse loop leaves a full buffer full, so that the next read asks for zero bytes, exactly
      when the packet at its front computes a length beyond the buffer or a length of zero. */
  lemma {:induction false} StallsExactly(s: bytes)
    requires |s| == 2056
    ensures |Drain(s).rest| == 2056 <==> HeaderComplete(s) && (CutLength(s) > 2056 || CutLength(s) == 0)
  {
    DrainSegments(s);
    if !Accepted(s[0]) {
      assert FindValidType(s) > 0;
    } else if HeadReady(s) {
      if |s| - CutLength(s) >= 4 {
        DrainShrinks(s[CutLength(s)..]);
      }
    }
  }

  lemma DrainShrinks(s: bytes)
    requires s != []
    ensures |Drain(s).rest| <= |s|
  {
    DrainSegments(s);
    SegmentationConserves(s, Drain(s).segs, Drain(s).rest);
  }

  lemma TwoReads(x: bytes, y: bytes)
    requires 0 < |x| <= BUFFER_SIZE && 0 < |y| <= BUFFER_SIZE
    requires Drain(x).rest == [] && !Drain(x).spins
    ensures Feasible([x, y]) && Concat([x, y]) == x + y
    ensures Frames(Run([x, y]).segs) == Frames(Drain(x).segs) + Frames(Drain(y).segs)
  {
    assert [] + x == x && [] + y == y;
    RunSnoc([], x);
    assert [] + [x] == [x];
    RunSnoc([x], y);
    assert [x] + [y] == [x, y];
    assert Run([x]).segs == Drain(x).segs;
    FramesAppend(Drain(x).segs, Drain(y).segs);
  }

  /** A stream the split matters for: read as FF 05 | 00 00 00 00 nothing is delivered, read as
      FF | 05 00 00 00 00 an ISO packet is. */
  lemma GarbageDropped(x: bytes, z: bytes)
    requires x == [0xFF, ISO_PKT] && z == [0, 0, 0, 0]
    ensures Feasible([x, z]) && Concat([x, z]) == x + z && Frames(Run([x, z]).segs) == []
  {
    JunkThenIso(0xFF);
    FramesOfOne(Junk(x));
    FramesOfOne(Junk(z[..FindValidType(z)]));
    TwoReads(x, z);
  }

  lemma GarbageDelivered(j: bytes, iso: bytes)
    requires j == [0xFF] && iso == [ISO_PKT, 0, 0, 0, 0]
    ensures Feasible([j, iso]) && Concat([j, iso]) == j + iso
    ensures Frames(Run([j, iso]).segs) == [iso]
  {
    JunkByteAlone(0xFF);
    EmptyIsoPacket(iso);
    assert Frames([Junk(j)]) == [] && Frames([Frame(iso)]) == [iso] by {
      FramesOfOne(Junk(j));
      FramesOfOne(Frame(iso));
    }
    TwoReads(j, iso);
  }
}
