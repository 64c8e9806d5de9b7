/**
 The receive path's packet reassembler as functions on byte strings: what one pass of the parse
 loop does to a buffer, what a sequence of reads does, and a one-shot parser of the whole stream
 that the reads are compared with.
 */
module Reassembly {
  import opened Bytes
  import opened HciFraming

  const BUFFER_SIZE: nat := 2056

  /** A stretch of received bytes: delivered as one packet, or thrown away. */
  datatype Segment = Frame(data: bytes) | Junk(data: bytes)

  function Frames(segs: seq<Segment>): seq<bytes> {
    if segs == [] then []
    else (if segs[0].Frame? then [segs[0].data] else []) + Frames(segs[1..])
  }

  lemma {:induction false} FramesAppend(a: seq<Segment>, b: seq<Segment>)
    ensures Frames(a + b) == Frames(a) + Frames(b)
  {
    if a == [] {
      assert a + b == b;
    } else {
      FramesAppend(a[1..], b);
      assert (a + b)[1..] == a[1..] + b;
      Assoc(if a[0].Frame? then [a[0].data] else [], Frames(a[1..]), Frames(b));
    }
  }

  // ----- one pass of the parse loop -----

  /** Index of the first byte a junk run ends at, or the length. */
  function FindValidType(s: bytes): (i: nat)
    ensures i <= |s|
    ensures forall k :: 0 <= k < i ==> s[k] != 2 && s[k] != 3 && s[k] != 4 && s[k] != 7
    ensures i < |s| ==> s[i] == 2 || s[i] == 3 || s[i] == 4 || s[i] == 7
  {
    if s == [] || ResyncType(s[0]) then 0 else 1 + FindValidType(s[1..])
  }

  datatype Drained = Drained(segs: seq<Segment>, rest: bytes, spins: bool)

  /** What the parse loop makes of a filled buffer. A zero computed length cuts nothing off and
      starts the same iteration again: the loop spins. */
  function Drain(s: bytes): Drained
    requires s != []
    decreases |s|
  {
    if !Accepted(s[0]) then
      var v := FindValidType(s);
      Drained([Junk(s[..v])], s[v..], false)
    else if ZeroCut(s) then Drained([], s, true)
    else if HeadReady(s) then
      var n := CutLength(s);
      if |s| - n >= 4 then
        var d := Drain(s[n..]);
        Drained([Frame(s[..n])] + d.segs, d.rest, d.spins)
      else Drained([Frame(s[..n])], s[n..], false)
    else Drained([], s, false)
  }

  // ----- the parse loop, one iteration at a time -----

  datatype PassResult = PassResult(segs: seq<Segment>, rest: bytes, more: bool, spins: bool)

  function Pass(s: bytes): PassResult
    requires s != []
  {
    if !Accepted(s[0]) then
      var v := FindValidType(s);
      PassResult([Junk(s[..v])], s[v..], false, false)
    else if ZeroCut(s) then PassResult([], s, false, true)
    else if HeadReady(s) then
      var n := CutLength(s);
      PassResult([Frame(s[..n])], s[n..], |s| - n >= 4, false)
    else PassResult([], s, false, false)
  }

  /** Drain is Pass repeated; each pass that is followed by another shortens the buffer, by three
      bytes or more unless the length wrapped. */
  lemma DrainByPasses(s: bytes)
    requires s != []
    ensures var p := Pass(s);
            if p.more then
              && p.rest != [] && |p.rest| < |s| && (DeclaredLength(s) < U16 ==> |p.rest| <= |s| - 3)
              && Drain(s) == Prepend(p.segs, Drain(p.rest))
            else Drain(s) == Drained(p.segs, p.rest, p.spins)
  {
  }

  ghost function Prepend(done: seq<Segment>, d: Drained): Drained {
    Drained(done + d.segs, d.rest, d.spins)
  }

  // ----- reads -----

  datatype Reader = Reader(segs: seq<Segment>, buf: bytes, spins: bool)

  /** A read can return this chunk: not while spinning, not empty, and only into free space. */
  predicate CanRead(st: Reader, chunk: bytes) {
    !st.spins && chunk != [] && |st.buf| + |chunk| <= BUFFER_SIZE
  }

  function Feed(st: Reader, chunk: bytes): Reader
    requires CanRead(st, chunk)
  {
    var d := Drain(st.buf + chunk);
    Reader(st.segs + d.segs, d.rest, d.spins)
  }

  /** These chunks can be the results of successive reads of a fresh reader. */
  predicate Feasible(chunks: seq<bytes>)
    decreases |chunks|, 0
  {
    chunks == [] ||
    (Feasible(chunks[..|chunks| - 1]) && CanRead(Run(chunks[..|chunks| - 1]), chunks[|chunks| - 1]))
  }

  function Run(chunks: seq<bytes>): Reader
    requires Feasible(chunks)
    decreases |chunks|, 1
  {
    if chunks == [] then Reader([], [], false)
    else Feed(Run(chunks[..|chunks| - 1]), chunks[|chunks| - 1])
  }

  lemma RunSnoc(chunks: seq<bytes>, chunk: bytes)
    requires Feasible(chunks) && CanRead(Run(chunks), chunk)
    ensures Feasible(chunks + [chunk])
    ensures Run(chunks + [chunk]) == Feed(Run(chunks), chunk)
    ensures Concat(chunks + [chunk]) == Concat(chunks) + chunk
  {
    assert (chunks + [chunk])[..|chunks|] == chunks;
    ConcatSnoc(chunks, chunk);
  }

  // ----- segmentation of arbitrary bytes -----

  /** s is cut into segs, leaving rest: each packet is exactly as long as the header it is cut at
      computes, each junk run starts with a rejected byte and holds none that would end it. */
  predicate Segmentation(s: bytes, segs: seq<Segment>, rest: bytes)
    decreases |segs|
  {
    if segs == [] then s == rest
    else
      var d := segs[0].data;
      && d != [] && d <= s
      && (if segs[0].Frame? then HeadReady(s) && |d| == CutLength(s)
          else !Accepted(d[0]) && forall k :: 0 <= k < |d| ==> !ResyncType(d[k]))
      && Segmentation(s[|d|..], segs[1..], rest)
  }

  lemma {:induction false} SegmentationExtends(s: bytes, a: seq<Segment>, r: bytes, x: bytes, b: seq<Segment>,
                                               r2: bytes)
    requires Segmentation(s, a, r) && Segmentation(r + x, b, r2)
    ensures Segmentation(s + x, a + b, r2)
    decreases |a|
  {
    if a == [] {
      assert a + b == b;
    } else {
      var d := a[0].data;
      assert (s + x)[|d|..] == s[|d|..] + x;
      assert (a + b)[1..] == a[1..] + b;
      SegmentationExtends(s[|d|..], a[1..], r, x, b, r2);
      if a[0].Frame? {
        HeaderIsPrefixStable(s, x);
      }
    }
  }

  /** Nothing is lost, duplicated or reordered: the segments and the rest spell the input. */
  lemma {:induction false} SegmentationConserves(s: bytes, segs: seq<Segment>, rest: bytes)
    requires Segmentation(s, segs, rest)
    ensures s == Concat(seq(|segs|, i requires 0 <= i < |segs| => segs[i].data)) + rest
    decreases |segs|
  {
    var parts := seq(|segs|, i requires 0 <= i < |segs| => segs[i].data);
    if segs != [] {
      var d := segs[0].data;
      SegmentationConserves(s[|d|..], segs[1..], rest);
      assert parts[1..] == seq(|segs| - 1, i requires 0 <= i < |segs| - 1 => segs[1..][i].data);
      assert s == d + s[|d|..];
    }
  }

  predicate EndsInJunk(segs: seq<Segment>) {
    segs != [] && segs[|segs| - 1].Junk?
  }

  lemma {:induction false} DrainSegments(s: bytes)
    requires s != []
    ensures Segmentation(s, Drain(s).segs, Drain(s).rest)
    ensures EndsInJunk(Drain(s).segs) ==> Drain(s).rest == [] || ResyncType(Drain(s).rest[0])
    ensures Drain(s).spins ==> ZeroCut(Drain(s).rest)
    ensures ZeroCut(Drain(s).rest) ==> Drain(s).spins || EndsInJunk(Drain(s).segs)
    ensures Drain(s).segs == [] ==> Drain(s).rest == s && Accepted(s[0])
    ensures !EndsInJunk(Drain(s).segs) ==> |Drain(s).rest| < 4 || !HeadReady(Drain(s).rest)
    decreases |s|
  {
    if !Accepted(s[0]) {
      var v := FindValidType(s);
      assert s[..v][0] == s[0];
      assert Segmentation(s[v..], [], s[v..]);
    } else if HeadReady(s) && !ZeroCut(s) {
      var n := CutLength(s);
      if |s| - n >= 4 {
        DrainSegments(s[n..]);
        var d := Drain(s[n..]);
        assert ([Frame(s[..n])] + d.segs)[1..] == d.segs;
      } else {
        assert Segmentation(s[n..], [], s[n..]);
      }
    }
  }

  /** For every stream, garbage included, under every split into reads: the received bytes are the
      segments in order followed by the buffer; packets are cut exactly as long as their header
      computes; after a discard the buffer is empty or starts with an accepted type; the reader spins
      only on a header whose computed length is zero, at the latest one read after junk; and unless
      junk was just dropped, no whole packet of four or more bytes is left waiting. */
  lemma {:induction false} RunSegments(chunks: seq<bytes>)
    requires Feasible(chunks)
    ensures var r := Run(chunks);
            && Segmentation(Concat(chunks), r.segs, r.buf)
            && (EndsInJunk(r.segs) ==> r.buf == [] || Accepted(r.buf[0]))
            && (r.spins ==> ZeroCut(r.buf))
            && (ZeroCut(r.buf) ==> r.spins || EndsInJunk(r.segs))
            && (!EndsInJunk(r.segs) ==> |r.buf| < 4 || !HeadReady(r.buf))
  {
    if chunks != [] {
      var before, chunk := chunks[..|chunks| - 1], chunks[|chunks| - 1];
      assert chunks == before + [chunk];
      RunSegments(before);
      var st := Run(before);
      RunSnoc(before, chunk);
      DrainSegments(st.buf + chunk);
      var d := Drain(st.buf + chunk);
      SegmentationExtends(Concat(before), st.segs, st.buf, chunk, d.segs, d.rest);
      if d.segs != [] {
        assert (st.segs + d.segs)[|st.segs + d.segs| - 1] == d.segs[|d.segs| - 1];
      }
    }
  }

  /** A header at the front of the buffer whose computed length is zero makes the reader spin, if it does
      not spin already, with the next bytes read. */
  lemma ZeroHeaderSpins(chunks: seq<bytes>, x: bytes)
    requires Feasible(chunks) && ZeroCut(Run(chunks).buf) && CanRead(Run(chunks), x)
    ensures Feasible(chunks + [x]) && Run(chunks + [x]).spins
  {
    RunSnoc(chunks, x);
    HeaderIsPrefixStable(Run(chunks).buf, x);
  }

  // ----- the one-shot parser -----

  datatype Parse = Parse(frames: seq<bytes>, rest: bytes)

  /** The whole stream parsed at once, junk dropped a byte at a time. */
  function OneShot(s: bytes): Parse
    decreases |s|
  {
    if s == [] then Parse([], [])
    else if !Accepted(s[0]) then OneShot(s[1..])
    else if HeadReady(s) then
      var p := OneShot(s[CutLength(s)..]);
      Parse([s[..CutLength(s)]] + p.frames, p.rest)
    else Parse([], s)
  }

  /** What parsing makes of more bytes after p. */
  function Continue(p: Parse, x: bytes): Parse {
    var q := OneShot(p.rest + x);
    Parse(p.frames + q.frames, q.rest)
  }

  lemma {:induction false} OneShotResumes(s: bytes, x: bytes)
    ensures OneShot(s + x) == Continue(OneShot(s), x)
    decreases |s|
  {
    if s == [] {
      assert s + x == x;
    } else if !Accepted(s[0]) {
      assert (s + x)[1..] == s[1..] + x;
      OneShotResumes(s[1..], x);
    } else if HeadReady(s) {
      var n := CutLength(s);
      HeaderIsPrefixStable(s, x);
      assert (s + x)[n..] == s[n..] + x;
      assert (s + x)[..n] == s[..n];
      OneShotResumes(s[n..], x);
    }
  }

  /** No ISO byte directly after junk. This is what a reader needs to be independent of how its
      input is split: junk ends at any accepted type when it ends a read, but runs over ISO bytes
      inside one. */
  predicate IsoSafe(s: bytes)
    decreases |s|
  {
    if s == [] then true
    else if !Accepted(s[0]) then (|s| > 1 ==> s[1] != ISO_PKT) && IsoSafe(s[1..])
    else if HeadReady(s) then IsoSafe(s[CutLength(s)..])
    else true
  }

  lemma {:induction false} IsoSafeResumes(s: bytes, x: bytes)
    requires IsoSafe(s + x)
    ensures IsoSafe(s) && IsoSafe(OneShot(s).rest + x)
    decreases |s|
  {
    if s == [] {
      assert s + x == x;
    } else if !Accepted(s[0]) {
      assert (s + x)[1..] == s[1..] + x;
      IsoSafeResumes(s[1..], x);
    } else if HeadReady(s) {
      var n := CutLength(s);
      HeaderIsPrefixStable(s, x);
      assert (s + x)[n..] == s[n..] + x;
      IsoSafeResumes(s[n..], x);
    }
  }

  lemma {:induction false} JunkRunIsDropped(s: bytes)
    requires s != [] && !Accepted(s[0]) && IsoSafe(s)
    ensures OneShot(s) == OneShot(s[FindValidType(s)..]) && IsoSafe(s[FindValidType(s)..])
    decreases |s|
  {
    var v := FindValidType(s);
    assert s[v..] == s[1..][v - 1..];
    if v > 1 {
      assert !ResyncType(s[1]);
      JunkRunIsDropped(s[1..]);
    }
  }

  /** What the one-shot parser makes of the bytes after these packets. */
  function Then(frames: seq<bytes>, rest: bytes): Parse {
    Parse(frames + OneShot(rest).frames, OneShot(rest).rest)
  }

  /** The parse loop's result means what its input means. */
  predicate SameMeaning(s: bytes, d: Drained) {
    OneShot(s) == Then(Frames(d.segs), d.rest) && IsoSafe(d.rest)
  }

  lemma CutKeepsMeaning(s: bytes, d: Drained)
    requires HeadReady(s) && SameMeaning(s[CutLength(s)..], d)
    ensures SameMeaning(s, Drained([Frame(s[..CutLength(s)])] + d.segs, d.rest, d.spins))
  {
    var f := Frame(s[..CutLength(s)]);
    FramesAppend([f], d.segs);
    assert Frames([f]) == [f.data] by {
      assert [f][1..] == [];
    }
    Assoc([f.data], Frames(d.segs), OneShot(d.rest).frames);
  }

  /** One run of the parse loop leaves the one-shot meaning of the buffer unchanged. */
  lemma {:induction false} DrainKeepsMeaning(s: bytes)
    requires s != [] && IsoSafe(s)
    ensures SameMeaning(s, Drain(s))
    decreases |s|
  {
    if !Accepted(s[0]) {
      JunkRunIsDropped(s);
    } else if HeadReady(s) && !ZeroCut(s) {
      var n := CutLength(s);
      if |s| - n >= 4 {
        DrainKeepsMeaning(s[n..]);
        CutKeepsMeaning(s, Drain(s[n..]));
      } else {
        CutKeepsMeaning(s, Drained([], s[n..], false));
        assert [Frame(s[..n])] + [] == [Frame(s[..n])];
      }
    }
  }

  /** What a reader has delivered and still has to deliver. */
  function Meaning(r: Reader): Parse {
    Then(Frames(r.segs), r.buf)
  }

  lemma {:induction false} DrainKeepsIsoSafety(s: bytes, x: bytes)
    requires s != [] && IsoSafe(s + x)
    ensures IsoSafe(Drain(s).rest + x)
    decreases |s|
  {
    if !Accepted(s[0]) {
      JunkRunKeepsIsoSafety(s, x);
    } else if HeadReady(s) && !ZeroCut(s) {
      var n := CutLength(s);
      HeaderIsPrefixStable(s, x);
      assert (s + x)[n..] == s[n..] + x;
      if |s| - n >= 4 {
        DrainKeepsIsoSafety(s[n..], x);
      }
    }
  }

  lemma {:induction false} JunkRunKeepsIsoSafety(s: bytes, x: bytes)
    requires s != [] && !Accepted(s[0]) && IsoSafe(s + x)
    ensures IsoSafe(s[FindValidType(s)..] + x)
    decreases |s|
  {
    var v := FindValidType(s);
    assert (s + x)[1..] == s[1..] + x;
    assert s[v..] == s[1..][v - 1..];
    if v > 1 {
      assert !ResyncType(s[1]) && (s + x)[1] == s[1];
      JunkRunKeepsIsoSafety(s[1..], x);
    }
  }

  lemma Regroup<T>(a: seq<T>, b: seq<T>, c: seq<T>, d: seq<T>, e: seq<T>)
    requires b + c == d + e
    ensures a + b + c == a + d + e
  {
    assert a + b + c == a + (b + c);
    assert a + d + e == a + (d + e);
  }

  lemma FeedContinuesMeaning(st: Reader, chunk: bytes)
    requires CanRead(st, chunk) && IsoSafe(st.buf + chunk)
    ensures Meaning(Feed(st, chunk)) == Continue(Meaning(st), chunk)
  {
    var s := st.buf + chunk;
    DrainKeepsMeaning(s);
    OneShotResumes(st.buf, chunk);
    MeaningContinues(st.segs, OneShot(st.buf), chunk, s, Drain(s));
  }

  lemma MeaningContinues(segs: seq<Segment>, p: Parse, chunk: bytes, s: bytes, d: Drained)
    requires SameMeaning(s, d) && OneShot(s) == Continue(p, chunk)
    ensures Then(Frames(segs + d.segs), d.rest) == Continue(Parse(Frames(segs) + p.frames, p.rest), chunk)
  {
    FramesAppend(segs, d.segs);
    Regroup(Frames(segs), Frames(d.segs), OneShot(d.rest).frames, p.frames, OneShot(p.rest + chunk).frames);
  }

  /** The reader means what the one-shot parser says of all bytes received, and stays safe before x. */
  predicate Refines(r: Reader, received: bytes, x: bytes) {
    Meaning(r) == OneShot(received) && IsoSafe(r.buf + x)
  }

  lemma FeedRefines(st: Reader, received: bytes, chunk: bytes, x: bytes)
    requires CanRead(st, chunk) && Refines(st, received, chunk + x)
    ensures Refines(Feed(st, chunk), received + chunk, x)
  {
    Assoc(st.buf, chunk, x);
    IsoSafeResumes(st.buf + chunk, x);
    DrainKeepsIsoSafety(st.buf + chunk, x);
    FeedContinuesMeaning(st, chunk);
    OneShotResumes(received, chunk);
  }

  /** Incremental parsing refines one-shot parsing: under every split into reads, and whatever
      bytes x come later, a reader of an ISO-safe stream means what the one-shot parser says. */
  lemma {:induction false} RunRefinesOneShot(chunks: seq<bytes>, x: bytes)
    requires Feasible(chunks) && IsoSafe(Concat(chunks) + x)
    ensures Refines(Run(chunks), Concat(chunks), x)
    decreases |chunks|
  {
    if chunks != [] {
      var before, chunk := chunks[..|chunks| - 1], chunks[|chunks| - 1];
      assert chunks == before + [chunk];
      RunSnoc(before, chunk);
      Assoc(Concat(before), chunk, x);
      RunRefinesOneShot(before, chunk + x);
      FeedRefines(Run(before), Concat(before), chunk, x);
    } else {
      assert Concat(chunks) + x == x == [] + x;
    }
  }
}
