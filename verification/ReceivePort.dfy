/**
 The reader thread of one communication port: an in-place buffer that whole packets are cut out
 of, the log sink, and the host socket written in pieces.

 Reads, polls and writes are nondeterministic here, so each contract holds for every outcome of
 every call. A running flag is modelled by the number of checks that still find it set: the flag
 may be cleared at any moment and is not set again, and what a thread sees of it is when the first
 check fails. Every number of checks is covered, hence every finite run.
 */
module ReceivePort {
  import opened Bytes
  import opened HciFraming
  import opened Reassembly
  import opened Chunking

  class RunFlag {
    var checksLeft: nat

    constructor (checks: nat)
      ensures checksLeft == checks
    {
      checksLeft := checks;
    }

    method Check() returns (running: bool)
      modifies this
      ensures running == (old(checksLeft) > 0)
      ensures checksLeft == if running then old(checksLeft) - 1 else 0
    {
      running := checksLeft > 0;
      if running {
        checksLeft := checksLeft - 1;
      }
    }
  }

  class HostSocket {
    var stream: bytes

    constructor ()
      ensures stream == []
    {
      stream := [];
    }

    /** A write that may fail, write nothing, or write any part of the data. */
    method Write(data: bytes) returns (ret: int)
      modifies this
      ensures -1 <= ret <= |data|
      ensures stream == old(stream) + data[..if ret > 0 then ret else 0]
    {
      ret :| -1 <= ret <= |data|;
      if ret > 0 {
        stream := stream + data[..ret];
      }
    }
  }

  /** The controller behind a port: the bytes it offers, and what calls on its descriptor returned. */
  class Controller {
    const incoming: bytes
    var consumed: nat
    var readFailed: bool    // some read returned an error
    var hungUp: bool        // some poll reported a hang-up or an error, and nothing to read
    var unread: bool        // the last poll reported something to read, and no read followed

    predicate Valid()
      reads this
    {
      consumed <= |incoming|
    }

    /** A read that may fail, return nothing, or return any of the next bytes there is room for. */
    method Read(cap: nat) returns (ret: int, chunk: bytes)
      requires Valid()
      modifies this
      ensures Valid() && -1 <= ret <= cap && |chunk| == (if ret > 0 then ret else 0)
      ensures incoming[..consumed] == incoming[..old(consumed)] + chunk
      ensures readFailed == (old(readFailed) || ret < 0) && hungUp == old(hungUp) && !unread
    {
      ret :| -1 <= ret <= cap && ret <= |incoming| - consumed;
      chunk := [];
      if ret > 0 {
        chunk := incoming[consumed..consumed + ret];
        consumed := consumed + ret;
      }
      readFailed, unread := readFailed || ret < 0, false;
    }

    method Poll() returns (readable: bool, hangup: bool)
      modifies `hungUp, `unread
      ensures hungUp == (old(hungUp) || (hangup && !readable)) && unread == readable
    {
      readable, hangup := *, *;
      hungUp, unread := hungUp || (hangup && !readable), readable;
    }
  }

  // ----- operations on the buffer -----

  /** memcpy towards the front, a byte at a time in ascending order; source and destination may overlap. */
  method CopyToFront(a: array<byte>, from: nat, count: nat)
    requires from + count <= a.Length
    modifies a
    ensures a[..count] == old(a[from..from + count])
    ensures a[count..] == old(a[count..])
  {
    for i := 0 to count
      invariant a[..i] == old(a[from..from + i])
      invariant forall k :: i <= k < a.Length ==> a[k] == old(a[k])
    {
      a[i] := a[from + i];
    }
  }

  method FindValidTypeIn(a: array<byte>, len: nat) returns (i: nat)
    requires len <= a.Length
    ensures i == FindValidType(a[..len])
  {
    i := 0;
    while i < len
      invariant i <= len
      invariant FindValidType(a[..len]) == i + FindValidType(a[i..len])
    {
      if ResyncType(a[i]) {
        return;
      }
      assert a[i..len][1..] == a[i + 1..len];
      i := i + 1;
    }
  }

  // ----- what a reader owes its sinks -----

  function LogFrames(segs: seq<Segment>): seq<bytes> {
    if segs == [] then []
    else (if segs[0].Frame? && IsLog(segs[0].data) then [segs[0].data] else []) + LogFrames(segs[1..])
  }

  predicate IsLog(f: bytes) {
    f != [] && f[0] == SKWLOG_PKT
  }

  /** The packets for the host, end to end. */
  function HostBytes(segs: seq<Segment>): bytes {
    if segs == [] then []
    else (if segs[0].Frame? && !IsLog(segs[0].data) then segs[0].data else []) + HostBytes(segs[1..])
  }

  lemma {:induction false} LogFramesAppend(a: seq<Segment>, b: seq<Segment>)
    ensures LogFrames(a + b) == LogFrames(a) + LogFrames(b)
  {
    if a == [] {
      assert a + b == b;
    } else {
      LogFramesAppend(a[1..], b);
      assert (a + b)[1..] == a[1..] + b;
      Assoc(if a[0].Frame? && IsLog(a[0].data) then [a[0].data] else [], LogFrames(a[1..]), LogFrames(b));
    }
  }

  lemma {:induction false} HostBytesAppend(a: seq<Segment>, b: seq<Segment>)
    ensures HostBytes(a + b) == HostBytes(a) + HostBytes(b)
  {
    if a == [] {
      assert a + b == b;
    } else {
      HostBytesAppend(a[1..], b);
      assert (a + b)[1..] == a[1..] + b;
      Assoc(if a[0].Frame? && !IsLog(a[0].data) then a[0].data else [], HostBytes(a[1..]), HostBytes(b));
    }
  }

  lemma SinksOfOne(x: Segment)
    ensures LogFrames([x]) == if x.Frame? && IsLog(x.data) then [x.data] else []
    ensures HostBytes([x]) == if x.Frame? && !IsLog(x.data) then x.data else []
  {
    assert [x][1..] == [];
  }

  // HCI Hardware Error event, Vol 4 Part E section 7.7.16, with the code for a controller failure.
  const HW_ERROR_EVENT: bytes := [EVENT_PKT, 0x10, 0x01, 0x10]

  /** out is the host bytes owed, cut short only if port 0 was stopped. */
  predicate Delivered(out: bytes, owed: bytes, checksLeft: nat) {
    out <= owed && (out != owed ==> checksLeft == 0)
  }

  class PortReader {
    const port: nat
    const buffer: array<byte>
    const own: RunFlag     // this port's thread_running
    const first: RunFlag   // port 0's thread_running, which all writes to the host obey
    const host: HostSocket
    var lastLen: nat
    var isBusying: bool
    var driverState: bool
    var threadAlive: bool
    var log: seq<bytes>
    ghost var segs: seq<Segment>
    ghost var chunks: seq<bytes>

    ghost predicate Valid()
      reads this
    {
      buffer.Length == BUFFER_SIZE && lastLen <= BUFFER_SIZE && (port == 0 <==> own == first)
    }

    /** What went to the host since base is what the segments owe it, cut short only by a stop. */
    ghost predicate Sound(base: bytes)
      reads this, host, first
    {
      && Valid() && base <= host.stream
      && Delivered(host.stream[|base|..], HostBytes(segs), first.checksLeft)
    }

    constructor (port: nat, own: RunFlag, first: RunFlag, host: HostSocket)
      requires port == 0 <==> own == first
      ensures Valid() && fresh(buffer) && lastLen == 0 && segs == [] && chunks == [] && log == []
      ensures this.port == port && this.own == own && this.first == first && this.host == host
      ensures !isBusying && driverState && threadAlive
    {
      this.port, this.own, this.first, this.host := port, own, first, host;
      buffer := new byte[BUFFER_SIZE](_ => 0);
      lastLen, isBusying, driverState, threadAlive, log := 0, false, true, true, [];
      segs, chunks := [], [];
    }

    /** Writes until everything is out or port 0 is stopped. */
    method SendToHost(data: array<byte>, total: nat) returns (ghost sent: nat)
      requires total <= data.Length
      modifies host, first
      ensures first.checksLeft <= old(first.checksLeft)
      ensures sent <= total && host.stream == old(host.stream) + data[..sent]
      ensures sent < total ==> first.checksLeft == 0
      ensures old(first.checksLeft) == 0 ==> sent == 0
    {
      var length: nat, transmitted: nat := total, 0;
      var running := true;
      while length > 0 && running
        invariant transmitted + length == total
        invariant host.stream == old(host.stream) + data[..transmitted]
        invariant first.checksLeft <= old(first.checksLeft)
        invariant !running ==> first.checksLeft == 0
        invariant old(first.checksLeft) == 0 ==> transmitted == 0
        decreases running, first.checksLeft
      {
        running := first.Check();
        if running {
          var ret := host.Write(data[transmitted..total]);
          if ret > 0 {
            assert data[..transmitted] + data[transmitted..total][..ret] == data[..transmitted + ret];
            transmitted := transmitted + ret;
            length := length - ret;
          }
        }
      }
      sent := transmitted;
    }

    /** Sends n bytes: what is owed grows by them, and what is out keeps up. */
    method SendPacket(data: array<byte>, n: nat, ghost base: bytes, ghost owed: bytes)
      requires n <= data.Length
      requires base <= host.stream && Delivered(host.stream[|base|..], owed, first.checksLeft)
      modifies host, first
      ensures first.checksLeft <= old(first.checksLeft)
      ensures base <= host.stream && Delivered(host.stream[|base|..], owed + data[..n], first.checksLeft)
    {
      ghost var out := host.stream[|base|..];
      ghost var sent := SendToHost(data, n);
      assert host.stream[|base|..] == out + data[..sent];
      if out != owed {
        assert sent == 0;
      }
    }

    /** Delivers the packet at the front of the buffer and moves the bytes behind it to the front. */
    method CutPacket(n: nat, rev: nat, ghost base: bytes)
      requires Sound(base) && 0 < n <= rev <= BUFFER_SIZE
      modifies buffer, host, first, `lastLen, `log, `segs
      ensures Sound(base) && first.checksLeft <= old(first.checksLeft)
      ensures lastLen == rev - n && buffer[..lastLen] == old(buffer[n..rev])
      ensures segs == old(segs) + [Frame(old(buffer[..n]))]
      ensures log == old(log) + LogFrames([Frame(old(buffer[..n]))])
    {
      ghost var f := Frame(buffer[..n]);
      assert HostBytes(segs + [f]) == HostBytes(segs) + if IsLog(f.data) then [] else f.data by {
        HostBytesAppend(segs, [f]);
        SinksOfOne(f);
      }
      assert LogFrames([f]) == if IsLog(f.data) then [f.data] else [] by {
        SinksOfOne(f);
      }
      if buffer[0] == SKWLOG_PKT {
        log := log + [buffer[..n]];
      } else {
        SendPacket(buffer, n, base, HostBytes(segs));
      }
      segs := segs + [f];
      lastLen := rev - n;
      CopyToFront(buffer, n, lastLen);
      assert buffer[..lastLen] == old(buffer[n..rev]);
    }

    /** Throws away bytes up to the first one a packet can start with. */
    method DropJunk(rev: nat)
      requires Valid() && 0 < rev <= BUFFER_SIZE
      modifies buffer, `lastLen, `segs
      ensures Valid()
      ensures var v := FindValidType(old(buffer[..rev]));
              && segs == old(segs) + [Junk(old(buffer[..v]))]
              && lastLen == rev - v && buffer[..lastLen] == old(buffer[v..rev])
      ensures HostBytes(segs) == HostBytes(old(segs))
    {
      var v := FindValidTypeIn(buffer, rev);
      ghost var junk := Junk(buffer[..v]);
      HostBytesAppend(segs, [junk]);
      SinksOfOne(junk);
      segs := segs + [junk];
      lastLen := rev - v;
      if v < rev {
        CopyToFront(buffer, v, lastLen);
      }
    }

    /** One iteration of the parse loop over rev bytes of buffer. */
    method ParsePass(rev: nat, ghost base: bytes) returns (more: bool, spins: bool)
      requires Sound(base) && 0 < rev <= BUFFER_SIZE
      modifies buffer, host, first, `lastLen, `log, `segs
      ensures Sound(base) && first.checksLeft <= old(first.checksLeft)
      ensures var p := Pass(old(buffer[..rev]));
              && segs == old(segs) + p.segs && log == old(log) + LogFrames(p.segs)
              && buffer[..lastLen] == p.rest && more == p.more && spins == p.spins
    {
      ghost var s := buffer[..rev];
      more, spins := false, false;
      if !Accepted(buffer[0]) {
        ghost var v := FindValidType(s);
        assert s[..v] == buffer[..v] && s[v..] == buffer[v..rev];
        SinksOfOne(Junk(s[..v]));
        DropJunk(rev);
      } else if rev >= HeaderLength(buffer[0]) && rev >= CutLength(buffer[..rev]) {
        var n := CutLength(buffer[..rev]);
        if n == 0 {
          // The next iteration finds the same buffer and the same length, and so on for ever.
          spins, lastLen := true, rev;
        } else {
          assert s[..n] == buffer[..n] && s[n..] == buffer[n..rev];
          CutPacket(n, rev, base);
          more := lastLen >= 4;
        }
      } else {
        lastLen := rev;
      }
    }

    /** The parse loop over revLen bytes of buffer: it is the function Drain, its packets go to the
        log or to the host, and the bytes it leaves are back at the front of the buffer. */
    method ParseBuffer(revLen: nat, ghost base: bytes) returns (spins: bool)
      requires Sound(base) && 0 < revLen <= BUFFER_SIZE
      modifies buffer, host, first, `lastLen, `log, `segs
      ensures Sound(base) && first.checksLeft <= old(first.checksLeft)
      ensures var d := Drain(old(buffer[..revLen]));
              && segs == old(segs) + d.segs && log == old(log) + LogFrames(d.segs)
              && buffer[..lastLen] == d.rest && spins == d.spins
    {
      ghost var before, logBefore, all := segs, log, Drain(buffer[..revLen]);
      var rev, more := revLen, true;
      spins := false;
      ProgressStarts(before, logBefore, buffer[..revLen]);
      while more
        invariant Sound(base) && rev <= BUFFER_SIZE && first.checksLeft <= old(first.checksLeft)
        invariant more ==> rev > 0
        invariant Progress(all, before, logBefore, segs, log, buffer[..if more then rev else lastLen], more, spins)
        decreases more, rev
      {
        PassKeepsProgress(all, before, logBefore, segs, log, buffer[..rev]);
        more, spins := ParsePass(rev, base);
        if more {
          rev := lastLen;
        }
      }
      ProgressEnds(all, before, logBefore, segs, log, buffer[..lastLen], spins);
    }

    method CopyIn(chunk: bytes)
      requires Valid() && lastLen + |chunk| <= BUFFER_SIZE
      modifies buffer
      ensures buffer[..lastLen + |chunk|] == old(buffer[..lastLen]) + chunk
    {
      forall i | 0 <= i < |chunk| {
        buffer[lastLen + i] := chunk[i];
      }
    }

    /** The reader is sound towards its host since base, and its state is what the bytes received,
        read in chunks, make of a fresh reader. */
    ghost predicate Tracks(base: bytes, received: bytes, spins: bool)
      reads this, buffer, host, first
    {
      && Sound(base)
      && TracksChunks(chunks, received, Reader(segs, buffer[..lastLen], spins))
      && log == LogFrames(segs)
    }

    /** Takes in what a read returned and parses it. */
    method TakeChunk(chunk: bytes, ghost base: bytes, ghost received: bytes) returns (spins: bool)
      requires Tracks(base, received, false) && chunk != [] && lastLen + |chunk| <= BUFFER_SIZE
      modifies buffer, host, first, `lastLen, `log, `segs, `chunks
      ensures Tracks(base, received + chunk, spins) && first.checksLeft <= old(first.checksLeft)
    {
      ghost var d := Drain(buffer[..lastLen] + chunk);
      ChunkTracked(chunks, received, Reader(segs, buffer[..lastLen], false), chunk);
      LogFramesAppend(segs, d.segs);
      CopyIn(chunk);
      spins := ParseBuffer(lastLen + |chunk|, base);
      chunks := chunks + [chunk];
    }

    /** Tells the host that the controller failed. */
    method SendHwError(ghost base: bytes)
      requires Sound(base)
      modifies host, first
      ensures base <= host.stream && first.checksLeft <= old(first.checksLeft)
      ensures Delivered(host.stream[|base|..], HostBytes(segs) + HW_ERROR_EVENT, first.checksLeft)
    {
      var event := new byte[10](_ => 0);
      event[0], event[1], event[2], event[3] := EVENT_PKT, 0x10, 0x01, 0x10;
      SendPacket(event, 4, base, HostBytes(segs));
      assert event[..4] == HW_ERROR_EVENT;
    }

    /** As Tracks, with one Hardware Error event owed to the host after everything else. */
    ghost predicate TracksFailed(base: bytes, received: bytes)
      reads this, buffer, host, first
    {
      && Valid() && base <= host.stream
      && Delivered(host.stream[|base|..], HostBytes(segs) + HW_ERROR_EVENT, first.checksLeft)
      && TracksChunks(chunks, received, Reader(segs, buffer[..lastLen], false))
      && log == LogFrames(segs)
    }

    /** The reader has made of what the device gave it what it should, and a failed read on port 0 was
        reported unless the thread was to stop. */
    ghost predicate Accounts(base: bytes, device: Controller, failed: bool, spins: bool)
      reads this, buffer, own, host, first, device
    {
      && device.Valid()
      && (if failed then
            port == 0 && !spins && device.readFailed && TracksFailed(base, device.incoming[..device.consumed])
          else Tracks(base, device.incoming[..device.consumed], spins))
      && (device.readFailed && port == 0 ==> failed || own.checksLeft == 0)
    }

    /** One readable poll: a read and what follows it. A failed read on port 0 is reported to the host
        if the thread was still to run; the thread goes on unless the read failed, it is to stop, or
        the parse loop spins. */
    method ReadOnce(device: Controller, ghost base: bytes) returns (goOn: bool, failed: bool, spins: bool)
      requires Accounts(base, device, false, false) && !device.readFailed
      modifies this, buffer, own, first, host, device
      ensures Accounts(base, device, failed, spins)
      ensures own.checksLeft <= old(own.checksLeft) && device.hungUp == old(device.hungUp) && !device.unread
      ensures if goOn then !spins && !device.readFailed else spins || device.readFailed || own.checksLeft == 0
      ensures isBusying && threadAlive == old(threadAlive) && driverState == old(driverState)
    {
      goOn, failed, spins := true, false, false;
      isBusying := false;
      ghost var received := device.incoming[..device.consumed];
      var ret, chunk := device.Read(BUFFER_SIZE - lastLen);
      isBusying := true;
      if ret == 0 {
        goOn := own.Check();
        assert device.incoming[..device.consumed] == received;
      } else if ret < 0 {
        goOn := false;
        var running := own.Check();
        assert device.incoming[..device.consumed] == received;
        if running && port == 0 {
          SendHwError(base);
          failed := true;
        }
      } else {
        spins := TakeChunk(chunk, base, received);
        goOn := !spins;
      }
    }

    /** poll, repeated while it is interrupted and the thread is to run. */
    method Poll(device: Controller, ghost base: bytes) returns (exitSignal: bool, readable: bool, hangup: bool)
      requires Accounts(base, device, false, false)
      modifies own, device`hungUp, device`unread
      ensures Accounts(base, device, false, false) && own.checksLeft <= old(own.checksLeft)
      ensures device.hungUp == (old(device.hungUp) || (hangup && !readable)) && device.unread == readable
    {
      var interrupted: bool := *;
      while interrupted
        invariant Accounts(base, device, false, false) && own.checksLeft <= old(own.checksLeft)
        invariant device.hungUp == old(device.hungUp)
        decreases own.checksLeft, interrupted
      {
        interrupted := KeepsRunning(device, base, false, false);
        if interrupted {
          interrupted := *;
        }
      }
      exitSignal := *;
      readable, hangup := device.Poll();
    }

    /** A look at the running flag, which may be the one of port 0. */
    method KeepsRunning(device: Controller, ghost base: bytes, ghost failed: bool, ghost spins: bool)
      returns (running: bool)
      requires Accounts(base, device, failed, spins)
      modifies own
      ensures Accounts(base, device, failed, spins)
      ensures running == (old(own.checksLeft) > 0)
      ensures own.checksLeft == if running then old(own.checksLeft) - 1 else 0
    {
      running := own.Check();
    }

    /** One turn of the thread's loop. Data is read before a hang-up counts. */
    method Turn(device: Controller, ghost base: bytes) returns (goOn: bool, failed: bool, spins: bool)
      requires Accounts(base, device, false, false) && !device.readFailed
      modifies this, buffer, own, first, host, device
      ensures Accounts(base, device, failed, spins) && own.checksLeft <= old(own.checksLeft)
      ensures if goOn then !failed && !spins && !device.readFailed
              else spins || device.readFailed || device.hungUp || own.checksLeft == 0
      ensures threadAlive == old(threadAlive) && (spins ==> isBusying)
      ensures driverState == old(driverState) || device.hungUp
      ensures old(device.hungUp) ==> device.hungUp
      ensures device.unread ==> own.checksLeft == 0
    {
      failed, spins := false, false;
      var exitSignal, readable, hangup := Poll(device, base);
      goOn := true;
      if exitSignal {
        goOn := KeepsRunning(device, base, false, false);
      }
      if goOn && readable {
        goOn, failed, spins := ReadOnce(device, base);
      } else if goOn && hangup {
        driverState, goOn := false, false;
      }
    }

    /** The thread, over a controller that offers some bytes. It takes some of them, in chunks of any
        size; log frames go to the log; the host gets the other packets in order, and after them one
        Hardware Error event if a read failed on port 0, all of it cut short only by a stop of port 0.
        It ends, and is then not busy, only because it was stopped, a read failed or the device hung
        up; or else it spins on a zero length. */
    method RecvThread(device: Controller) returns (failed: bool, spins: bool)
      requires device.Valid() && device.consumed == 0 && !device.readFailed && !device.hungUp && !device.unread
      requires Tracks(host.stream, [], false) && !isBusying
      modifies this, buffer, own, first, host, device
      ensures Accounts(old(host.stream), device, failed, spins)
      ensures isBusying == threadAlive == spins
      ensures spins || device.readFailed || device.hungUp || own.checksLeft == 0
      ensures device.unread ==> own.checksLeft == 0
      ensures driverState == old(driverState) || device.hungUp
    {
      ghost var base := host.stream;
      failed, spins, threadAlive := false, false, true;
      assert device.incoming[..0] == [];
      var running := KeepsRunning(device, base, false, false);
      while running
        invariant Accounts(base, device, failed, spins) && (running ==> !failed && !spins && !device.readFailed)
        invariant threadAlive && (spins ==> isBusying)
        invariant running || spins || device.readFailed || device.hungUp || own.checksLeft == 0
        invariant device.unread ==> own.checksLeft == 0
        invariant driverState == old(driverState) || device.hungUp
        decreases own.checksLeft, running
      {
        running, failed, spins := Turn(device, base);
        if running {
          running := KeepsRunning(device, base, failed, spins);
        }
      }
      if !spins {
        isBusying, threadAlive := false, false;
      }
    }

    /** The thread over a controller that sends well-formed packets: it does not spin; for some n the
        log holds the log packets among the first n; the host got the others, in order, and the
        Hardware Error event if a read failed, cut short only by a stop; and the first n are all that
        was received whole, but for at most one event without parameters. */
    method RecvWellFormed(device: Controller, ghost frames: seq<bytes>) returns (failed: bool, ghost n: nat)
      requires AllWellFormed(frames) && device.incoming == Concat(frames)
      requires device.consumed == 0 && !device.readFailed && !device.hungUp && !device.unread
      requires Tracks(host.stream, [], false) && !isBusying
      modifies this, buffer, own, first, host, device
      ensures n <= |frames| && log == Select(frames[..n], true)
      ensures old(host.stream) <= host.stream
      ensures var owed := Concat(Select(frames[..n], false)) + if failed then HW_ERROR_EVENT else [];
              Delivered(host.stream[|old(host.stream)|..], owed, first.checksLeft)
      ensures device.Valid() && Valid()
              && device.incoming[..device.consumed] == Concat(frames[..n]) + buffer[..lastLen]
      ensures n < |frames| && |frames[n]| <= lastLen ==> ZeroParameterEvent(frames[n]) && buffer[..lastLen] == frames[n]
      ensures failed ==> device.readFailed && port == 0
      ensures device.readFailed && port == 0 ==> failed || own.checksLeft == 0
      ensures device.unread ==> own.checksLeft == 0
      ensures !isBusying && !threadAlive && (device.readFailed || device.hungUp || own.checksLeft == 0)
    {
      var spins;
      failed, spins := RecvThread(device);
      n := EndToEnd(frames, device.incoming[..device.consumed], chunks, Reader(segs, buffer[..lastLen], spins));
      assert HostBytes(segs) + [] == HostBytes(segs);
    }
  }

  /** st is what a fresh reader becomes by reading received in these chunks. */
  ghost predicate TracksChunks(chunks: seq<bytes>, received: bytes, st: Reader) {
    Feasible(chunks) && Concat(chunks) == received && Run(chunks) == st
  }

  lemma ChunkTracked(chunks: seq<bytes>, received: bytes, st: Reader, chunk: bytes)
    requires TracksChunks(chunks, received, st) && CanRead(st, chunk)
    ensures var d := Drain(st.buf + chunk);
            TracksChunks(chunks + [chunk], received + chunk, Reader(st.segs + d.segs, d.rest, d.spins))
  {
    RunSnoc(chunks, chunk);
  }

  // ----- end to end, on streams of well-formed packets -----

  /** The log packets among fs, or the others. */
  function Select(fs: seq<bytes>, log: bool): seq<bytes> {
    if fs == [] then []
    else (if IsLog(fs[0]) == log then [fs[0]] else []) + Select(fs[1..], log)
  }

  lemma {:induction false} SelectAppend(a: seq<bytes>, b: seq<bytes>, log: bool)
    ensures Select(a + b, log) == Select(a, log) + Select(b, log)
  {
    if a == [] {
      assert a + b == b;
    } else {
      SelectAppend(a[1..], b, log);
      assert (a + b)[1..] == a[1..] + b;
      Assoc(if IsLog(a[0]) == log then [a[0]] else [], Select(a[1..], log), Select(b, log));
    }
  }

  lemma {:induction false} SinksAreSelections(segs: seq<Segment>)
    requires forall i :: 0 <= i < |segs| ==> segs[i].Frame?
    ensures LogFrames(segs) == Select(Frames(segs), true)
    ensures HostBytes(segs) == Concat(Select(Frames(segs), false))
  {
    if segs != [] {
      var f, rest := segs[0].data, Select(Frames(segs[1..]), false);
      SinksAreSelections(segs[1..]);
      assert Frames(segs)[0] == f && Frames(segs)[1..] == Frames(segs[1..]);
      assert ([f] + rest)[1..] == rest && [] + rest == rest;
      assert Concat([f] + rest) == f + Concat(rest);
      assert Select(Frames(segs), false) == if IsLog(f) then rest else [f] + rest;
    }
  }

  /** Any first part of a well-formed stream is some whole packets and the start of the next. */
  lemma {:induction false} CutAnywhere(frames: seq<bytes>, received: bytes) returns (k: nat, partial: bytes)
    requires AllWellFormed(frames) && received <= Concat(frames)
    ensures k <= |frames| && received == Concat(frames[..k]) + partial && Incomplete(partial)
    ensures k < |frames| ==> |partial| < |frames[k]|
  {
    if frames == [] {
      k, partial := 0, [];
    } else {
      var f := frames[0];
      if |received| < |f| {
        k, partial := 0, received;
        assert f == received + f[|received|..];
        assert WellFormed(f);
        if HeaderComplete(received) {
          HeaderIsPrefixStable(received, f[|received|..]);
        }
      } else {
        assert received == f + received[|f|..];
        k, partial := CutAnywhere(frames[1..], received[|f|..]);
        k := k + 1;
        assert frames[..k] == [f] + frames[1..][..k - 1];
        ConcatAppend([f], frames[1..][..k - 1]);
        assert Concat([f]) == f + Concat([]);
      }
    }
  }

  /** The segments are the first packets; the bytes behind them are all in the buffer, and hold a
      whole packet only if that is an event without parameters. */
  predicate FirstFrames(st: Reader, frames: seq<bytes>, received: bytes) {
    var n := |st.segs|;
    && !st.spins && n <= |frames| && Frames(st.segs) == frames[..n]
    && (forall i :: 0 <= i < n ==> st.segs[i].Frame?)
    && received == Concat(frames[..n]) + st.buf
    && (n < |frames| && |frames[n]| <= |st.buf| ==> ZeroParameterEvent(st.buf) && st.buf == frames[n])
  }

  lemma EndToEndFrames(frames: seq<bytes>, received: bytes, chunks: seq<bytes>, st: Reader)
    requires AllWellFormed(frames) && received <= Concat(frames)
    requires TracksChunks(chunks, received, st)
    ensures FirstFrames(st, frames, received)
  {
    var k, partial := CutAnywhere(frames, received);
    var whole := frames[..k];
    WellFormedRun(whole, partial, chunks);
    RunSegments(chunks);
    SegmentsAreFrames(whole, partial, st.segs, st.buf);
    CountedFrames(st, frames, received, k, partial);
  }

  lemma CountedFrames(st: Reader, frames: seq<bytes>, received: bytes, k: nat, partial: bytes)
    requires k <= |frames| && received == Concat(frames[..k]) + partial
    requires k < |frames| ==> |partial| < |frames[k]|
    requires DeliversAll(st, frames[..k], partial)
    requires |st.segs| <= k && Frames(st.segs) == frames[..k][..|st.segs|]
    requires forall i :: 0 <= i < |st.segs| ==> st.segs[i].Frame?
    requires st.buf == Concat(frames[..k][|st.segs|..]) + partial
    ensures FirstFrames(st, frames, received)
  {
    var n, whole := |st.segs|, frames[..k];
    assert whole[..n] == frames[..n];
    assert whole == whole[..n] + whole[n..];
    ConcatAppend(whole[..n], whole[n..]);
    Assoc(Concat(whole[..n]), Concat(whole[n..]), partial);
    if n == k {
      assert whole[n..] == [] && st.buf == partial;
    }
  }

  /** End to end: however much of a well-formed stream was received, and in whatever chunks, the
      reader does not spin; for some n, what it owes the host is the non-log packets of the first n,
      in order, and the log is the log packets of the first n; and those n are all that arrived
      whole, except at most one event without parameters. */
  lemma EndToEnd(frames: seq<bytes>, received: bytes, chunks: seq<bytes>, st: Reader) returns (n: nat)
    requires AllWellFormed(frames) && received <= Concat(frames)
    requires TracksChunks(chunks, received, st)
    ensures !st.spins && n <= |frames|
    ensures HostBytes(st.segs) == Concat(Select(frames[..n], false)) <= Concat(Select(frames, false))
    ensures LogFrames(st.segs) == Select(frames[..n], true) <= Select(frames, true)
    ensures received == Concat(frames[..n]) + st.buf
    ensures n < |frames| && |frames[n]| <= |st.buf| ==> ZeroParameterEvent(st.buf) && st.buf == frames[n]
  {
    EndToEndFrames(frames, received, chunks, st);
    n := |st.segs|;
    SinksAreSelections(st.segs);
    assert frames[..n] + frames[n..] == frames;
    SelectAppend(frames[..n], frames[n..], true);
    SelectAppend(frames[..n], frames[n..], false);
    ConcatAppend(Select(frames[..n], false), Select(frames[n..], false));
  }

  // ----- the parse loop's progress -----

  /** Since the loop started, segs and log grew by what its passes produced; the passes to come over
      the bytes in rest complete the result all. */
  ghost predicate Progress(all: Drained, before: seq<Segment>, logBefore: seq<bytes>,
                           segs: seq<Segment>, log: seq<bytes>, rest: bytes, more: bool, spins: bool)
  {
    && before <= segs
    && log == logBefore + LogFrames(segs[|before|..])
    && if more then rest != [] && all == Prepend(segs[|before|..], Drain(rest))
       else all == Drained(segs[|before|..], rest, spins)
  }

  lemma ProgressStarts(before: seq<Segment>, logBefore: seq<bytes>, s: bytes)
    requires s != []
    ensures Progress(Drain(s), before, logBefore, before, logBefore, s, true, false)
  {
    assert [] + Drain(s).segs == Drain(s).segs;
  }

  lemma PassKeepsProgress(all: Drained, before: seq<Segment>, logBefore: seq<bytes>,
                          segs: seq<Segment>, log: seq<bytes>, s: bytes)
    requires s != [] && Progress(all, before, logBefore, segs, log, s, true, false)
    ensures var p := Pass(s);
            && Progress(all, before, logBefore, segs + p.segs, log + LogFrames(p.segs), p.rest, p.more, p.spins)
            && (p.more ==> 0 < |p.rest| < |s|)
  {
    var p := Pass(s);
    DrainByPasses(s);
    var d := if p.more then Drain(p.rest) else Drained([], p.rest, p.spins);
    assert p.segs + [] == p.segs;
    AppendPass(before, logBefore, segs, log, p.segs, d);
    assert (segs + p.segs)[|before|..] + [] == (segs + p.segs)[|before|..];
  }

  lemma AppendPass(before: seq<Segment>, logBefore: seq<bytes>, segs: seq<Segment>, log: seq<bytes>,
                   added: seq<Segment>, d: Drained)
    requires before <= segs && log == logBefore + LogFrames(segs[|before|..])
    ensures before <= segs + added
    ensures log + LogFrames(added) == logBefore + LogFrames((segs + added)[|before|..])
    ensures Prepend((segs + added)[|before|..], d) == Prepend(segs[|before|..], Prepend(added, d))
  {
    var done := segs[|before|..];
    assert (segs + added)[|before|..] == done + added;
    LogFramesAppend(done, added);
    assert done + (added + d.segs) == done + added + d.segs;
  }

  lemma ProgressEnds(all: Drained, before: seq<Segment>, logBefore: seq<bytes>,
                     segs: seq<Segment>, log: seq<bytes>, rest: bytes, spins: bool)
    requires Progress(all, before, logBefore, segs, log, rest, false, spins)
    ensures segs == before + all.segs && log == logBefore + LogFrames(all.segs)
    ensures rest == all.rest && spins == all.spins
  {
  }
}
