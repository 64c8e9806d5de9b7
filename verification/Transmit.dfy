/**
 The transmit path: one packet is read from the host stream in three parts, routed by its type to a
 port, and written there in pieces. Reads and writes are nondeterministic, as in the receive path;
 the read calls that return at all, and the checks that find the port's driver up, are finite.
 */
module Transmit {
  import opened Bytes
  import opened HciFraming
  import opened ReceivePort

  const SOCKET_BUF_SIZE: nat := 4096
  const PORTS: nat := 4

  // ----- packets and their ports -----

  predicate HostType(t: byte) {
    t == COMMAND_PKT || t == ACLDATA_PKT || t == SCODATA_PKT || t == ISO_PKT
  }

  /** Type byte and header. */
  function HostHeaderLength(t: byte): (n: nat)
    requires HostType(t)
    ensures 4 <= n <= 5
  {
    PREAMBLE_SIZES[t] + 1
  }

  predicate HostHeaderComplete(s: bytes) {
    s != [] && HostType(s[0]) && |s| >= HostHeaderLength(s[0])
  }

  function HostPayloadLength(s: bytes): nat
    requires HostHeaderComplete(s)
  {
    if s[0] == ACLDATA_PKT || s[0] == ISO_PKT then Le16(s[3], s[4]) else s[3]
  }

  function HostLength(s: bytes): (n: nat)
    requires HostHeaderComplete(s)
    ensures n >= 4
  {
    HostHeaderLength(s[0]) + HostPayloadLength(s)
  }

  predicate HostPacket(f: bytes) {
    HostHeaderComplete(f) && HostLength(f) == |f| <= SOCKET_BUF_SIZE
  }

  /** The port a packet type goes to. */
  function PortOf(t: byte, sdio: bool): (p: nat)
    ensures p < PORTS && (!sdio ==> p == 0)
    ensures sdio ==> (p == 1 <==> t == 2) && (p == 2 <==> t == 3) && (p == 3 <==> t == 5)
  {
    if !sdio then 0
    else if t == ACLDATA_PKT then 1
    else if t == SCODATA_PKT then 2
    else if t == ISO_PKT then 3
    else 0
  }

  /** The packets among fs that go to port p. */
  function RoutedTo(fs: seq<bytes>, p: nat, sdio: bool): seq<bytes> {
    if fs == [] then []
    else RoutedTo(fs[..|fs| - 1], p, sdio)
         + if fs[|fs| - 1] != [] && PortOf(fs[|fs| - 1][0], sdio) == p then [fs[|fs| - 1]] else []
  }

  /** All start with this type byte, as far as they have a byte. */
  predicate OfType(ps: seq<bytes>, t: byte) {
    forall i :: 0 <= i < |ps| && ps[i] != [] ==> ps[i][0] == t
  }

  /** With SDIO, port 0 has commands, port 1 ACL data, port 2 SCO data and port 3 ISO data. */
  predicate PortTypes(ps: seq<seq<bytes>>) {
    |ps| == 4 && OfType(ps[0], 1) && OfType(ps[1], 2) && OfType(ps[2], 3) && OfType(ps[3], 5)
  }

  lemma {:induction false} PartsOfType(fs: seq<bytes>, parts: seq<bytes>, p: nat, t: byte)
    requires |parts| == |fs| && AllHostPackets(fs) && forall i :: 0 <= i < |fs| ==> parts[i] <= fs[i]
    requires (p == 0 && t == 1) || (p == 1 && t == 2) || (p == 2 && t == 3) || (p == 3 && t == 5)
    ensures OfType(PartsTo(fs, parts, p, true), t)
  {
    if fs != [] {
      var n := |fs| - 1;
      PartsOfType(fs[..n], parts[..n], p, t);
      assert fs[n] in fs;
    }
  }

  function PartsAll(fs: seq<bytes>, parts: seq<bytes>, sdio: bool): (r: seq<seq<bytes>>)
    requires |parts| == |fs|
    ensures |r| == PORTS
  {
    seq(PORTS, p requires 0 <= p < PORTS => PartsTo(fs, parts, p, sdio))
  }

  lemma PartsHaveTypes(fs: seq<bytes>, parts: seq<bytes>)
    requires |parts| == |fs| && AllHostPackets(fs) && forall i :: 0 <= i < |fs| ==> parts[i] <= fs[i]
    ensures PortTypes(PartsAll(fs, parts, true))
  {
    PartsOfType(fs, parts, 0, 1);
    PartsOfType(fs, parts, 1, 2);
    PartsOfType(fs, parts, 2, 3);
    PartsOfType(fs, parts, 3, 5);
  }

  lemma RoutedSnoc(fs: seq<bytes>, f: bytes, p: nat, sdio: bool)
    requires f != []
    ensures RoutedTo(fs + [f], p, sdio) == RoutedTo(fs, p, sdio) + if PortOf(f[0], sdio) == p then [f] else []
    ensures Concat(RoutedTo(fs + [f], p, sdio))
         == Concat(RoutedTo(fs, p, sdio)) + if PortOf(f[0], sdio) == p then f else []
  {
    assert (fs + [f])[..|fs|] == fs;
    ConcatSnoc(RoutedTo(fs, p, sdio), f);
    assert RoutedTo(fs, p, sdio) + [] == RoutedTo(fs, p, sdio);
  }

  function Together(r: seq<seq<bytes>>): multiset<bytes>
    requires |r| == PORTS
  {
    multiset(r[0]) + multiset(r[1]) + multiset(r[2]) + multiset(r[3])
  }

  function RoutedAll(fs: seq<bytes>, sdio: bool): (r: seq<seq<bytes>>)
    ensures |r| == PORTS
  {
    seq(PORTS, p requires 0 <= p < PORTS => RoutedTo(fs, p, sdio))
  }

  lemma TogetherSnoc(r: seq<seq<bytes>>, q: nat, f: bytes)
    requires |r| == PORTS && q < PORTS
    ensures Together(r[q := r[q] + [f]]) == Together(r) + multiset{f}
  {
  }

  lemma RoutedAllSnoc(fs: seq<bytes>, f: bytes, sdio: bool)
    requires f != []
    ensures var r, q := RoutedAll(fs, sdio), PortOf(f[0], sdio);
            RoutedAll(fs + [f], sdio) == r[q := r[q] + [f]]
  {
    var r, q := RoutedAll(fs, sdio), PortOf(f[0], sdio);
    forall p: nat | p < PORTS
      ensures RoutedAll(fs + [f], sdio)[p] == r[q := r[q] + [f]][p]
    {
      RoutedSnoc(fs, f, p, sdio);
    }
  }

  ghost predicate NoneEmpty(fs: seq<bytes>) {
    forall f :: f in fs ==> f != []
  }

  /** The ports together have what was routed, and all of it is on port 0 without SDIO. */
  ghost predicate Partitioned(fs: seq<bytes>, sdio: bool) {
    Together(RoutedAll(fs, sdio)) == multiset(fs) && (!sdio ==> RoutedAll(fs, sdio)[0] == fs)
  }

  lemma PartitionedSnoc(fs: seq<bytes>, f: bytes, sdio: bool)
    requires f != []
    ensures Partitioned(fs, sdio) ==> Partitioned(fs + [f], sdio)
  {
    var r, q := RoutedAll(fs, sdio), PortOf(f[0], sdio);
    RoutedAllSnoc(fs, f, sdio);
    TogetherSnoc(r, q, f);
    assert multiset(fs + [f]) == multiset(fs) + multiset{f};
  }

  /** Every packet goes to exactly one port, as often as it occurs. */
  lemma {:induction false} RoutingPartitions(fs: seq<bytes>, sdio: bool)
    requires NoneEmpty(fs)
    ensures Partitioned(fs, sdio)
  {
    if fs != [] {
      var before, f := fs[..|fs| - 1], fs[|fs| - 1];
      assert f in fs && forall g :: g in before ==> g in fs;
      assert fs == before + [f];
      RoutingPartitions(before, sdio);
      PartitionedSnoc(before, f, sdio);
    }
  }

  /** Of each packet among fs that goes to port p, the part that was sent. */
  function PartsTo(fs: seq<bytes>, parts: seq<bytes>, p: nat, sdio: bool): seq<bytes>
    requires |parts| == |fs|
  {
    if fs == [] then []
    else
      var last := |fs| - 1;
      PartsTo(fs[..last], parts[..last], p, sdio)
      + if fs[last] != [] && PortOf(fs[last][0], sdio) == p then [parts[last]] else []
  }

  lemma PartsSnoc(fs: seq<bytes>, parts: seq<bytes>, f: bytes, part: bytes, p: nat, sdio: bool)
    requires |parts| == |fs| && f != []
    ensures Concat(PartsTo(fs + [f], parts + [part], p, sdio))
         == Concat(PartsTo(fs, parts, p, sdio)) + if PortOf(f[0], sdio) == p then part else []
  {
    assert (fs + [f])[..|fs|] == fs && (parts + [part])[..|fs|] == parts;
    ConcatSnoc(PartsTo(fs, parts, p, sdio), part);
    assert PartsTo(fs, parts, p, sdio) + [] == PartsTo(fs, parts, p, sdio);
  }

  /** If all went out whole, the parts are the packets. */
  lemma {:induction false} WholeParts(fs: seq<bytes>, p: nat, sdio: bool)
    ensures PartsTo(fs, fs, p, sdio) == RoutedTo(fs, p, sdio)
  {
    if fs != [] {
      WholeParts(fs[..|fs| - 1], p, sdio);
    }
  }

  /** A stream starts with at most one host packet. */
  lemma HostPacketUnique(f: bytes, x: bytes, g: bytes, y: bytes)
    requires HostPacket(f) && HostPacket(g) && f + x == g + y
    ensures f == g && x == y
  {
    assert f[0] == (f + x)[0] == g[0];
    assert f[3] == (f + x)[3] == g[3];
    if f[0] == ACLDATA_PKT || f[0] == ISO_PKT {
      assert f[4] == (f + x)[4] == g[4];
    }
    assert f == (f + x)[..|f|] && x == (f + x)[|f|..];
  }

  // ----- the stream from the host -----

  class HostStream {
    var pending: bytes
    var callsLeft: nat
    var failed: bool    // some read of a part returned an error
    var idle: nat       // reads of a type byte that returned an error or nothing

    /** A read of up to cap bytes: an error, or some first part of what is pending, possibly nothing. */
    method Read(cap: nat) returns (ret: int, data: bytes)
      modifies this
      ensures -1 <= ret <= cap && (ret < 0 ==> data == [])
      ensures ret >= 0 ==> |data| == ret && old(pending) == data + pending
      ensures ret < 0 ==> pending == old(pending)
      ensures ret >= 0 ==> callsLeft < old(callsLeft)
      ensures failed == (old(failed) || ret < 0) && idle == old(idle)
    {
      ret, data := -1, [];
      if callsLeft > 0 {
        callsLeft := callsLeft - 1;
        ret :| -1 <= ret <= cap && ret <= |pending|;
        if ret > 0 {
          data := pending[..ret];
          pending := pending[ret..];
        }
      }
      failed := failed || ret < 0;
    }

    /** The read of the type byte of a packet, which may find none. */
    method ReadType() returns (data: bytes)
      modifies this
      ensures |data| <= 1 && old(pending) == data + pending
      ensures failed == old(failed) && idle == old(idle) + if data == [] then 1 else 0
    {
      data := [];
      var found: bool := *;
      if found && pending != [] {
        data, pending := pending[..1], pending[1..];
      } else {
        idle := idle + 1;
      }
    }
  }

  // ----- the sender -----

  /** How a call ends: no type byte was read; a part could not be; the type is none of the four, on which
      the code aborts; the packet exceeds the buffer; or a packet of total bytes was taken, and with it the
      bytes that reads took beyond their part: skipped between header and payload, beyond behind it. */
  datatype Status = NoType | ReadFailed | Aborted | TooLong | Taken(total: nat, skipped: nat, beyond: nat)

  /** What is taken for the packet at the front of stream when skipped bytes behind the header are lost. */
  function Took(stream: bytes, skipped: nat): (b: bytes)
    requires HostHeaderComplete(stream) && HostLength(stream) + skipped <= |stream|
    ensures |b| == HostLength(stream)
  {
    var h := HostHeaderLength(stream[0]);
    stream[..h] + stream[h + skipped..HostLength(stream) + skipped]
  }

  lemma TookIsPacket(f: bytes, x: bytes)
    requires HostPacket(f)
    ensures HostHeaderComplete(f + x) && HostLength(f + x) == |f| && Took(f + x, 0) == f
  {
  }

  class Sender {
    const buffer: array<byte>
    const host: HostStream
    const sdio: bool
    const drivers: seq<RunFlag>    // driver_state of each port
    var ports: seq<bytes>          // what went out on each port
    var writeErrors: nat           // writes to a port that returned an error
    ghost var overRead: bool       // some read took more bytes than were missing

    ghost predicate Valid()
      reads this
    {
      buffer.Length == SOCKET_BUF_SIZE && |ports| == |drivers| == PORTS
    }

    constructor (host: HostStream, sdio: bool, drivers: seq<RunFlag>)
      requires |drivers| == PORTS
      ensures Valid() && fresh(buffer) && ports == [[], [], [], []] && writeErrors == 0 && !overRead
      ensures this.host == host && this.sdio == sdio && this.drivers == drivers
    {
      buffer := new byte[SOCKET_BUF_SIZE](_ => 0);
      this.host, this.sdio, this.drivers := host, sdio, drivers;
      ports, writeErrors, overRead := [[], [], [], []], 0, false;
    }

    method Store(at: nat, data: bytes)
      requires at + |data| <= buffer.Length
      modifies buffer
      ensures buffer[..at + |data|] == old(buffer[..at]) + data
    {
      forall i | 0 <= i < |data| {
        buffer[at + i] := data[i];
      }
    }

    /** Reads a part of need bytes to offset. Each call asks for all of need again, so the last one
        may take extra bytes; they never reach a port: those behind the header are overwritten by the
        payload, those behind the payload lie past the packet. Only the part itself is stored here. */
    method ReadPart(offset: nat, need: nat) returns (ok: bool, extra: nat)
      requires Valid() && 0 < need && offset + need <= SOCKET_BUF_SIZE
      modifies buffer, host
      ensures ok ==> need + extra <= |old(host.pending)|
                     && buffer[..offset + need] == old(buffer[..offset]) + old(host.pending)[..need]
                     && host.pending == old(host.pending)[need + extra..]
      ensures !ok ==> host.failed
      ensures (old(host.failed) ==> host.failed) && host.idle == old(host.idle)
    {
      var got: nat := 0;
      ok, extra := true, 0;
      ghost var start, front := host.pending, buffer[..offset];
      while got < need
        invariant ok && (got < need ==> extra == 0)
        invariant got + extra <= |start| && got <= need
        invariant buffer[..offset + got] == front + start[..got]
        invariant host.pending == start[got + extra..]
        invariant (old(host.failed) ==> host.failed) && host.idle == old(host.idle)
        decreases need - got, host.callsLeft
      {
        var ret, data := host.Read(need);
        if ret < 0 {
          ok := false;
          return;
        }
        var used := if got + ret <= need then ret else need - got;
        NextPart(front, start, got, data, used, host.pending);
        Store(offset + got, data[..used]);
        got, extra := got + used, ret - used;
      }
    }

    /** One write of bytes of the buffer to a port, which may fail, write nothing, or write any part. */
    method PortWrite(port: nat, from: nat, to: nat) returns (ret: int)
      requires Valid() && port < PORTS && from <= to <= SOCKET_BUF_SIZE
      modifies `ports, `writeErrors
      ensures Valid() && -1 <= ret <= to - from
      ensures ports == Added(old(ports), port, buffer[from..if ret > 0 then from + ret else from])
      ensures writeErrors == old(writeErrors) + if ret == -1 then 1 else 0
    {
      ret :| -1 <= ret <= to - from;
      if ret > 0 {
        ports := Added(ports, port, buffer[from..from + ret]);
      } else {
        AddedNothing(ports, port);
        assert buffer[from..from] == [];
      }
      if ret == -1 {
        writeErrors := writeErrors + 1;
      }
    }

    /** Writes the packet in buffer to its port until it is out, a write of it fails, or the port's driver
        is down. */
    method WritePort(port: nat, total: nat) returns (sent: nat, failed: bool)
      requires Valid() && port < PORTS && total <= SOCKET_BUF_SIZE
      modifies drivers[port], `ports, `writeErrors
      ensures Valid() && sent <= total
      ensures ports == Added(old(ports), port, buffer[..sent])
      ensures writeErrors == old(writeErrors) + if failed then 1 else 0
      ensures sent < total ==> failed || drivers[port].checksLeft == 0
      ensures failed ==> sent < total
      ensures old(drivers[port].checksLeft) == 0 ==> sent == 0 && !failed && drivers[port].checksLeft == 0
    {
      var length: nat := total;
      var up := true;
      sent, failed := 0, false;
      ghost var before := ports;
      AddedNothing(before, port);
      while length > 0 && up && !failed
        invariant sent + length == total && |ports| == PORTS && (failed ==> length > 0)
        invariant ports == Added(before, port, buffer[..sent])
        invariant writeErrors == old(writeErrors) + if failed then 1 else 0
        invariant !up ==> drivers[port].checksLeft == 0
        invariant old(drivers[port].checksLeft) == 0 ==> sent == 0 && !failed && drivers[port].checksLeft == 0
        decreases up, !failed, drivers[port].checksLeft
      {
        up := drivers[port].Check();
        if up {
          var ret := PortWrite(port, sent, total);
          if ret == -1 {
            failed := true;
            AddedTwice(before, port, buffer[..sent], []);
            assert buffer[..sent] + [] == buffer[..sent];
          } else {
            AddedTwice(before, port, buffer[..sent], buffer[sent..sent + ret]);
            assert buffer[..sent] + buffer[sent..sent + ret] == buffer[..sent + ret];
            sent, length := sent + ret, length - ret;
          }
        }
      }
    }

    /** Reads type, header and payload. */
    method TakePacket() returns (status: Status)
      requires Valid()
      modifies buffer, host
      ensures Explained(status, old(host.pending))
      ensures status.Taken? ==> status.total <= SOCKET_BUF_SIZE
                                && buffer[..status.total] == Took(old(host.pending), status.skipped)
      ensures old(host.failed) ==> host.failed
      ensures host.idle == old(host.idle) + if status.NoType? then 1 else 0
    {
      ghost var stream := host.pending;
      var data := host.ReadType();
      if data == [] {
        return NoType;
      }
      Store(0, data);
      assert buffer[..1] == stream[..1] && host.pending == stream[1..];
      assert buffer[0] == buffer[..1][0];
      if !HostType(buffer[0]) {
        return Aborted;
      }
      var header := PREAMBLE_SIZES[buffer[0]] + 1;
      var ok, extra := ReadPart(1, header - 1);
      if !ok {
        return ReadFailed;
      }
      assert stream[..1] + stream[1..][..header - 1] == stream[..header];
      assert buffer[..header][0] == stream[0] == buffer[0];
      var payload := HostPayloadLength(buffer[..header]);
      HeaderDecides(stream, header);
      if header + payload > SOCKET_BUF_SIZE {
        return TooLong;
      }
      if payload > 0 {
        status := TakePayload(stream, header, payload, extra);
      } else {
        assert stream[header..header] == [] && stream[..header] + [] == stream[..header];
        status := Taken(header, 0, extra);
      }
    }

    /** Reads the payload behind the header. */
    method TakePayload(ghost stream: bytes, header: nat, payload: nat, extra: nat) returns (status: Status)
      requires Valid() && 0 < payload && header + payload <= SOCKET_BUF_SIZE
      requires HostHeaderComplete(stream) && header == HostHeaderLength(stream[0])
      requires HostLength(stream) == header + payload
      requires header + extra <= |stream| && host.pending == stream[header + extra..]
      requires buffer[..header] == stream[..header]
      modifies buffer, host
      ensures status.ReadFailed? || (status.Taken? && status.skipped == extra)
      ensures Explained(status, stream)
      ensures status.Taken? ==> buffer[..status.total] == Took(stream, status.skipped)
      ensures (old(host.failed) ==> host.failed) && host.idle == old(host.idle)
    {
      ghost var second := host.pending;
      var ok, more := ReadPart(header, payload);
      if !ok {
        return ReadFailed;
      }
      assert second[..payload] == stream[header + extra..header + payload + extra];
      assert host.pending == stream[header + payload + extra + more..];
      status := Taken(header + payload, extra, more);
    }

    /** A call that takes no packet has a cause in what it read; one that does leaves what it did not read. */
    ghost predicate Explained(status: Status, stream: bytes)
      reads host
    {
      match status
      case NoType => host.pending == stream
      case ReadFailed => host.failed
      case Aborted => stream != [] && !HostType(stream[0])
      case TooLong => HostHeaderComplete(stream) && HostLength(stream) > SOCKET_BUF_SIZE
      case Taken(total, skipped, beyond) =>
        HostHeaderComplete(stream) && total == HostLength(stream)
        && total + skipped + beyond <= |stream| && host.pending == stream[total + skipped + beyond..]
    }

    /** scomm_vendor_recv_rawdata: one packet from the host to its port. Whatever the reads return, the
        bytes taken for the packet go to the port of its type, cut short only by a write of this call
        that failed or by the port's driver being down, and nothing goes to another port. They are the
        packet itself if no read took bytes beyond the header. */
    method RecvRawdata() returns (status: Status, sent: nat, failed: bool)
      requires Valid()
      modifies this, buffer, host, drivers
      ensures Valid() && Explained(status, old(host.pending))
      ensures status.Taken? ==>
                var port := PortOf(old(host.pending)[0], sdio);
                && sent <= status.total
                && ports == Added(old(ports), port, Took(old(host.pending), status.skipped)[..sent])
                && (sent < status.total ==> failed || drivers[port].checksLeft == 0)
                && (failed ==> sent < status.total)
                && (old(drivers[port].checksLeft) == 0 ==> sent == 0 && !failed)
      ensures !status.Taken? ==> ports == old(ports) && !failed
      ensures writeErrors == old(writeErrors) + if failed then 1 else 0
      ensures overRead == (old(overRead) || (status.Taken? && status.skipped + status.beyond > 0))
      ensures old(host.failed) ==> host.failed
      ensures host.idle == old(host.idle) + if status.NoType? then 1 else 0
      ensures forall p :: 0 <= p < PORTS && old(drivers[p].checksLeft) == 0 ==> drivers[p].checksLeft == 0
    {
      sent, failed := 0, false;
      ghost var stream := host.pending;
      status := TakePacket();
      if status.Taken? {
        overRead := overRead || status.skipped + status.beyond > 0;
        ghost var packet := Took(stream, status.skipped);
        assert buffer[0] == buffer[..status.total][0] == packet[0] == stream[0];
        sent, failed := WritePort(PortOf(buffer[0], sdio), status.total);
        assert buffer[..sent] == packet[..sent];
      }
    }

    /** The ports whose driver is down. */
    ghost function Down(): (d: seq<bool>)
      requires |drivers| == PORTS
      reads drivers
      ensures |d| == PORTS && forall p :: 0 <= p < PORTS ==> (d[p] <==> drivers[p].checksLeft == 0)
    {
      seq(PORTS, p requires 0 <= p < PORTS reads drivers => drivers[p].checksLeft == 0)
    }

    /** What became of the packets taken so far, the first |parts| of fs: of each the part in parts went to
        its port, and failed says whether a write of it failed. Behind that, port q carries tail. */
    ghost predicate Served(fs: seq<bytes>, parts: seq<bytes>, failed: seq<bool>, q: nat, tail: bytes)
      reads this, drivers
    {
      && |ports| == |drivers| == PORTS && |parts| == |failed| <= |fs|
      && Carry(ports, fs[..|parts|], parts, sdio, q, tail)
      && SentInOrder(fs[..|parts|], parts, failed, sdio, Down())
      && (tail != [] ==> overRead && |parts| < |fs| && TailOf(fs[|parts|], q, tail))
    }

    predicate TailOf(f: bytes, q: nat, tail: bytes) {
      && f != [] && q == PortOf(f[0], sdio) && |tail| <= |f| && (tail != [] ==> tail[0] == f[0])
    }

    /** Before the next call: framing is intact, and the stream holds the packets not yet taken. */
    ghost predicate Framed(fs: seq<bytes>, n: nat)
      reads this, host
    {
      !overRead && n <= |fs| && host.pending == Concat(fs[n..])
    }

    /** The socket thread over a host that sends the packets fs: so many calls, or until framing is lost.
        A call that finds no type byte takes nothing, and the thread goes on. The packets taken are the
        first n of fs, one to each other call; each port carries its own of them, in order, each whole
        unless a write of that very packet failed or the port's driver is down, and once that is so the
        port gets no more; and it carries nothing else but what the last call sent of a packet whose
        header was read too far. Framing is lost only by a read that failed inside a packet or took more
        bytes than were missing. */
    method Serve(calls: nat, ghost fs: seq<bytes>)
      returns (n: nat, ghost parts: seq<bytes>, ghost failed: seq<bool>, ghost q: nat, ghost tail: bytes)
      requires Valid() && AllHostPackets(fs) && host.pending == Concat(fs)
      requires ports == [[], [], [], []] && !host.failed && writeErrors == 0 && !overRead
      modifies this, buffer, host, drivers
      ensures Valid() && n == |parts| <= |fs|
      ensures Served(fs, parts, failed, q, tail)
      ensures (n + (host.idle - old(host.idle)) == calls && Framed(fs, n)) || host.failed || overRead
      ensures Count(failed) <= writeErrors && (!overRead ==> Count(failed) == writeErrors)
      ensures sdio ==> PortTypes(PartsAll(fs[..n], parts, true))
      ensures writeErrors == 0 && true !in Down() && tail == [] ==> CarryAll(ports, fs[..n], sdio)
    {
      n, parts, failed, q, tail := 0, [], [], 0, [];
      assert fs[0..] == fs;
      var left, going := calls, true;
      while left > 0 && going
        invariant Valid() && n == |parts| <= |fs| && 0 <= left <= calls
        invariant Served(fs, parts, failed, q, tail)
        invariant if going then Framed(fs, n) && tail == [] && n + (host.idle - old(host.idle)) + left == calls
                  else host.failed || overRead
        invariant Count(failed) <= writeErrors && (!overRead ==> Count(failed) == writeErrors)
        decreases left, going
      {
        n, going, parts, failed, q, tail := ServeOne(n, fs, parts, failed, q);
        left := left - 1;
      }
      assert AllHostPackets(fs[..n]);
      SentAreParts(fs[..n], parts, failed, sdio, Down());
      PartsHaveTypes(fs[..n], parts);
      if writeErrors == 0 && true !in Down() {
        SentWhole(fs[..n], parts, failed, sdio, Down());
        CarryWhole(ports, fs[..n], sdio, q, tail);
      }
    }

    /** What a call within Serve makes of the state: the next packet taken, or its header read too far. */
    lemma TakenServed(before: seq<bytes>, down: seq<bool>, fs: seq<bytes>, parts: seq<bytes>, failed: seq<bool>,
                      sent: nat, fail: bool)
      requires |before| == |ports| == |drivers| == |down| == PORTS && |parts| == |failed| < |fs|
      requires Carry(before, fs[..|parts|], parts, sdio, 0, [])
      requires SentInOrder(fs[..|parts|], parts, failed, sdio, down)
      requires var f := fs[|parts|];
               && f != [] && sent <= |f| && ports == Added(before, PortOf(f[0], sdio), f[..sent])
               && OneSent(f, f[..sent], fail, sdio, down, Down())
      ensures Served(fs, parts + [fs[|parts|][..sent]], failed + [fail], 0, [])
    {
      var n, f := |parts|, fs[|parts|];
      assert fs[..n + 1] == fs[..n] + [f];
      CarryMore(before, fs[..n], parts, f, f[..sent], sdio);
      SentMore(fs[..n], parts, failed, f, f[..sent], fail, sdio, down, Down());
    }

    lemma TailServed(before: seq<bytes>, down: seq<bool>, fs: seq<bytes>, parts: seq<bytes>, failed: seq<bool>,
                     tail: bytes)
      requires |before| == |ports| == |drivers| == |down| == PORTS && |parts| == |failed| < |fs|
      requires Carry(before, fs[..|parts|], parts, sdio, 0, [])
      requires SentInOrder(fs[..|parts|], parts, failed, sdio, down) && StaysDown(down, Down())
      requires var f := fs[|parts|];
               && f != [] && |tail| <= |f| && (tail != [] ==> tail[0] == f[0])
               && ports == Added(before, PortOf(f[0], sdio), tail)
      requires overRead
      ensures Served(fs, parts, failed, PortOf(fs[|parts|][0], sdio), tail)
    {
      CarryTail(before, fs[..|parts|], parts, PortOf(fs[|parts|][0], sdio), tail, sdio);
      SentStays(fs[..|parts|], parts, failed, sdio, down, Down());
    }

    /** One call within Serve. */
    method ServeOne(n: nat, ghost fs: seq<bytes>, ghost parts: seq<bytes>, ghost failed: seq<bool>, ghost q: nat)
      returns (n': nat, going: bool, ghost parts': seq<bytes>, ghost failed': seq<bool>, ghost q': nat,
               ghost tail: bytes)
      requires Valid() && AllHostPackets(fs) && n == |parts| && Served(fs, parts, failed, q, []) && Framed(fs, n)
      requires Count(failed) == writeErrors
      modifies this, buffer, host, drivers
      ensures Valid() && n' == |parts'| <= |fs|
      ensures Served(fs, parts', failed', q', tail)
      ensures if going then Framed(fs, n') && tail == [] && n' + host.idle == n + old(host.idle) + 1
              else host.failed || overRead
      ensures Count(failed') <= writeErrors && (!overRead ==> Count(failed') == writeErrors)
    {
      ghost var stream, before, down := host.pending, ports, Down();
      n', parts', failed', q', tail := n, parts, failed, q, [];
      FrontPacket(fs, n);
      var status, sent, fail := RecvRawdata();
      going := status.NoType? || (status.Taken? && status.skipped + status.beyond == 0);
      SentStays(fs[..n], parts, failed, sdio, down, Down());
      if status.Taken? {
        if status.skipped == 0 {
          TakenServed(before, down, fs, parts, failed, sent, fail);
          CountSnoc(failed, fail);
          n', parts', failed', q' := n + 1, parts + [fs[n][..sent]], failed + [fail], 0;
        } else {
          q', tail := PortOf(stream[0], sdio), Took(stream, status.skipped)[..sent];
          TailServed(before, down, fs, parts, failed, tail);
        }
      }
    }
  }

  function Count(failed: seq<bool>): nat {
    if failed == [] then 0 else Count(failed[..|failed| - 1]) + if failed[|failed| - 1] then 1 else 0
  }

  lemma CountSnoc(failed: seq<bool>, fail: bool)
    ensures Count(failed + [fail]) == Count(failed) + if fail then 1 else 0
  {
    assert (failed + [fail])[..|failed|] == failed;
  }

  lemma {:induction false} CountNone(failed: seq<bool>)
    requires Count(failed) == 0
    ensures true !in failed
  {
    if failed != [] {
      CountNone(failed[..|failed| - 1]);
      assert failed == failed[..|failed| - 1] + [failed[|failed| - 1]];
    }
  }

  /** A driver that is down stays down. */
  predicate StaysDown(before: seq<bool>, after: seq<bool>) {
    |before| == |after| == PORTS && forall p :: 0 <= p < PORTS && before[p] ==> after[p]
  }

  /** A packet was sent whole, or a write of it failed, or its port's driver went down; if that was down
      before, nothing was sent. */
  predicate OneSent(f: bytes, part: bytes, failed: bool, sdio: bool, before: seq<bool>, after: seq<bool>) {
    && StaysDown(before, after) && f != [] && part <= f && (failed ==> part != f)
    && var port := PortOf(f[0], sdio);
       (part == f || failed || after[port]) && (before[port] ==> part == [] && !failed)
  }

  /** So it was with each of these packets, and where a driver went down under one, its port got nothing
      of the later ones. */
  predicate SentInOrder(fs: seq<bytes>, parts: seq<bytes>, failed: seq<bool>, sdio: bool, down: seq<bool>) {
    && |parts| == |failed| == |fs| && |down| == PORTS
    && (forall i :: 0 <= i < |fs| ==> SentOrExcused(fs[i], parts[i], failed[i], sdio, down))
    && (forall i, j :: 0 <= i < j < |fs| && CutByDriver(fs[i], parts[i], failed[i]) && SamePort(fs[i], fs[j], sdio)
          ==> parts[j] == [] && !failed[j])
  }

  predicate SentOrExcused(f: bytes, part: bytes, failed: bool, sdio: bool, down: seq<bool>)
    requires |down| == PORTS
  {
    f != [] && part <= f && (failed ==> part != f) && (part == f || failed || down[PortOf(f[0], sdio)])
  }

  predicate CutByDriver(f: bytes, part: bytes, failed: bool) {
    part != f && !failed
  }

  predicate SamePort(f: bytes, g: bytes, sdio: bool) {
    f != [] && g != [] && PortOf(f[0], sdio) == PortOf(g[0], sdio)
  }

  lemma SentStays(fs: seq<bytes>, parts: seq<bytes>, failed: seq<bool>, sdio: bool, down: seq<bool>, after: seq<bool>)
    requires StaysDown(down, after)
    ensures SentInOrder(fs, parts, failed, sdio, down) ==> SentInOrder(fs, parts, failed, sdio, after)
  {
    if SentInOrder(fs, parts, failed, sdio, down) {
      forall i | 0 <= i < |fs| ensures SentOrExcused(fs[i], parts[i], failed[i], sdio, after) {
        assert SentOrExcused(fs[i], parts[i], failed[i], sdio, down);
      }
    }
  }

  lemma SentMore(fs: seq<bytes>, parts: seq<bytes>, failed: seq<bool>, f: bytes, part: bytes, fail: bool, sdio: bool,
                 down: seq<bool>, after: seq<bool>)
    requires OneSent(f, part, fail, sdio, down, after) && SentInOrder(fs, parts, failed, sdio, down)
    ensures SentInOrder(fs + [f], parts + [part], failed + [fail], sdio, after)
  {
    SentStays(fs, parts, failed, sdio, down, after);
    var gs, qs, bs := fs + [f], parts + [part], failed + [fail];
    forall i | 0 <= i < |gs| ensures SentOrExcused(gs[i], qs[i], bs[i], sdio, after) {
      if i < |fs| {
        assert SentOrExcused(fs[i], parts[i], failed[i], sdio, after);
      }
    }
    forall i, j | 0 <= i < j < |gs| && CutByDriver(gs[i], qs[i], bs[i]) && SamePort(gs[i], gs[j], sdio)
      ensures qs[j] == [] && !bs[j]
    {
      assert SentOrExcused(fs[i], parts[i], failed[i], sdio, down);
      assert j < |fs| ==> CutByDriver(fs[i], parts[i], failed[i]) && SamePort(fs[i], fs[j], sdio);
    }
  }

  lemma SentAreParts(fs: seq<bytes>, parts: seq<bytes>, failed: seq<bool>, sdio: bool, down: seq<bool>)
    requires SentInOrder(fs, parts, failed, sdio, down)
    ensures forall i :: 0 <= i < |fs| ==> parts[i] <= fs[i]
  {
    forall i | 0 <= i < |fs| ensures parts[i] <= fs[i] {
      assert SentOrExcused(fs[i], parts[i], failed[i], sdio, down);
    }
  }

  lemma SentWhole(fs: seq<bytes>, parts: seq<bytes>, failed: seq<bool>, sdio: bool, down: seq<bool>)
    requires SentInOrder(fs, parts, failed, sdio, down) && Count(failed) == 0 && true !in down
    ensures parts == fs
  {
    CountNone(failed);
    forall i | 0 <= i < |fs| ensures parts[i] == fs[i] {
      assert SentOrExcused(fs[i], parts[i], failed[i], sdio, down);
      assert failed[i] in failed && down[PortOf(fs[i][0], sdio)] in down;
    }
  }

  /** What a part looks like after one more read. */
  lemma NextPart(front: bytes, start: bytes, got: nat, data: bytes, used: nat, after: bytes)
    requires got <= |start| && start[got..] == data + after && used <= |data|
    ensures got + |data| <= |start| && front + start[..got] + data[..used] == front + start[..got + used]
    ensures after == start[got + |data|..]
  {
    assert start[..got + used] == start[..got] + data[..used];
    assert after == start[got..][|data|..];
  }

  /** The bytes of the header decide the packet's length. */
  lemma HeaderDecides(stream: bytes, header: nat)
    requires stream != [] && HostType(stream[0]) && header == HostHeaderLength(stream[0]) <= |stream|
    ensures HostHeaderComplete(stream[..header]) && HostPayloadLength(stream[..header]) == HostPayloadLength(stream)
  {
  }

  /** At the front of what is left stands the next packet, or nothing. */
  lemma FrontPacket(fs: seq<bytes>, n: nat)
    requires AllHostPackets(fs) && n <= |fs|
    ensures n == |fs| ==> Concat(fs[n..]) == []
    ensures n < |fs| ==>
              var f, stream := fs[n], Concat(fs[n..]);
              && HostPacket(f) && HostHeaderComplete(stream) && HostLength(stream) == |f| && stream[0] == f[0]
              && |f| <= |stream| && Took(stream, 0) == f && stream[|f|..] == Concat(fs[n + 1..])
  {
    if n < |fs| {
      var f, x := fs[n], Concat(fs[n + 1..]);
      assert f in fs;
      assert fs[n..][0] == f && fs[n..][1..] == fs[n + 1..];
      TookIsPacket(f, x);
      assert (f + x)[0] == f[0];
    }
  }

  /** Each port carries its parts of the packets fs, in order, and port q has tail behind them. */
  ghost predicate Carry(ports: seq<bytes>, fs: seq<bytes>, parts: seq<bytes>, sdio: bool, q: nat, tail: bytes) {
    && |ports| == PORTS && |parts| == |fs|
    && forall p :: 0 <= p < PORTS ==> ports[p] == Concat(PartsTo(fs, parts, p, sdio)) + if p == q then tail else []
  }

  lemma CarryMore(ports: seq<bytes>, fs: seq<bytes>, parts: seq<bytes>, f: bytes, part: bytes, sdio: bool)
    requires |ports| == PORTS && |parts| == |fs| && f != []
    ensures Carry(ports, fs, parts, sdio, 0, []) ==>
              Carry(Added(ports, PortOf(f[0], sdio), part), fs + [f], parts + [part], sdio, 0, [])
  {
    if Carry(ports, fs, parts, sdio, 0, []) {
      var next := Added(ports, PortOf(f[0], sdio), part);
      forall p | 0 <= p < PORTS
        ensures next[p] == Concat(PartsTo(fs + [f], parts + [part], p, sdio)) + if p == 0 then [] else []
      {
        PartsSnoc(fs, parts, f, part, p, sdio);
      }
    }
  }

  lemma CarryTail(ports: seq<bytes>, fs: seq<bytes>, parts: seq<bytes>, q: nat, tail: bytes, sdio: bool)
    requires |ports| == PORTS && q < PORTS
    ensures Carry(ports, fs, parts, sdio, 0, []) ==> Carry(Added(ports, q, tail), fs, parts, sdio, q, tail)
  {
  }

  /** Each port carries the packets routed to it, whole and in order. */
  ghost predicate CarryAll(ports: seq<bytes>, fs: seq<bytes>, sdio: bool) {
    |ports| == PORTS && forall p :: 0 <= p < PORTS ==> ports[p] == Concat(RoutedTo(fs, p, sdio))
  }

  lemma AllWhole(fs: seq<bytes>, sdio: bool)
    ensures PartsAll(fs, fs, sdio) == RoutedAll(fs, sdio)
  {
    forall p | 0 <= p < PORTS ensures PartsTo(fs, fs, p, sdio) == RoutedTo(fs, p, sdio) {
      WholeParts(fs, p, sdio);
    }
  }

  lemma CarryWhole(ports: seq<bytes>, fs: seq<bytes>, sdio: bool, q: nat, tail: bytes)
    ensures Carry(ports, fs, fs, sdio, q, tail) && tail == [] ==> CarryAll(ports, fs, sdio)
  {
    if Carry(ports, fs, fs, sdio, q, tail) && tail == [] {
      forall p | 0 <= p < PORTS ensures ports[p] == Concat(RoutedTo(fs, p, sdio)) {
        WholeParts(fs, p, sdio);
        assert ports[p] == Concat(PartsTo(fs, fs, p, sdio)) + [];
      }
    }
  }

  ghost predicate AllHostPackets(fs: seq<bytes>) {
    forall f :: f in fs ==> HostPacket(f)
  }

  /** The packets of a stream are the only ones it can be taken apart into. */
  lemma {:induction false} PacketsUnique(fs: seq<bytes>, x: bytes, gs: seq<bytes>, y: bytes)
    requires AllHostPackets(fs) && AllHostPackets(gs) && |gs| <= |fs|
    requires Concat(fs) + x == Concat(gs) + y
    ensures gs == fs[..|gs|]
  {
    if gs != [] {
      var f, g := fs[0], gs[0];
      assert f in fs && g in gs;
      Assoc(f, Concat(fs[1..]), x);
      Assoc(g, Concat(gs[1..]), y);
      HostPacketUnique(f, Concat(fs[1..]) + x, g, Concat(gs[1..]) + y);
      PacketsUnique(fs[1..], x, gs[1..], y);
    }
  }

  lemma {:induction false} RoutedAreHostPackets(fs: seq<bytes>, p: nat, sdio: bool)
    requires AllHostPackets(fs)
    ensures AllHostPackets(RoutedTo(fs, p, sdio))
  {
    if fs != [] {
      RoutedAreHostPackets(fs[..|fs| - 1], p, sdio);
      assert fs[|fs| - 1] in fs;
    }
  }

  /** Framing survives routing: whatever the receiver on a port takes the port's bytes apart into, it
      gets exactly the packets routed there, in order; and together the ports have all the packets. */
  lemma TransmitExactly(fs: seq<bytes>, sdio: bool, ports: seq<bytes>, got: seq<seq<bytes>>)
    requires AllHostPackets(fs) && |ports| == |got| == PORTS
    requires CarryAll(ports, fs, sdio)
    requires forall p :: 0 <= p < PORTS ==> AllHostPackets(got[p]) && Concat(got[p]) == ports[p]
    ensures forall p :: 0 <= p < PORTS ==> got[p] == RoutedTo(fs, p, sdio)
    ensures Together(got) == multiset(fs)
    ensures sdio ==> PortTypes(got)
    ensures !sdio ==> got[0] == fs
  {
    forall p | 0 <= p < PORTS
      ensures got[p] == RoutedTo(fs, p, sdio)
    {
      RoutedAreHostPackets(fs, p, sdio);
      SamePackets(got[p], RoutedTo(fs, p, sdio));
    }
    assert got == RoutedAll(fs, sdio);
    AllWhole(fs, sdio);
    if sdio {
      PartsHaveTypes(fs, fs);
    }
    assert forall f :: f in fs ==> HostPacket(f);
    RoutingPartitions(fs, sdio);
  }

  lemma SamePackets(fs: seq<bytes>, gs: seq<bytes>)
    requires AllHostPackets(fs) && AllHostPackets(gs) && Concat(fs) == Concat(gs)
    ensures fs == gs
  {
    assert Concat(fs) + [] == Concat(gs) + [];
    if |gs| <= |fs| {
      PacketsUnique(fs, [], gs, []);
      NoneLeft(fs, |gs|);
    } else {
      PacketsUnique(gs, [], fs, []);
      NoneLeft(gs, |fs|);
    }
  }

  lemma NoneLeft(fs: seq<bytes>, n: nat)
    requires AllHostPackets(fs) && n <= |fs| && Concat(fs) == Concat(fs[..n])
    ensures n == |fs|
  {
    assert fs == fs[..n] + fs[n..];
    ConcatAppend(fs[..n], fs[n..]);
    FrontPacket(fs, n);
  }

  lemma AddedNothing(ports: seq<bytes>, p: nat)
    requires p < |ports|
    ensures Added(ports, p, []) == ports
  {
    assert ports[p] + [] == ports[p];
  }

  lemma AddedTwice(ports: seq<bytes>, p: nat, a: bytes, b: bytes)
    requires p < |ports|
    ensures Added(Added(ports, p, a), p, b) == Added(ports, p, a + b)
  {
    Assoc(ports[p], a, b);
  }

  function Added(ports: seq<bytes>, p: nat, b: bytes): seq<bytes>
    requires p < |ports|
  {
    ports[p := ports[p] + b]
  }
}
