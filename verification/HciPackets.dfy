/**
 The packets of both directions, written out from their fields (Bluetooth Core Specification, Vol 4
 Part A section 2 and Vol 4 Part E sections 5.4.1 to 5.4.5), and that the framing recognises exactly these.
 */
module HciPackets {
  import opened Bytes
  import opened HciFraming
  import opened Transmit
  import ReceivePort
  import Btsnoop

  datatype Packet =
    | Command(lo: byte, hi: byte, params: bytes)
    | Acl(lo: byte, hi: byte, data: bytes)
    | Sco(lo: byte, hi: byte, data: bytes)
    | Event(code: byte, params: bytes)
    | Iso(lo: byte, hi: byte, data: bytes)
    | Log(tag: byte, data: bytes)
  {
    function Payload(): bytes {
      if Command? || Event? then params else data
    }

    /** The payload's length fits its field. */
    predicate Fits() {
      |Payload()| < if Acl? || Iso? || Log? then 0x1_0000 else 0x100
    }

    function Encode(): bytes
      requires Fits()
    {
      match this
      case Command(lo, hi, p) => [1, lo, hi, |p|] + p
      case Acl(lo, hi, d) => [2, lo, hi, |d| % 256, |d| / 256] + d
      case Sco(lo, hi, d) => [3, lo, hi, |d|] + d
      case Event(code, p) => [4, code, |p|] + p
      case Iso(lo, hi, d) => [5, lo, hi, |d| % 256, |d| / 256] + d
      case Log(tag, d) => [7, tag, |d| % 256, |d| / 256] + d
    }
  }

  ghost predicate IsEncoding(f: bytes, p: Packet) {
    p.Fits() && f == p.Encode()
  }

  // ----- from the controller -----

  lemma EncodedIsWellFormed(p: Packet)
    requires p.Fits() && !p.Command? && |p.Encode()| < 0x1_0000
    ensures WellFormed(p.Encode())
  {
  }

  /** The fields of a well-formed packet. */
  lemma WellFormedIsEncoded(f: bytes) returns (p: Packet)
    requires WellFormed(f)
    ensures IsEncoding(f, p) && !p.Command? && |f| < 0x1_0000
  {
    if f[0] == 2 {
      p := Acl(f[1], f[2], f[5..]);
    } else if f[0] == 3 {
      p := Sco(f[1], f[2], f[4..]);
    } else if f[0] == 4 {
      p := Event(f[1], f[3..]);
    } else if f[0] == 5 {
      p := Iso(f[1], f[2], f[5..]);
    } else {
      p := Log(f[1], f[4..]);
    }
    assert f == p.Encode();
  }

  /** The reassembler's well-formed packets are exactly the events, data packets and log frames of less
      than 65536 bytes. */
  lemma WellFormedExactly(f: bytes)
    ensures WellFormed(f) <==> |f| < 0x1_0000 && exists p: Packet :: IsEncoding(f, p) && !p.Command?
  {
    if WellFormed(f) {
      var p := WellFormedIsEncoded(f);
    } else if |f| < 0x1_0000 && exists p: Packet :: IsEncoding(f, p) && !p.Command? {
      var p: Packet :| IsEncoding(f, p) && !p.Command?;
      EncodedIsWellFormed(p);
    }
  }

  // ----- from the host -----

  predicate FromHost(p: Packet) {
    p.Command? || p.Acl? || p.Sco? || p.Iso?
  }

  lemma EncodedIsHostPacket(p: Packet)
    requires p.Fits() && FromHost(p) && |p.Encode()| <= 4096
    ensures HostPacket(p.Encode())
  {
  }

  lemma HostPacketIsEncoded(f: bytes) returns (p: Packet)
    requires HostPacket(f)
    ensures IsEncoding(f, p) && FromHost(p) && |f| <= 4096
  {
    if f[0] == 1 {
      p := Command(f[1], f[2], f[4..]);
    } else if f[0] == 2 {
      p := Acl(f[1], f[2], f[5..]);
    } else if f[0] == 3 {
      p := Sco(f[1], f[2], f[4..]);
    } else {
      p := Iso(f[1], f[2], f[5..]);
    }
    assert f == p.Encode();
  }

  /** The transmitter's packets are exactly the commands and data packets of at most 4096 bytes. */
  lemma HostPacketExactly(f: bytes)
    ensures HostPacket(f) <==> |f| <= 4096 && exists p: Packet :: IsEncoding(f, p) && FromHost(p)
  {
    if HostPacket(f) {
      var p := HostPacketIsEncoded(f);
    } else if |f| <= 4096 && exists p: Packet :: IsEncoding(f, p) && FromHost(p) {
      var p: Packet :| IsEncoding(f, p) && FromHost(p);
      EncodedIsHostPacket(p);
    }
  }

  // ----- other packets the library makes or measures -----

  /** The report of a failed controller is the event with code 0x10 and one parameter, 0x10. */
  lemma HardwareErrorIsEvent()
    ensures IsEncoding(ReceivePort.HW_ERROR_EVENT, Event(0x10, [0x10]))
  {
  }

  /** The recorder takes every packet of either direction, a log frame apart, at its whole length. */
  lemma RecorderMeasures(p: Packet)
    requires p.Fits() && !p.Log?
    ensures Btsnoop.Measurable(p.Encode()) && Btsnoop.SnoopLength(p.Encode()) == |p.Encode()|
  {
  }
}
