/**
 H4 packet indicators and the length fields of the HCI packets that follow them, as the receive
 path reads them (Bluetooth Core Specification, Vol 4 Part A section 2 and Vol 4 Part E sections
 5.4.1 to 5.4.5), plus the vendor log frame 0x07.
 */
module HciFraming {
  import opened Bytes

  const COMMAND_PKT: byte := 1
  const ACLDATA_PKT: byte := 2
  const SCODATA_PKT: byte := 3
  const EVENT_PKT: byte := 4
  const ISO_PKT: byte := 5
  const SKWLOG_PKT: byte := 7

  // Header bytes after the type byte, indexed by packet type.
  const PREAMBLE_SIZES: seq<nat> := [0, 3, 4, 3, 2, 4, 0, 3]

  // The packet lengths the C code holds in a uint16_t wrap at this value.
  const U16: nat := 0x1_0000

  /** The types the parse loop takes for the start of a packet. */
  predicate Accepted(t: byte) {
    t == EVENT_PKT || t == ACLDATA_PKT || t == SCODATA_PKT || t == SKWLOG_PKT || t == ISO_PKT
  }

  /** The types a junk run ends at. ISO is not one of them. */
  predicate ResyncType(t: byte) {
    t == EVENT_PKT || t == ACLDATA_PKT || t == SCODATA_PKT || t == SKWLOG_PKT
  }

  function HeaderLength(t: byte): (n: nat)
    requires Accepted(t)
    ensures 3 <= n <= 5
  {
    PREAMBLE_SIZES[t] + 1
  }

  predicate HeaderComplete(s: bytes) {
    s != [] && Accepted(s[0]) && |s| >= HeaderLength(s[0])
  }

  function PayloadLength(s: bytes): (n: nat)
    requires HeaderComplete(s)
    ensures n < U16
  {
    if s[0] == ACLDATA_PKT || s[0] == ISO_PKT then Le16(s[3], s[4])
    else if s[0] == EVENT_PKT then s[2]
    else if s[0] == SKWLOG_PKT then Le16(s[2], s[3])
    else s[3]
  }

  /** The length the header promises. */
  function DeclaredLength(s: bytes): nat
    requires HeaderComplete(s)
  {
    HeaderLength(s[0]) + PayloadLength(s)
  }

  /** The length the code computes: the promised one, reduced to 16 bits by the addition. */
  function CutLength(s: bytes): (n: nat)
    requires HeaderComplete(s)
    ensures n == DeclaredLength(s) % U16
  {
    var n := DeclaredLength(s);
    if n < U16 then n else n - U16
  }

  /** A whole packet, by the computed length, stands at the front. */
  predicate HeadReady(s: bytes) {
    HeaderComplete(s) && 0 < CutLength(s) <= |s|
  }

  /** The header's length field makes the computed length wrap to zero. */
  predicate ZeroCut(s: bytes) {
    HeaderComplete(s) && CutLength(s) == 0
  }

  /** Exactly one packet of an accepted type, its length not overflowing 16 bits. */
  predicate WellFormed(f: bytes) {
    HeaderComplete(f) && DeclaredLength(f) == |f| < U16
  }

  /** A header decides its packet's length; what follows the header does not matter. */
  lemma HeaderIsPrefixStable(s: bytes, x: bytes)
    requires HeaderComplete(s)
    ensures HeaderComplete(s + x) && DeclaredLength(s + x) == DeclaredLength(s)
    ensures HeadReady(s) ==> HeadReady(s + x)
    ensures ZeroCut(s) <==> ZeroCut(s + x)
  {
  }

  /** Where the length computation wraps to zero: exactly two values of the 16-bit fields. */
  lemma ZeroCutExactly(s: bytes)
    requires HeaderComplete(s)
    ensures ZeroCut(s) <==>
            ((s[0] == ACLDATA_PKT || s[0] == ISO_PKT) && s[3] == 0xFB && s[4] == 0xFF)
            || (s[0] == SKWLOG_PKT && s[2] == 0xFC && s[3] == 0xFF)
  {
    assert DeclaredLength(s) <= 5 + 0xFFFF;
    assert ZeroCut(s) <==> DeclaredLength(s) == U16;
  }
}
