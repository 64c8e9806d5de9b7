/**
 The snoop recorder: big-endian records appended to a file field by field, a decoder for them, and
 the agreement of the recorder's own length computation with those of the receive and transmit paths.
 */
module Btsnoop {
  import opened Bytes
  import opened HciFraming
  import opened Transmit
  import LockedStream

  const U32: nat := 0x1_0000_0000
  const U64: nat := 0x1_0000_0000_0000_0000

  // Microseconds from the origin of the snoop format to the Unix epoch: 719540 days.
  const EPOCH_DELTA: nat := 0x00dc_ddb3_0f2f_8000
  const SECONDS_TO_EPOCH: nat := 719_540 * 86_400

  // "btsnoop", version 1, data link type 1002 (HCI UART).
  const FILE_HEADER: bytes := [0x62, 0x74, 0x73, 0x6E, 0x6F, 0x6F, 0x70, 0, 0, 0, 0, 1, 0, 0, 3, 0xEA]

  const ROTATE_AT: nat := 1024 * 1024 * 1024

  // ----- records -----

  datatype Record = Record(flags: nat, time: nat, data: bytes)

  predicate RecordOk(r: Record) {
    r.flags < U32 && r.time < U64 && |r.data| < U32
  }

  /** Four bytes, the highest first. */
  function Be32(n: nat): (b: bytes)
    requires n < U32
    ensures |b| == 4
    ensures b[0] as int * 0x100_0000 + b[1] as int * 0x1_0000 + b[2] as int * 0x100 + b[3] as int == n
  {
    Be32Sum(n);
    [n / 0x100_0000, n / 0x1_0000 % 0x100, n / 0x100 % 0x100, n % 0x100]
  }

  function FromBe32(b: bytes): nat
    requires |b| == 4
  {
    b[0] as int * 0x100_0000 + b[1] as int * 0x1_0000 + b[2] as int * 0x100 + b[3] as int
  }

  lemma Be32Sum(n: nat)
    ensures n / 0x100_0000 * 0x100_0000 + n / 0x1_0000 % 0x100 * 0x1_0000 + n / 0x100 % 0x100 * 0x100 + n % 0x100 == n
  {
    var high, mid := n / 0x1_0000, n / 0x100;
    assert mid == high * 0x100 + mid % 0x100 && high == n / 0x100_0000 * 0x100 + high % 0x100;
  }

  lemma Be32RoundTrip(n: nat)
    requires n < U32
    ensures FromBe32(Be32(n)) == n
  {
  }

  /** The six header fields: length twice, flags, drops, and the time's upper and lower half. */
  function Header(length: nat, flags: nat, time: nat): (h: bytes)
    requires length < U32 && flags < U32 && time < U64
    ensures |h| == 24
  {
    Be32(length) + Be32(length) + Be32(flags) + Be32(0) + Be32(time / U32) + Be32(time % U32)
  }

  function Fields(r: Record): (h: bytes)
    requires RecordOk(r)
    ensures |h| == 24
  {
    Header(|r.data|, r.flags, r.time)
  }

  function Encode(r: Record): bytes
    requires RecordOk(r)
  {
    Fields(r) + r.data
  }

  predicate AllOk(rs: seq<Record>) {
    forall i :: 0 <= i < |rs| ==> RecordOk(rs[i])
  }

  function EncodeAll(rs: seq<Record>): seq<bytes>
    requires AllOk(rs)
  {
    seq(|rs|, i requires 0 <= i < |rs| => Encode(rs[i]))
  }

  /** A record as a reader of the format sees it: how long the packet was, how much of it is included,
      flags, drops, time, and the bytes included. */
  datatype Snooped = Snooped(original: nat, included: nat, flags: nat, drops: nat, time: nat, data: bytes)

  /** A record read from the front, all six fields of it; none if the bytes are not a whole record, or
      claim to include more than there was. */
  function DecodeOne(b: bytes): Option<Snooped> {
    if |b| < 24 then None
    else
      var original, included := FromBe32(b[0..4]), FromBe32(b[4..8]);
      if included > original || |b| < 24 + included then None
      else
        var time := FromBe32(b[16..20]) * U32 + FromBe32(b[20..24]);
        Some(Snooped(original, included, FromBe32(b[8..12]), FromBe32(b[12..16]), time, b[24..24 + included]))
  }

  datatype Decoded = Decoded(records: seq<Snooped>, rest: bytes)

  function DecodeAll(b: bytes): Decoded
    decreases |b|
  {
    match DecodeOne(b)
    case None => Decoded([], b)
    case Some(r) =>
      var d := DecodeAll(b[24 + r.included..]);
      Decoded([r] + d.records, d.rest)
  }

  /** A snoop file: the name of the format, version 1 and data link type 1002, then records; None if the
      header is not there. */
  function DecodeFile(file: bytes): Option<Decoded> {
    if |file| >= 16 && file[..8] == [0x62, 0x74, 0x73, 0x6E, 0x6F, 0x6F, 0x70, 0x00]
       && FromBe32(file[8..12]) == 1 && FromBe32(file[12..16]) == 1002
    then Some(DecodeAll(file[16..]))
    else None
  }

  /** A record written whole: both lengths are its own, and nothing was dropped. */
  function AsRead(r: Record): Snooped {
    Snooped(|r.data|, |r.data|, r.flags, 0, r.time, r.data)
  }

  function AllAsRead(rs: seq<Record>): seq<Snooped> {
    seq(|rs|, i requires 0 <= i < |rs| => AsRead(rs[i]))
  }

  lemma FieldsRead(r: Record, x: bytes)
    requires RecordOk(r)
    ensures var b := Fields(r) + x;
            && FromBe32(b[0..4]) == FromBe32(b[4..8]) == |r.data|
            && FromBe32(b[8..12]) == r.flags && FromBe32(b[12..16]) == 0
            && FromBe32(b[16..20]) * U32 + FromBe32(b[20..24]) == r.time && b[24..] == x
  {
    var b := Fields(r) + x;
    assert b[0..4] == Be32(|r.data|) && b[4..8] == Be32(|r.data|);
    assert b[8..12] == Be32(r.flags) && b[12..16] == Be32(0);
    assert b[16..20] == Be32(r.time / U32) && b[20..24] == Be32(r.time % U32);
    Be32RoundTrip(|r.data|);
    Be32RoundTrip(r.flags);
    Be32RoundTrip(r.time / U32);
    Be32RoundTrip(r.time % U32);
  }

  /** Reading back what was written, whatever follows. */
  lemma DecodeEncode(r: Record, x: bytes)
    requires RecordOk(r)
    ensures DecodeOne(Encode(r) + x) == Some(AsRead(r)) && (Encode(r) + x)[24 + |r.data|..] == x
  {
    Assoc(Fields(r), r.data, x);
    FieldsRead(r, r.data + x);
    var b := Fields(r) + (r.data + x);
    assert b[24..24 + |r.data|] == b[24..][..|r.data|] == r.data;
  }

  /** A record that is cut short is not taken for one. */
  lemma DecodePartial(r: Record, part: bytes)
    requires RecordOk(r) && part <= Encode(r) && part != Encode(r)
    ensures DecodeOne(part) == None
  {
    if |part| >= 24 {
      FieldsRead(r, part[24..]);
      assert part == Fields(r) + part[24..];
    }
  }

  /** These bytes decode to these records, with part left over. */
  predicate DecodesTo(b: bytes, rs: seq<Snooped>, part: bytes) {
    DecodeAll(b) == Decoded(rs, part)
  }

  lemma DecodeOneMore(r: Record, x: bytes, rs: seq<Snooped>, part: bytes)
    requires RecordOk(r)
    ensures DecodesTo(x, rs, part) ==> DecodesTo(Encode(r) + x, [AsRead(r)] + rs, part)
  {
    DecodeEncode(r, x);
  }

  lemma AsReadCons(rs: seq<Record>)
    requires rs != []
    ensures AllAsRead(rs) == [AsRead(rs[0])] + AllAsRead(rs[1..])
  {
  }

  lemma ConcatEncoded(rs: seq<Record>, part: bytes)
    requires AllOk(rs) && rs != []
    ensures Concat(EncodeAll(rs)) + part == Encode(rs[0]) + (Concat(EncodeAll(rs[1..])) + part)
  {
    assert EncodeAll(rs)[1..] == EncodeAll(rs[1..]);
    Assoc(Encode(rs[0]), Concat(EncodeAll(rs[1..])), part);
  }

  /** The file of these records, and then the first part of one more, gives back exactly the records. */
  lemma {:induction false} DecodeRecords(rs: seq<Record>, part: bytes)
    requires AllOk(rs) && DecodeOne(part) == None
    ensures DecodesTo(Concat(EncodeAll(rs)) + part, AllAsRead(rs), part)
  {
    if rs == [] {
      assert Concat(EncodeAll(rs)) + part == part;
    } else {
      var x := Concat(EncodeAll(rs[1..])) + part;
      ConcatEncoded(rs, part);
      AsReadCons(rs);
      DecodeRecords(rs[1..], part);
      DecodeOneMore(rs[0], x, AllAsRead(rs[1..]), part);
    }
  }

  /** A file decodes to these records, with part left over. */
  predicate FileDecodesTo(file: bytes, rs: seq<Snooped>, part: bytes) {
    DecodeFile(file) == Some(Decoded(rs, part))
  }

  lemma HeaderDecodes(b: bytes, rs: seq<Snooped>, part: bytes)
    ensures DecodesTo(b, rs, part) ==> FileDecodesTo(FILE_HEADER + b, rs, part)
  {
    var file := FILE_HEADER + b;
    assert file[16..] == b;
    assert file[..8] == FILE_HEADER[..8] && file[8..12] == FILE_HEADER[8..12] && file[12..16] == FILE_HEADER[12..16];
  }

  lemma DecodeFileRecords(rs: seq<Record>, part: bytes)
    requires AllOk(rs) && DecodeOne(part) == None
    ensures FileDecodesTo(FILE_HEADER + (Concat(EncodeAll(rs)) + part), AllAsRead(rs), part)
  {
    DecodeRecords(rs, part);
    HeaderDecodes(Concat(EncodeAll(rs)) + part, AllAsRead(rs), part);
  }

  // ----- what is recorded of a packet -----

  predicate Recorded(t: byte) {
    HostType(t) || t == EVENT_PKT || t == SKWLOG_PKT
  }

  /** Enough of the packet is there to compute its length. */
  predicate Measurable(p: bytes) {
    p != [] && Recorded(p[0]) && |p| >= 3
    && (p[0] != EVENT_PKT && p[0] != SKWLOG_PKT ==> |p| >= 4)
    && (p[0] == ACLDATA_PKT || p[0] == ISO_PKT ==> |p| >= 5)
  }

  function SnoopLength(p: bytes): nat
    requires Measurable(p)
  {
    if p[0] == ACLDATA_PKT || p[0] == ISO_PKT then Le16(p[3], p[4]) + 5
    else if p[0] == COMMAND_PKT || p[0] == SCODATA_PKT then p[3] as int + 4
    else p[2] as int + 3
  }

  function SnoopFlags(t: byte, received: bool): nat {
    if t == COMMAND_PKT then 2
    else if t == EVENT_PKT || t == SKWLOG_PKT then 3
    else if received then 1 else 0
  }

  /** Microseconds since the origin of the format: its seconds and the microseconds of the last one can be told apart,
      as long as they fit 64 bits. */
  function Timestamp(sec: nat, usec: nat): (t: nat)
    ensures t < U64
    ensures usec < 1_000_000 && sec + SECONDS_TO_EPOCH < U64 / 1_000_000 ==>
              t / 1_000_000 == sec + SECONDS_TO_EPOCH && t % 1_000_000 == usec
  {
    SecondsFit(sec + SECONDS_TO_EPOCH, usec);
    assert EPOCH_DELTA == SECONDS_TO_EPOCH * 1_000_000;
    (sec * 1000 * 1000 + usec + EPOCH_DELTA) % U64
  }

  lemma SecondsFit(s: nat, usec: nat)
    ensures usec < 1_000_000 && s < U64 / 1_000_000 ==>
              var t := s * 1_000_000 + usec; t < U64 && t / 1_000_000 == s && t % 1_000_000 == usec
  {
  }

  function RecordOf(p: bytes, received: bool, sec: nat, usec: nat): (r: Record)
    requires Measurable(p) && SnoopLength(p) <= |p|
    ensures RecordOk(r)
  {
    Record(SnoopFlags(p[0], received), Timestamp(sec, usec), p[..SnoopLength(p)])
  }

  /** A packet sent by the host is recorded whole: the recorder's length is the transmitter's. */
  lemma SnoopTakesHostPacket(f: bytes)
    requires HostPacket(f)
    ensures Measurable(f) && SnoopLength(f) == |f|
  {
  }

  /** On what the receive path hands over (never a log frame), the recorder's length is the one the
      reassembler cuts at exactly if that one did not wrap. */
  lemma SnoopAgreesWithReassembler(s: bytes)
    requires HeaderComplete(s) && s[0] != SKWLOG_PKT
    ensures Measurable(s) && (SnoopLength(s) == CutLength(s) <==> DeclaredLength(s) < U16)
    ensures SnoopLength(s) == DeclaredLength(s)
  {
  }

  /** Where the record says what the packet was: type, and direction for data. */
  lemma RecordTellsPacket(f: bytes, received: bool, sec: nat, usec: nat)
    requires Measurable(f) && SnoopLength(f) == |f|
    ensures var r := RecordOf(f, received, sec, usec);
            && r.data == f && (r.flags < 2 ==> (r.flags == 1 <==> received))
            && (r.flags == 2 <==> f[0] == 1)
            && (r.flags == 3 <==> f[0] == 4 || f[0] == 7)
    ensures sec * 1000000 + usec + EPOCH_DELTA < U64 ==>
              RecordOf(f, received, sec, usec).time - EPOCH_DELTA == sec * 1000000 + usec
  {
  }

  // ----- the recorder -----

  class Recorder {
    var enabled: bool
    var open: bool
    var file: bytes
    var revLength: nat

    /** A fresh file. */
    constructor (enabled: bool)
      ensures this.enabled == enabled && open == enabled && revLength == 0
      ensures file == if enabled then FILE_HEADER else []
    {
      this.enabled, open, revLength := enabled, enabled, 0;
      file := if enabled then FILE_HEADER else [];
    }

    method Write(data: bytes)
      modifies `file
      ensures file == if open then old(file) + data else old(file)
    {
      if open {
        file := file + data;
      }
    }

    method WriteFields(length: nat, flags: nat, time: nat)
      requires length < U32 && flags < U32 && time < U64
      modifies `file
      ensures file == if open then old(file) + Header(length, flags, time) else old(file)
    {
      Write(Be32(length));
      Write(Be32(length));
      Write(Be32(flags));
      Write(Be32(0));
      Write(Be32(time / U32));
      Write(Be32(time % U32));
      assert open ==> file == old(file) + Header(length, flags, time);
    }

    /** skw_btsnoop_capture. Past a gigabyte the file is closed; opening the next is not modelled. */
    method Capture(p: bytes, received: bool, sec: nat, usec: nat)
      requires p != [] && (Recorded(p[0]) ==> Measurable(p) && SnoopLength(p) <= |p|)
      modifies this
      ensures file == old(file) + if old(enabled && open) && Recorded(p[0])
                                  then Encode(RecordOf(p, received, sec, usec)) else []
      ensures enabled == old(enabled)
      ensures revLength == old(revLength) + if old(enabled && open) && Recorded(p[0]) then SnoopLength(p) else 0
      ensures open == (old(open) && !(old(enabled) && Recorded(p[0]) && revLength >= 0x4000_0000))
    {
      if !enabled || !open || !Recorded(p[0]) {
        return;
      }
      var length := SnoopLength(p);
      revLength := revLength + length;
      WriteFields(length, SnoopFlags(p[0], received), Timestamp(sec, usec));
      Write(p[..length]);
      Assoc(old(file), Fields(RecordOf(p, received, sec, usec)), p[..length]);
      if revLength >= ROTATE_AT {
        open := false;
      }
    }
  }

  // ----- any interleaving of the receive and transmit callers -----

  function StreamsOf(input: seq<seq<Record>>): seq<seq<bytes>>
    requires forall w :: 0 <= w < |input| ==> AllOk(input[w])
  {
    seq(|input|, w requires 0 <= w < |input| => EncodeAll(input[w]))
  }

  /** The record that an entry of the lock's history was about. */
  function RecordIn(e: LockedStream.Entry): Record {
    match DecodeOne(e.packet)
    case Some(r) => Record(r.flags, r.time, r.data)
    case None => Record(0, 0, [])
  }

  predicate HoldsRecord(e: LockedStream.Entry) {
    RecordOk(RecordIn(e)) && e.packet == Encode(RecordIn(e))
  }

  predicate AllHold(h: seq<LockedStream.Entry>) {
    forall i :: 0 <= i < |h| ==> HoldsRecord(h[i])
  }

  function RecordsIn(h: seq<LockedStream.Entry>): seq<Record> {
    seq(|h|, i requires 0 <= i < |h| => RecordIn(h[i]))
  }

  function RecordsBy(h: seq<LockedStream.Entry>, w: nat): seq<Record> {
    if h == [] then []
    else RecordsBy(h[..|h| - 1], w) + if h[|h| - 1].writer == w then [RecordIn(h[|h| - 1])] else []
  }

  predicate OwnRecords(h: seq<LockedStream.Entry>, w: nat, rs: seq<Record>) {
    |RecordsBy(h, w)| == |LockedStream.Issued(h, w)| && RecordsBy(h, w) <= rs
  }

  predicate OwnHold(h: seq<LockedStream.Entry>, w: nat) {
    forall i :: 0 <= i < |h| && h[i].writer == w ==> HoldsRecord(h[i])
  }

  /** Writer w of history h was issued its own first records, in order. */
  predicate RecordsAgree(h: seq<LockedStream.Entry>, w: nat, rs: seq<Record>) {
    OwnRecords(h, w, rs) && OwnHold(h, w)
  }

  lemma EncodedIsRecord(e: LockedStream.Entry, r: Record)
    requires RecordOk(r) && e.packet == Encode(r)
    ensures HoldsRecord(e) && RecordIn(e) == r
  {
    DecodeEncode(r, []);
    assert Encode(r) + [] == Encode(r);
  }

  lemma OneMoreRecord(own: seq<Record>, r: Record, rs: seq<Record>)
    requires |own| < |rs| && r == rs[|own|]
    ensures own <= rs ==> own + [r] <= rs
  {
  }

  lemma OwnRecordsMore(g: seq<LockedStream.Entry>, e: LockedStream.Entry, w: nat, rs: seq<Record>)
    requires e.writer == w ==> |RecordsBy(g, w)| < |rs| && RecordIn(e) == rs[|RecordsBy(g, w)|]
    ensures OwnRecords(g, w, rs) ==> OwnRecords(g + [e], w, rs)
  {
    LockedStream.IssuedSnoc(g, e, w);
    RecordsBySnoc(g, e, w);
    if e.writer == w {
      OneMoreRecord(RecordsBy(g, w), RecordIn(e), rs);
    } else {
      assert RecordsBy(g, w) + [] == RecordsBy(g, w);
    }
  }

  lemma OwnHoldMore(g: seq<LockedStream.Entry>, e: LockedStream.Entry, w: nat)
    requires e.writer == w ==> HoldsRecord(e)
    ensures OwnHold(g, w) ==> OwnHold(g + [e], w)
  {
  }

  lemma RecordsBySnoc(g: seq<LockedStream.Entry>, e: LockedStream.Entry, w: nat)
    ensures RecordsBy(g + [e], w) == RecordsBy(g, w) + if e.writer == w then [RecordIn(e)] else []
  {
    assert (g + [e])[..|g|] == g;
  }

  /** What a writer was issued, as records: the first of its own, in order. */
  lemma {:induction false} IssuedRecords(h: seq<LockedStream.Entry>, w: nat, rs: seq<Record>)
    requires AllOk(rs) && LockedStream.Issued(h, w) <= EncodeAll(rs)
    ensures RecordsAgree(h, w, rs)
  {
    if h != [] {
      var g, e := h[..|h| - 1], h[|h| - 1];
      assert h == g + [e];
      LockedStream.IssuedSnoc(g, e, w);
      IssuedRecords(g, w, rs);
      if e.writer == w {
        var k := |LockedStream.Issued(g, w)|;
        assert e.packet == LockedStream.Issued(h, w)[k] == EncodeAll(rs)[k];
        EncodedIsRecord(e, rs[k]);
      }
      OwnRecordsMore(g, e, w, rs);
      OwnHoldMore(g, e, w);
    }
  }

  lemma HistoryIsRecords(h: seq<LockedStream.Entry>)
    requires AllHold(h)
    ensures AllOk(RecordsIn(h)) && LockedStream.Packets(h) == EncodeAll(RecordsIn(h))
  {
    LockedStream.PacketsAt(h);
    var rs, ps := RecordsIn(h), LockedStream.Packets(h);
    forall i | 0 <= i < |rs|
      ensures RecordOk(rs[i]) && ps[i] == Encode(rs[i])
    {
      assert HoldsRecord(h[i]);
    }
  }

  /** Nothing is lost: of each caller's records, those not decoded are the one being written and those
      to come. */
  ghost predicate NoneMissing(s: LockedStream.State, input: seq<seq<Record>>, done: seq<LockedStream.Entry>) {
    && |s.control| == |s.todo| == |input|
    && forall w :: 0 <= w < |input| ==>
        && |RecordsBy(done, w)| + |LockedStream.Unfinished(s.control[w])| + |s.todo[w]| == |input[w]|
        && (s.control[w].Idle? && s.todo[w] == [] ==> RecordsBy(done, w) == input[w])
  }

  /** The file decodes to the records completed so far, whatever part of one more is being written: each
      is some caller's, those of each caller are its own first ones in its own order, and none that
      was completed is missing. */
  ghost predicate FileDecodes(s: LockedStream.State, input: seq<seq<Record>>) {
    var done := s.history[..LockedStream.FirstCut(s.history)];
    && LockedStream.SentWithin(s.history)
    && FileDecodesTo(FILE_HEADER + s.stream, AllAsRead(RecordsIn(done)), LockedStream.PartOfCut(s.history))
    && (forall i :: 0 <= i < |done| ==> done[i].writer < |input|)
    && (forall w :: 0 <= w < |input| ==> RecordsBy(done, w) <= input[w])
    && (s.running ==> NoneMissing(s, input, done))
  }

  lemma RecordsNoneMissing(s: LockedStream.State, input: seq<seq<Record>>, done: seq<LockedStream.Entry>)
    requires forall w :: 0 <= w < |input| ==> AllOk(input[w])
    requires done == s.history[..LockedStream.FirstCut(s.history)]
    requires LockedStream.NothingLost(s, StreamsOf(input), |done|)
    requires forall w :: 0 <= w < |input| ==> RecordsAgree(done, w, input[w])
    ensures NoneMissing(s, input, done)
  {
    forall w | 0 <= w < |input|
      ensures |RecordsBy(done, w)| + |LockedStream.Unfinished(s.control[w])| + |s.todo[w]| == |input[w]|
    {
      assert StreamsOf(input)[w] == EncodeAll(input[w]);
      assert RecordsAgree(done, w, input[w]);
    }
  }

  lemma EntriesHoldRecords(s: LockedStream.State, input: seq<seq<Record>>)
    requires forall w :: 0 <= w < |input| ==> AllOk(input[w])
    requires LockedStream.Inv(s, StreamsOf(input))
    ensures AllHold(s.history)
  {
    forall i | 0 <= i < |s.history|
      ensures HoldsRecord(s.history[i])
    {
      var w := s.history[i].writer;
      assert StreamsOf(input)[w] == EncodeAll(input[w]);
      IssuedRecords(s.history, w, input[w]);
    }
  }

  lemma CutIsNoRecord(h: seq<LockedStream.Entry>)
    requires LockedStream.SentWithin(h) && AllHold(h)
    ensures DecodeOne(LockedStream.PartOfCut(h)) == None
  {
    var c := LockedStream.FirstCut(h);
    if c < |h| {
      DecodePartial(RecordIn(h[c]), h[c].packet[..h[c].sent]);
    }
  }

  /** The records that some holdings wrote, and part of one more, decoded from the file. */
  lemma HistoryDecodes(done: seq<LockedStream.Entry>, part: bytes)
    requires AllHold(done) && DecodeOne(part) == None
    ensures FileDecodesTo(FILE_HEADER + (Concat(LockedStream.Packets(done)) + part), AllAsRead(RecordsIn(done)), part)
  {
    HistoryIsRecords(done);
    DecodeFileRecords(RecordsIn(done), part);
  }

  lemma StateRecordsAgree(s: LockedStream.State, input: seq<seq<Record>>)
    requires forall w :: 0 <= w < |input| ==> AllOk(input[w])
    requires LockedStream.PacketAtomic(s, StreamsOf(input))
    ensures var done := s.history[..LockedStream.FirstCut(s.history)];
            forall w :: 0 <= w < |input| ==> RecordsAgree(done, w, input[w])
  {
    var done := s.history[..LockedStream.FirstCut(s.history)];
    forall w | 0 <= w < |input|
      ensures RecordsAgree(done, w, input[w])
    {
      assert StreamsOf(input)[w] == EncodeAll(input[w]);
      IssuedRecords(done, w, input[w]);
    }
  }

  lemma StateDecodes(s: LockedStream.State, input: seq<seq<Record>>)
    requires forall w :: 0 <= w < |input| ==> AllOk(input[w])
    requires LockedStream.Inv(s, StreamsOf(input))
    ensures FileDecodes(s, input)
  {
    var done := s.history[..LockedStream.FirstCut(s.history)];
    LockedStream.InvIsPacketAtomic(s, StreamsOf(input));
    EntriesHoldRecords(s, input);
    CutIsNoRecord(s.history);
    HistoryDecodes(done, LockedStream.PartOfCut(s.history));
    StateRecordsAgree(s, input);
    if s.running {
      RecordsNoneMissing(s, input, done);
    }
  }

  /** Round trip: for any number of callers, any packets and any interleaving of their field writes
      under the lock, decoding the file recovers exactly the records completed. */
  lemma SnoopRoundTrip(input: seq<seq<Record>>, steps: seq<LockedStream.Step>)
    requires forall w :: 0 <= w < |input| ==> AllOk(input[w])
    requires LockedStream.CanRun(LockedStream.Init(StreamsOf(input)), steps)
    ensures var s := LockedStream.RunSteps(LockedStream.Init(StreamsOf(input)), steps);
            FileDecodes(s, input) && (LockedStream.Stop !in steps ==> s.running)
  {
    LockedStream.OnlyStopStops(LockedStream.Init(StreamsOf(input)), steps);
    LockedStream.InitKeeps(StreamsOf(input));
    LockedStream.RunKeeps(LockedStream.Init(StreamsOf(input)), StreamsOf(input), steps);
    StateDecodes(LockedStream.RunSteps(LockedStream.Init(StreamsOf(input)), steps), input);
  }
}
