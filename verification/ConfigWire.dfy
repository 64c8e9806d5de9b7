/**
 The configuration as bytes on the wire: every command transmitted, and the image that the upload
 commands of a successful run carry.
 */
module ConfigWire {
  import opened Bytes
  import opened NvImage
  import opened NvRecords
  import opened ConfigMachine
  import opened ConfigRuns
  import opened ConfigTranscript

  // ----- upload commands -----

  /** Upload command number k: opcode FC80, length, block number, block length, and up to 252 bytes. */
  predicate IsUpload(p: bytes, k: nat) {
    && 5 <= |p| <= 257
    && p[0] == 0x80 && p[1] == 0xFC && p[2] == |p| - 3
    && p[3] == k % 256 && p[4] == |p| - 5
  }

  predicate AreUploads(ps: seq<bytes>, k: nat) {
    forall i :: 0 <= i < |ps| ==> IsUpload(ps[i], k + i)
  }

  function Payloads(ps: seq<bytes>): seq<bytes> {
    seq(|ps|, i requires 0 <= i < |ps| => if |ps[i]| >= 5 then ps[i][5..] else [])
  }

  /** These are numbered upload commands, and they carry out. */
  predicate Carry(ps: seq<bytes>, out: bytes) {
    AreUploads(ps, 0) && Concat(Payloads(ps)) == out
  }

  lemma PacketOnWire(k: nat, block: bytes)
    requires |block| <= BLOCK_SIZE
    ensures IsUpload(NvPacket(k % 256, block), k) && NvPacket(k % 256, block)[5..] == block
  {
  }

  lemma {:induction false} NumberedOnWire(bs: seq<bytes>, k: nat)
    requires BlocksFit(bs)
    ensures AreUploads(Numbered(bs, k), k) && Payloads(Numbered(bs, k)) == bs
  {
    if bs != [] {
      var p, ps := NvPacket(k % 256, bs[0]), Numbered(bs[1..], k + 1);
      PacketOnWire(k, bs[0]);
      NumberedOnWire(bs[1..], k + 1);
      assert Numbered(bs, k) == [p] + ps;
      forall i | 0 <= i < |[p] + ps| ensures IsUpload(([p] + ps)[i], k + i) && Payloads([p] + ps)[i] == bs[i] {
        if i > 0 {
          assert ([p] + ps)[i] == ps[i - 1] && IsUpload(ps[i - 1], k + 1 + (i - 1));
          assert Payloads(ps)[i - 1] == bs[1..][i - 1];
        }
      }
    }
  }

  lemma CommandsCarryImage(file: bytes, chip: nat, lap: Lap)
    ensures Carry(ImageCommands(file, chip, lap), Concat(BlocksFrom(file, HeaderEnd(file, chip), 0, chip, lap)))
  {
    BlocksFromFit(file, HeaderEnd(file, chip), 0, chip, lap);
    NumberedOnWire(BlocksFrom(file, HeaderEnd(file, chip), 0, chip, lap), 0);
  }

  // ----- images -----

  /** Upload commands for a 6160 file: each of its bytes, the first 64519 of them as they are meant, the
      others with the patches of a block number that has wrapped. */
  ghost predicate Carry6160(ps: seq<bytes>, file: bytes, lap: Lap) {
    exists out :: Carry(ps, out) && |ps| == |file| / 252 + 1 && IsPatched(out, file, lap)
  }

  ghost predicate IsPatched(out: bytes, file: bytes, lap: Lap) {
    && |out| == |file|
    && forall i :: 0 <= i < |file| ==>
        out[i] == if lap.valid && i % 64512 == 7 then lap.b0
                  else if lap.valid && i % 64512 == 8 then lap.b1
                  else if lap.valid && i % 64512 == 9 then lap.b2
                  else if i % 64512 == 314 && file[i] < 0x80 then file[i] + 0x80
                  else file[i]
  }

  /** Upload commands for a 6316 file: behind its four header bytes it is made of records, and they are
      sent with the values that are meant, whole and in order. */
  ghost predicate Carry6316(ps: seq<bytes>, file: bytes, lap: Lap) {
    exists rs: seq<Tlv>, tail: bytes, ws: seq<Tlv>
      {:trigger IsImage(file, Front(file), rs, tail), Meant(rs, lap, ws)} ::
      && Fit(rs) && IsImage(file, Front(file), rs, tail)
      && Meant(rs, lap, ws) && Fit(ws) && Carry(ps, Concat(NvRecords.EncodeAll(ws)))
  }

  function Front(file: bytes): bytes {
    if |file| < 4 then file else file[..4]
  }

  lemma PlaceOf(i: nat)
    ensures i / 252 % 256 == i % 64512 / 252 && i % 252 == i % 64512 % 252
  {
    var q, r := i / 64512, i % 64512;
    assert i == 64512 * q + r;
    assert i / 252 == 256 * q + r / 252 && i % 252 == r % 252;
    assert r / 252 < 256;
  }

  lemma PatchedByte(file: bytes, i: nat, lap: Lap)
    requires i < |file|
    ensures Patched6160(file, i, lap) ==
            if lap.valid && i % 64512 == 7 then lap.b0
            else if lap.valid && i % 64512 == 8 then lap.b1
            else if lap.valid && i % 64512 == 9 then lap.b2
            else if i % 64512 == 314 && file[i] < 0x80 then file[i] + 0x80
            else file[i]
  {
    PlaceOf(i);
    var r := i % 64512;
    assert r == 252 * (r / 252) + r % 252;
  }

  lemma Image6160OnWire(file: bytes, chip: nat, lap: Lap)
    requires chip != 0x5301
    ensures Carry6160(ImageCommands(file, chip, lap), file, lap)
  {
    CommandsCarryImage(file, chip, lap);
    var bs := Blocks6160(file, 0, 0, lap);
    var out := Concat(bs);
    Blocks6160From(file, 0, lap);
    BlocksFromFit(file, 0, 0, chip, lap);
    NumberedOnWire(bs, 0);
    forall i | 0 <= i < |file| ensures out[i] == Patched6160(file, i, lap) {
      assert out[i] == Patched6160(file, 0 + i, lap);
    }
    forall i | 0 <= i < |file|
      ensures out[i] == if lap.valid && i % 64512 == 7 then lap.b0
                        else if lap.valid && i % 64512 == 8 then lap.b1
                        else if lap.valid && i % 64512 == 9 then lap.b2
                        else if i % 64512 == 314 && file[i] < 0x80 then file[i] + 0x80
                        else file[i]
    {
      PatchedByte(file, i, lap);
    }
    assert |Payloads(ImageCommands(file, chip, lap))| == |bs|;
    assert Carry(ImageCommands(file, chip, lap), out) && IsPatched(out, file, lap);
  }

  lemma Image6316OnWire(file: bytes, lap: Lap)
    requires Uploadable(file, HeaderEnd(file, 0x5301))
    ensures Carry6316(ImageCommands(file, 0x5301, lap), file, lap)
  {
    var cur := HeaderEnd(file, 0x5301);
    assert file[..|file|] == file && file[..cur] == Front(file);
    CommandsCarryImage(file, 0x5301, lap);
    var rs, tail := ImageOfRecords(file, cur);
    RecordsOfImage(file, file[..cur], rs, tail);
    Upload6316PreservesImage(file, cur, lap);
    var ws := PatchedAreMeant(rs, lap);
    assert IsImage(file, Front(file), rs, tail) && Meant(rs, lap, ws);
  }

  // ----- a successful run -----

  /** What a successful run sent: reset, version request, upload commands carrying the whole image that was
      found for the chip an event named, and the command writing an address that was given, if one was. */
  ghost predicate SentOnWire(c: Config, inputs: seq<Input>, lap: Lap) {
    var all, ps := ConfigTranscript.Packets(c.xmits), NvPackets(c.xmits);
    var front := [[0x03, 0x0C, 0x00], [0x01, 0x10, 0x00]] + ps;
    && ((all == front && exists i :: i in inputs && i.ans.apAddr == None)
        || exists i :: i in inputs && i.ans.apAddr.Some? && |i.ans.apAddr.value| == 6
                       && all == front + [[0x82, 0xFC, 0x06] + i.ans.apAddr.value])
    && ImageGiven(c.file, c.chip, inputs)
    && (if c.chip == 0x5301 then Carry6316(ps, c.file, lap) else Carry6160(ps, c.file, lap))
  }

  lemma FixedCommandsOnWire()
    ensures PREAMBLE == [[0x03, 0x0C, 0x00], [0x01, 0x10, 0x00]]
  {
    assert Command(HCI_RESET, []) == [0x03, 0x0C, 0x00];
    assert Command(HCI_READ_LOCAL_VERSION_INFO, []) == [0x01, 0x10, 0x00];
  }

  lemma AddressOnWire(a: bytes)
    requires |a| == 6
    ensures AddressCommand(a) == [0x82, 0xFC, 0x06] + a
  {
  }

  lemma TranscriptOnWire(c: Config, inputs: seq<Input>, lap: Lap)
    requires WholeTranscript(ConfigTranscript.Packets(c.xmits), c.file, c.chip, lap, inputs)
    requires WholeImageSent(c, lap) && ImageGiven(c.file, c.chip, inputs)
    ensures SentOnWire(c, inputs, lap)
  {
    FixedCommandsOnWire();
    forall i | i in inputs && i.ans.apAddr.Some? && |i.ans.apAddr.value| == 6
      ensures AddressCommand(i.ans.apAddr.value) == [0x82, 0xFC, 0x06] + i.ans.apAddr.value
    {
      AddressOnWire(i.ans.apAddr.value);
    }
    if c.chip == 0x5301 {
      Image6316OnWire(c.file, lap);
    } else {
      Image6160OnWire(c.file, c.chip, lap);
    }
  }

  /** Whatever the machine did before, and whatever callbacks come with whatever answers. */
  lemma SuccessOnWire(c: Config, alloc: bool, accept: bool, inputs: seq<Input>, lap: Lap)
    requires InputsOk(inputs)
    ensures CallbacksValid(ConfigStart(c, alloc, accept), inputs, lap)
    ensures var d := Callbacks(ConfigStart(c, alloc, accept), inputs, lap);
            Extends(c, d) && (true in Since(c, d).reports ==> SentOnWire(Since(c, d), inputs, lap))
  {
    SuccessMeansWholeImage(c, alloc, accept, inputs, lap);
    SuccessTranscript(c, alloc, accept, inputs, lap);
    var e := Since(c, Callbacks(ConfigStart(c, alloc, accept), inputs, lap));
    if true in e.reports {
      TranscriptOnWire(e, inputs, lap);
    }
  }

  // ----- every command -----

  /** A command packet: the opcode it was transmitted under, low byte first, and the number of bytes
      behind the header. */
  predicate IsCommand(x: Xmit) {
    && 3 <= |x.packet| < 259 && x.opcode < 0x1_0000
    && x.packet[0] == x.opcode % 256 && x.packet[1] == x.opcode / 256 && x.packet[2] == |x.packet| - 3
  }

  ghost predicate AllCommands(xs: seq<Xmit>) {
    forall x :: x in xs ==> IsCommand(x)
  }

  lemma OneMoreCommand(xs: seq<Xmit>, opcode: nat, params: bytes, b: nat, ok: bool)
    requires opcode < 0x1_0000 && |params| < 256
    ensures AllCommands(xs) ==> AllCommands(xs + [Xmit(opcode, Command(opcode, params), b, ok)])
  {
    assert IsCommand(Xmit(opcode, Command(opcode, params), b, ok));
  }

  lemma SendNvCommands(c: Config, b: nat, ok: bool, lap: Lap)
    requires c.cur <= |c.file|
    ensures AllCommands(c.xmits) ==> AllCommands(SendNv(c, b, ok, lap).xmits)
  {
    if c.chip == CHIPID_6316 {
      var p := Pack(c.file, c.cur, 0, lap);
      OneMoreCommand(c.xmits, HCI_CMD_SKW_BT_NVDS, [c.fileOffset, |p.params|] + p.params, b, ok);
    } else {
      var block := Block6160(c.file, c.cur, c.fileOffset, lap);
      OneMoreCommand(c.xmits, HCI_CMD_SKW_BT_NVDS, [c.fileOffset, |block|] + block, b, ok);
    }
  }

  lemma CallbackCommands(c: Config, i: Input, lap: Lap)
    requires Valid(c) && AnswersOk(i.ans)
    ensures AllCommands(c.xmits) ==> AllCommands(Callback(c, i.ev, i.ans, lap).xmits)
  {
    var b, ok := c.nextBuffer, i.ans.accept;
    match c.phase
    case Start => OneMoreCommand(c.xmits, HCI_READ_LOCAL_VERSION_INFO, [], b, ok);
    case ReadHciVersion =>
      var chip := ChipOf(i.ev.version);
      if NvFile(i.ans, chip).Some? {
        SendNvCommands(OpenNv(c, chip, NvFile(i.ans, chip).value), b, ok, lap);
      }
    case NvSend => SendNvCommands(c, b, ok, lap);
    case WriteBdAddr =>
      if i.ans.apAddr.Some? {
        OneMoreCommand(c.xmits, HCI_CMD_WRITE_BD_ADDR, i.ans.apAddr.value, b, ok);
      }
    case NvSendCmpl =>
    case Init =>
  }

  /** In every run, successful or not, everything transmitted is a command packet under its own opcode. */
  lemma {:induction false} RunCommands(c: Config, inputs: seq<Input>, lap: Lap)
    requires CallbacksValid(c, inputs, lap) && AllCommands(c.xmits)
    ensures AllCommands(Callbacks(c, inputs, lap).xmits)
    decreases |inputs|
  {
    if inputs != [] {
      CallbackCommands(c, inputs[0], lap);
      RunCommands(Callback(c, inputs[0].ev, inputs[0].ans, lap), inputs[1..], lap);
    }
  }

  lemma StartCommands(c: Config, alloc: bool, accept: bool)
    ensures AllCommands(c.xmits) ==> AllCommands(ConfigStart(c, alloc, accept).xmits)
  {
    OneMoreCommand(c.xmits, HCI_RESET, [], c.nextBuffer, accept);
  }

  // ----- errors and missing files -----

  /** The inputs whose event reports no error and for which a buffer is had. */
  function Heard(inputs: seq<Input>): seq<Input> {
    if inputs == [] then []
    else (if inputs[0].ev.status == 0 && inputs[0].ans.alloc then [inputs[0]] else []) + Heard(inputs[1..])
  }

  /** Equal but for the event buffers freed. */
  predicate SameButFreed(c: Config, d: Config) {
    c.(freedEvents := []) == d.(freedEvents := [])
  }

  lemma CallbackSameButFreed(c: Config, d: Config, i: Input, lap: Lap)
    requires SameButFreed(c, d) && Valid(c) && AnswersOk(i.ans)
    ensures Valid(d) && SameButFreed(Callback(c, i.ev, i.ans, lap), Callback(d, i.ev, i.ans, lap))
  {
    FreedNotSeen(c, i, lap);
    FreedNotSeen(d, i, lap);
  }

  /** A callback does not look at the event buffers freed before. */
  lemma FreedNotSeen(c: Config, i: Input, lap: Lap)
    requires Valid(c) && AnswersOk(i.ans)
    ensures var u := c.(freedEvents := []);
            SameButFreed(Callback(u, i.ev, i.ans, lap), Callback(c, i.ev, i.ans, lap))
  {
    var u := c.(freedEvents := []);
    var base := c.(xmits := [], handed := [], reports := []);
    assert Prefixed(base, u) == c by {
      assert [] + c.xmits == c.xmits && [] + c.handed == c.handed && [] + c.reports == c.reports;
      assert c.freedEvents + [] == c.freedEvents;
    }
    PrefixedCallback(base, u, i, lap);
    var v := Callback(u, i.ev, i.ans, lap);
    assert [] + v.xmits == v.xmits && [] + v.handed == v.handed && [] + v.reports == v.reports;
  }

  /** A callback with an error event, or without a buffer, does nothing but free its event: a run goes
      as if it had not come. */
  lemma {:induction false} ErrorsAreIgnored(c: Config, d: Config, inputs: seq<Input>, lap: Lap)
    requires SameButFreed(c, d) && CallbacksValid(c, inputs, lap)
    ensures CallbacksValid(d, Heard(inputs), lap)
    ensures SameButFreed(Callbacks(c, inputs, lap), Callbacks(d, Heard(inputs), lap))
    decreases |inputs|
  {
    if inputs != [] {
      var i := inputs[0];
      if i.ev.status == 0 && i.ans.alloc {
        CallbackSameButFreed(c, d, i, lap);
        ErrorsAreIgnored(Callback(c, i.ev, i.ans, lap), Callback(d, i.ev, i.ans, lap), inputs[1..], lap);
        assert ([i] + Heard(inputs[1..]))[1..] == Heard(inputs[1..]);
      } else {
        assert Heard(inputs) == Heard(inputs[1..]);
        ErrorsAreIgnored(Callback(c, i.ev, i.ans, lap), d, inputs[1..], lap);
      }
    }
  }

  /** The version event names a chip for which no file is found. */
  predicate NamesMissing(i: Input) {
    i.ev.status == 0 && i.ans.alloc && if i.ev.version == 0x5301 then i.ans.nv6316 == None else i.ans.nv6160 == None
  }

  /** Failure is reported by exactly those callbacks that wait for the version and find no file, and they
      alone do not free their event buffer. */
  lemma FailureExactly(c: Config, i: Input, lap: Lap)
    requires Valid(c) && AnswersOk(i.ans)
    ensures var d := Callback(c, i.ev, i.ans, lap);
            var fails := c.phase.ReadHciVersion? && NamesMissing(i);
            && (d.reports == c.reports + [false] <==> fails)
            && d.freedEvents == c.freedEvents + if fails then [] else [i.ev.id]
  {
    if c.phase.ReadHciVersion? && NvFile(i.ans, ChipOf(i.ev.version)).Some? {
      var chip := ChipOf(i.ev.version);
      SendNvKeepsImage(OpenNv(c, chip, NvFile(i.ans, chip).value), c.nextBuffer, i.ans.accept, lap);
    } else if c.phase.NvSend? {
      SendNvKeepsImage(c, c.nextBuffer, i.ans.accept, lap);
    }
    assert c.reports + [true] != c.reports + [false] by {
      assert (c.reports + [true])[|c.reports|] != (c.reports + [false])[|c.reports|];
    }
  }

  /** What an upload step sends, or nothing. */
  function UploadBytes(c: Config, lap: Lap): Option<bytes>
    requires c.cur <= |c.file|
  {
    if c.chip != CHIPID_6316 then Some(Block6160(c.file, c.cur, c.fileOffset, lap))
    else if Pack(c.file, c.cur, 0, lap).params == [] then None
    else Some(Pack(c.file, c.cur, 0, lap).params)
  }

  predicate BreaksOff(c: Config, lap: Lap)
    requires c.cur <= |c.file|
  {
    c.chip == CHIPID_6316 && Pack(c.file, c.cur, 0, lap).truncated
  }

  /** An upload gives up exactly if its command is refused or its file breaks off inside a record; the
      command buffer goes to the transmit callback if there is something to send, and is freed once for
      each reason to give up, and then the file is closed. */
  lemma GivesUpExactly(c: Config, b: nat, ok: bool, lap: Lap)
    requires c.phase.NvSend? && c.cur <= |c.file|
    ensures var d, sent := SendNv(c, b, ok, lap), UploadBytes(c, lap).Some?;
            var refused, broken := sent && !ok, BreaksOff(c, lap);
            && (d.phase.Init? <==> refused || broken)
            && (d.phase.Init? ==> !d.open)
            && d.handed == c.handed + (if broken then [b] else []) + (if sent then [b] else [])
                                    + (if refused then [b] else [])
  {
    PackIsFair(c.file, c.cur, 0, lap);
  }

  /** Without a buffer a start sends nothing, and no callback does after it. */
  lemma StartNeedsBuffer(c: Config, accept: bool, inputs: seq<Input>, lap: Lap)
    requires InputsOk(inputs)
    ensures CallbacksValid(ConfigStart(c, false, accept), inputs, lap)
    ensures var d := Callbacks(ConfigStart(c, false, accept), inputs, lap);
            d.xmits == c.xmits && d.reports == c.reports && d.handed == c.handed && !d.open
  {
    InitIsAbsorbing(ConfigStart(c, false, accept), inputs, lap);
    StaysClosed(ConfigStart(c, false, accept), inputs, lap);
  }

  lemma {:induction false} StaysClosed(c: Config, inputs: seq<Input>, lap: Lap)
    requires c.phase.Init? && !c.open && CallbacksValid(c, inputs, lap)
    ensures !Callbacks(c, inputs, lap).open
    decreases |inputs|
  {
    if inputs != [] {
      StaysClosed(Callback(c, inputs[0].ev, inputs[0].ans, lap), inputs[1..], lap);
    }
  }
}
