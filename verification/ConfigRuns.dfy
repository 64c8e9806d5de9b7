/** Results about whole runs of the configuration state machine. */
module ConfigRuns {
  import opened Bytes
  import opened NvImage
  import opened ConfigMachine

  datatype Input = Input(ev: Event, ans: Answers)

  ghost predicate InputsOk(inputs: seq<Input>) {
    forall i :: i in inputs ==> AnswersOk(i.ans)
  }

  function NvPackets(xs: seq<Xmit>): seq<bytes> {
    if xs == [] then []
    else NvPackets(xs[..|xs| - 1]) + if xs[|xs| - 1].opcode == HCI_CMD_SKW_BT_NVDS then [xs[|xs| - 1].packet] else []
  }

  lemma NvPacketsSnoc(xs: seq<Xmit>, x: Xmit)
    ensures NvPackets(xs + [x]) == NvPackets(xs) + if x.opcode == HCI_CMD_SKW_BT_NVDS then [x.packet] else []
  {
    assert (xs + [x])[..|xs|] == xs;
  }

  predicate NvAccepted(xs: seq<Xmit>) {
    forall i :: 0 <= i < |xs| && xs[i].opcode == HCI_CMD_SKW_BT_NVDS ==> xs[i].accepted
  }

  predicate BlocksFit(bs: seq<bytes>) {
    forall i :: 0 <= i < |bs| ==> |bs[i]| <= BLOCK_SIZE
  }

  /** Upload commands for these blocks, numbered from k modulo 256. */
  function Numbered(bs: seq<bytes>, k: nat): seq<bytes>
    requires BlocksFit(bs)
  {
    if bs == [] then [] else [NvPacket(k % 256, bs[0])] + Numbered(bs[1..], k + 1)
  }

  lemma NumberedCons(b: bytes, bs: seq<bytes>, k: nat)
    requires |b| <= BLOCK_SIZE && BlocksFit(bs)
    ensures BlocksFit([b] + bs) && Numbered([b] + bs, k) == [NvPacket(k % 256, b)] + Numbered(bs, k + 1)
  {
    assert ([b] + bs)[1..] == bs;
  }

  /** The blocks to come when cur is reached after n blocks. */
  function BlocksFrom(file: bytes, cur: nat, n: nat, chip: nat, lap: Lap): seq<bytes>
    requires cur <= |file|
  {
    if chip == CHIPID_6316 then Blocks6316(file, cur, lap) else Blocks6160(file, cur, n, lap)
  }

  lemma {:induction false} BlocksFromFit(file: bytes, cur: nat, n: nat, chip: nat, lap: Lap)
    requires cur <= |file|
    ensures BlocksFit(BlocksFrom(file, cur, n, chip, lap))
    decreases |file| - cur
  {
    if chip == CHIPID_6316 {
      var p := Pack(file, cur, 0, lap);
      if p.params != [] && !p.end && !p.truncated {
        BlocksFromFit(file, p.cur, n, chip, lap);
      }
    } else if |file| - cur >= BLOCK_SIZE {
      BlocksFromFit(file, cur + BLOCK_SIZE, n + 1, chip, lap);
    }
  }

  /** All the upload commands of an image. */
  function ImageCommands(file: bytes, chip: nat, lap: Lap): seq<bytes> {
    CommandsFrom(file, HeaderEnd(file, chip), 0, chip, lap)
  }

  /** The upload commands to come when cur is reached after n of them. */
  function CommandsFrom(file: bytes, cur: nat, n: nat, chip: nat, lap: Lap): seq<bytes>
    requires cur <= |file|
  {
    BlocksFromFit(file, cur, n, chip, lap);
    Numbered(BlocksFrom(file, cur, n, chip, lap), n)
  }

  predicate ImageOk(file: bytes, chip: nat, cur: nat) {
    chip == CHIPID_6316 ==> Uploadable(file, cur)
  }

  /** The whole image was transmitted, in order and without a refusal. */
  predicate WholeImageSent(c: Config, lap: Lap) {
    && NvPackets(c.xmits) == ImageCommands(c.file, c.chip, lap)
    && NvAccepted(c.xmits)
    && ImageOk(c.file, c.chip, HeaderEnd(c.file, c.chip))
  }

  /** What was transmitted and what is to come make up the image. */
  predicate UploadOnTrack(c: Config, lap: Lap) {
    var n := |NvPackets(c.xmits)|;
    && c.open && c.cur <= |c.file|
    && c.fileOffset == n % 256
    && NvPackets(c.xmits) + CommandsFrom(c.file, c.cur, n, c.chip, lap) == ImageCommands(c.file, c.chip, lap)
    && NvAccepted(c.xmits)
    && (ImageOk(c.file, c.chip, c.cur) <==> ImageOk(c.file, c.chip, HeaderEnd(c.file, c.chip)))
  }

  /** The fields the invariant looks at; the buffer bookkeeping is blanked out. */
  function Core(c: Config): Config {
    c.(nextBuffer := 0, handed := [], freedEvents := [])
  }

  predicate Inv(c: Config, lap: Lap) {
    CoreInv(Core(c), lap)
  }

  predicate CoreInv(c: Config, lap: Lap) {
    match c.phase
    case Start => NvPackets(c.xmits) == [] && NvAccepted(c.xmits) && c.reports == []
    case ReadHciVersion => NvPackets(c.xmits) == [] && NvAccepted(c.xmits) && c.reports == []
    case NvSend => UploadOnTrack(c, lap) && c.reports == []
    case WriteBdAddr => WholeImageSent(c, lap) && c.reports == []
    case NvSendCmpl => WholeImageSent(c, lap) && c.reports == []
    case Init => c.reports == [] || c.reports == [false] || (c.reports == [true] && WholeImageSent(c, lap))
  }

  // ----- one upload step -----

  lemma TransmitNv(c: Config, packet: bytes, b: nat, ok: bool)
    ensures var d := Transmit(c, HCI_CMD_SKW_BT_NVDS, packet, b, ok);
            && NvPackets(d.xmits) == NvPackets(c.xmits) + [packet]
            && (NvAccepted(c.xmits) && ok ==> NvAccepted(d.xmits))
  {
    NvPacketsSnoc(c.xmits, Xmit(HCI_CMD_SKW_BT_NVDS, packet, b, ok));
  }

  lemma TransmitOther(c: Config, opcode: nat, packet: bytes, b: nat, ok: bool)
    requires opcode != HCI_CMD_SKW_BT_NVDS
    ensures var d := Transmit(c, opcode, packet, b, ok);
            NvPackets(d.xmits) == NvPackets(c.xmits) && (NvAccepted(c.xmits) ==> NvAccepted(d.xmits))
  {
    NvPacketsSnoc(c.xmits, Xmit(opcode, packet, b, ok));
  }

  lemma Commands6316(c: Config, n: nat, lap: Lap, p: Packed)
    requires c.cur <= |c.file| && c.chip == CHIPID_6316 && p == Pack(c.file, c.cur, 0, lap) && !p.truncated
    ensures CommandsFrom(c.file, c.cur, n, c.chip, lap) ==
            if p.params == [] then []
            else [NvPacket(n % 256, p.params)] + if p.end then [] else CommandsFrom(c.file, p.cur, n + 1, c.chip, lap)
  {
    if p.params != [] {
      var rest := if p.end then [] else Blocks6316(c.file, p.cur, lap);
      BlocksFromFit(c.file, p.cur, n + 1, c.chip, lap);
      NumberedCons(p.params, rest, n);
      assert Blocks6316(c.file, c.cur, lap) == [p.params] + rest;
    }
  }

  lemma Commands6160(c: Config, n: nat, lap: Lap, block: bytes)
    requires c.cur <= |c.file| && c.chip != CHIPID_6316 && block == Block6160(c.file, c.cur, n % 256, lap)
    ensures CommandsFrom(c.file, c.cur, n, c.chip, lap) ==
            [NvPacket(n % 256, block)]
            + if |block| < BLOCK_SIZE then [] else CommandsFrom(c.file, c.cur + |block|, n + 1, c.chip, lap)
  {
    var rest := if |block| < BLOCK_SIZE then [] else Blocks6160(c.file, c.cur + BLOCK_SIZE, n + 1, lap);
    if |block| == BLOCK_SIZE {
      BlocksFromFit(c.file, c.cur + BLOCK_SIZE, n + 1, c.chip, lap);
    }
    NumberedCons(block, rest, n);
    assert Blocks6160(c.file, c.cur, n, lap) == [block] + rest;
  }

  /** The state after a block went out: at the next block, or with the file closed after the last. */
  function AfterBlock(c: Config, packet: bytes, b: nat, next: nat, last: bool): Config {
    var t := Transmit(c.(cur := next), HCI_CMD_SKW_BT_NVDS, packet, b, true).(fileOffset := Bump(c.fileOffset));
    if last then CloseNv(t) else t
  }

  /** One accepted command closer to the end of the image. */
  lemma OneCommandOn(c: Config, lap: Lap, packet: bytes, b: nat, rest: seq<bytes>, xs: seq<Xmit>)
    requires NvPackets(c.xmits) + ([packet] + rest) == ImageCommands(c.file, c.chip, lap) && NvAccepted(c.xmits)
    requires xs == c.xmits + [Xmit(HCI_CMD_SKW_BT_NVDS, packet, b, true)]
    ensures NvPackets(xs) + rest == ImageCommands(c.file, c.chip, lap) && NvAccepted(xs)
    ensures |NvPackets(xs)| == |NvPackets(c.xmits)| + 1
  {
    TransmitNv(c, packet, b, true);
    assert NvPackets(c.xmits) + ([packet] + rest) == NvPackets(xs) + rest;
  }

  lemma NextBlockOnTrack(c: Config, lap: Lap, packet: bytes, b: nat, next: nat)
    requires c.phase.NvSend? && UploadOnTrack(c, lap) && c.reports == [] && next <= |c.file|
    requires var n := |NvPackets(c.xmits)|;
             CommandsFrom(c.file, c.cur, n, c.chip, lap) == [packet] + CommandsFrom(c.file, next, n + 1, c.chip, lap)
    requires ImageOk(c.file, c.chip, next) <==> ImageOk(c.file, c.chip, c.cur)
    ensures Inv(AfterBlock(c, packet, b, next, false), lap)
  {
    var n := |NvPackets(c.xmits)|;
    var d := AfterBlock(c, packet, b, next, false);
    OneCommandOn(c, lap, packet, b, CommandsFrom(c.file, next, n + 1, c.chip, lap), d.xmits);
    BumpCounts(n);
  }

  lemma BumpCounts(n: nat)
    ensures Bump(n % 256) == (n + 1) % 256
  {
  }

  lemma LastBlockCompletes(c: Config, lap: Lap, packet: bytes, b: nat, next: nat)
    requires c.phase.NvSend? && UploadOnTrack(c, lap) && c.reports == []
    requires CommandsFrom(c.file, c.cur, |NvPackets(c.xmits)|, c.chip, lap) == [packet]
    requires ImageOk(c.file, c.chip, c.cur)
    ensures Inv(AfterBlock(c, packet, b, next, true), lap)
  {
    var d := AfterBlock(c, packet, b, next, true);
    assert [packet] + [] == [packet];
    OneCommandOn(c, lap, packet, b, [], d.xmits);
    assert NvPackets(d.xmits) + [] == NvPackets(d.xmits);
    assert WholeImageSent(Core(d), lap);
  }

  lemma AfterBlockOnTrack(c: Config, lap: Lap, packet: bytes, b: nat, next: nat, last: bool)
    requires c.phase.NvSend? && UploadOnTrack(c, lap) && c.reports == [] && next <= |c.file|
    requires var n := |NvPackets(c.xmits)|;
             CommandsFrom(c.file, c.cur, n, c.chip, lap)
             == [packet] + if last then [] else CommandsFrom(c.file, next, n + 1, c.chip, lap)
    requires ImageOk(c.file, c.chip, next) <==> ImageOk(c.file, c.chip, c.cur)
    requires last ==> ImageOk(c.file, c.chip, c.cur)
    ensures Inv(AfterBlock(c, packet, b, next, last), lap)
  {
    if last {
      assert [packet] + [] == [packet];
      LastBlockCompletes(c, lap, packet, b, next);
    } else {
      NextBlockOnTrack(c, lap, packet, b, next);
    }
  }

  lemma BlockSent(c: Config, b: nat, lap: Lap, p: Packed)
    requires c.phase.NvSend? && c.chip == CHIPID_6316 && UploadOnTrack(c, lap) && c.reports == []
    requires p == Pack(c.file, c.cur, 0, lap) && !p.truncated && p.params != []
    ensures Inv(AfterBlock(c, NvPacket(c.fileOffset, p.params), b, p.cur, p.end), lap)
  {
    PackIsFair(c.file, c.cur, 0, lap);
    Commands6316(c, |NvPackets(c.xmits)|, lap, p);
    AfterBlockOnTrack(c, lap, NvPacket(c.fileOffset, p.params), b, p.cur, p.end);
  }

  lemma SentIsAfterBlock(c: Config, b: nat, lap: Lap, p: Packed)
    requires c.cur <= |c.file| && p == Pack(c.file, c.cur, 0, lap) && !p.truncated && p.params != []
    ensures SendNv6316(c, b, true, lap) == AfterBlock(c, NvPacket(c.fileOffset, p.params), b, p.cur, p.end)
  {
  }

  lemma NothingSent(c: Config, b: nat, ok: bool, lap: Lap, p: Packed)
    requires c.phase.NvSend? && c.chip == CHIPID_6316 && UploadOnTrack(c, lap) && c.reports == []
    requires p == Pack(c.file, c.cur, 0, lap) && !p.truncated && p.params == []
    ensures Inv(SendNv6316(c, b, ok, lap), lap)
  {
    PackIsFair(c.file, c.cur, 0, lap);
    Commands6316(c, |NvPackets(c.xmits)|, lap, p);
    PackNothing(c.file, c.cur, lap);
    assert NvPackets(c.xmits) + [] == NvPackets(c.xmits);
  }

  lemma Upload6316KeepsInv(c: Config, b: nat, ok: bool, lap: Lap)
    requires c.phase.NvSend? && c.chip == CHIPID_6316 && UploadOnTrack(c, lap) && c.reports == []
    ensures Inv(SendNv6316(c, b, ok, lap), lap) && Valid(SendNv6316(c, b, ok, lap))
  {
    var p := Pack(c.file, c.cur, 0, lap);
    assert p.truncated ==> p.params != [] && !p.end by {
      PackIsFair(c.file, c.cur, 0, lap);
    }
    if !p.truncated && p.params == [] {
      NothingSent(c, b, ok, lap, p);
    } else if !p.truncated && ok {
      BlockSent(c, b, lap, p);
      SentIsAfterBlock(c, b, lap, p);
    }
  }

  /** A callback that packs nothing, before the end of the file, is stuck at a record that fits no block. */
  lemma PackNothing(file: bytes, cur: nat, lap: Lap)
    requires cur <= |file|
    ensures var p := Pack(file, cur, 0, lap); p.params == [] && !p.end ==> p.cur == cur && !Uploadable(file, cur)
  {
  }

  lemma FixedIsAfterBlock(c: Config, b: nat, lap: Lap, block: bytes)
    requires c.cur <= |c.file| && block == Block6160(c.file, c.cur, c.fileOffset, lap)
    ensures var d := SendNv6160(c, b, true, lap);
            d == AfterBlock(c, NvPacket(c.fileOffset, block), b, c.cur + |block|, |block| < BLOCK_SIZE)
  {
  }

  /** An upload refused gives up. */
  lemma RefusedKeepsInv(c: Config, b: nat, lap: Lap)
    requires c.cur <= |c.file| && c.reports == []
    ensures var d := SendNv6160(c, b, false, lap); Inv(d, lap) && Valid(d)
  {
  }

  lemma AfterBlockValid(c: Config, packet: bytes, b: nat, next: nat, last: bool)
    requires c.open && next <= |c.file|
    ensures Valid(AfterBlock(c, packet, b, next, last))
  {
  }

  lemma Upload6160KeepsInv(c: Config, b: nat, ok: bool, lap: Lap)
    requires c.phase.NvSend? && c.chip != CHIPID_6316 && UploadOnTrack(c, lap) && c.reports == []
    ensures Inv(SendNv6160(c, b, ok, lap), lap) && Valid(SendNv6160(c, b, ok, lap))
  {
    if ok {
      var block := Block6160(c.file, c.cur, c.fileOffset, lap);
      var packet, next, last := NvPacket(c.fileOffset, block), c.cur + |block|, |block| < BLOCK_SIZE;
      Commands6160(c, |NvPackets(c.xmits)|, lap, block);
      AfterBlockOnTrack(c, lap, packet, b, next, last);
      AfterBlockValid(c, packet, b, next, last);
      FixedIsAfterBlock(c, b, lap, block);
    } else {
      RefusedKeepsInv(c, b, lap);
    }
  }

  lemma UploadKeepsInv(c: Config, b: nat, ok: bool, lap: Lap)
    requires c.phase.NvSend? && UploadOnTrack(c, lap) && c.reports == []
    ensures Inv(SendNv(c, b, ok, lap), lap) && Valid(SendNv(c, b, ok, lap))
  {
    if c.chip == CHIPID_6316 {
      Upload6316KeepsInv(c, b, ok, lap);
    } else {
      Upload6160KeepsInv(c, b, ok, lap);
    }
  }

  lemma OpenIsOnTrack(c: Config, chip: nat, file: bytes, lap: Lap)
    requires NvPackets(c.xmits) == [] && NvAccepted(c.xmits)
    ensures UploadOnTrack(OpenNv(c, chip, file), lap)
  {
    var d := OpenNv(c, chip, file);
    assert [] + ImageCommands(file, chip, lap) == ImageCommands(file, chip, lap);
  }

  // ----- every callback -----

  lemma DispatchKeepsInv(c: Config, b: nat, i: Input, lap: Lap)
    requires Valid(c) && Inv(c, lap) && AnswersOk(i.ans)
    ensures var (d, early) := Dispatch(c, b, i.ev, i.ans, lap); Valid(d) && Inv(d, lap)
  {
    match c.phase
    case Start =>
      TransmitOther(c, HCI_READ_LOCAL_VERSION_INFO, Command(HCI_READ_LOCAL_VERSION_INFO, []), b, i.ans.accept);
    case ReadHciVersion =>
      var chip := ChipOf(i.ev.version);
      if NvFile(i.ans, chip).Some? {
        OpenIsOnTrack(c, chip, NvFile(i.ans, chip).value, lap);
        UploadKeepsInv(OpenNv(c, chip, NvFile(i.ans, chip).value), b, i.ans.accept, lap);
      }
    case NvSend => UploadKeepsInv(c, b, i.ans.accept, lap);
    case WriteBdAddr => SendBdAddrKeepsInv(c, b, i.ans, lap);
    case NvSendCmpl =>
    case Init =>
  }

  lemma SendBdAddrKeepsInv(c: Config, b: nat, ans: Answers, lap: Lap)
    requires c.phase.WriteBdAddr? && Inv(c, lap) && AnswersOk(ans)
    ensures Inv(SendBdAddr(c, b, ans), lap) && Valid(SendBdAddr(c, b, ans))
  {
    if ans.apAddr.Some? {
      TransmitOther(c, HCI_CMD_WRITE_BD_ADDR, Command(HCI_CMD_WRITE_BD_ADDR, ans.apAddr.value), b, ans.accept);
    }
  }

  /** What the callback's bookkeeping of buffers touches, the invariant does not look at. */
  lemma SettleKeepsInv(d: Config, early: bool, ev: Event, lap: Lap)
    requires Valid(d) && Inv(d, lap)
    ensures Valid(Settle(d, early, ev)) && Inv(Settle(d, early, ev), lap)
  {
    assert Core(Settle(d, early, ev)) == Core(d);
  }

  lemma FreeingEventKeepsInv(c: Config, ev: Event, lap: Lap)
    requires Valid(c) && Inv(c, lap)
    ensures var d := c.(freedEvents := c.freedEvents + [ev.id]); Valid(d) && Inv(d, lap)
  {
    assert Core(c.(freedEvents := c.freedEvents + [ev.id])) == Core(c);
  }

  lemma CallbackKeepsInv(c: Config, i: Input, lap: Lap)
    requires Valid(c) && Inv(c, lap) && AnswersOk(i.ans)
    ensures Valid(Callback(c, i.ev, i.ans, lap)) && Inv(Callback(c, i.ev, i.ans, lap), lap)
  {
    if i.ev.status != 0 || !i.ans.alloc {
      FreeingEventKeepsInv(c, i.ev, lap);
    } else {
      DispatchKeepsInv(c, c.nextBuffer, i, lap);
      var (d, early) := Dispatch(c, c.nextBuffer, i.ev, i.ans, lap);
      SettleKeepsInv(d, early, i.ev, lap);
    }
  }

  predicate CallbacksValid(c: Config, inputs: seq<Input>, lap: Lap)
    decreases |inputs|
  {
    inputs == [] ||
    (Valid(c) && AnswersOk(inputs[0].ans)
     && CallbacksValid(Callback(c, inputs[0].ev, inputs[0].ans, lap), inputs[1..], lap))
  }

  function Callbacks(c: Config, inputs: seq<Input>, lap: Lap): Config
    requires CallbacksValid(c, inputs, lap)
    decreases |inputs|
  {
    if inputs == [] then c else Callbacks(Callback(c, inputs[0].ev, inputs[0].ans, lap), inputs[1..], lap)
  }

  lemma {:induction false} CallbacksKeepInv(c: Config, inputs: seq<Input>, lap: Lap)
    requires Valid(c) && Inv(c, lap) && InputsOk(inputs)
    ensures CallbacksValid(c, inputs, lap)
    ensures Valid(Callbacks(c, inputs, lap)) && Inv(Callbacks(c, inputs, lap), lap)
    decreases |inputs|
  {
    if inputs != [] {
      CallbackKeepsInv(c, inputs[0], lap);
      CallbacksKeepInv(Callback(c, inputs[0].ev, inputs[0].ans, lap), inputs[1..], lap);
    }
  }

  /** A machine whose record of transmissions and results is empty. */
  predicate Fresh(c: Config) {
    c.xmits == [] && c.handed == [] && c.freedEvents == [] && c.reports == []
  }

  lemma StartKeepsInv(c: Config, alloc: bool, accept: bool, lap: Lap)
    requires Fresh(c)
    ensures var d := ConfigStart(c, alloc, accept); Valid(d) && Inv(d, lap)
  {
    var d := c.(phase := Init, fileOffset := 0, open := false);
    TransmitOther(d.(nextBuffer := d.nextBuffer + 1, phase := Start), HCI_RESET, Command(HCI_RESET, []), d.nextBuffer,
                  accept);
  }

  // ----- where the image comes from -----

  /** The event names the chip, and this is the file found for that chip. */
  predicate Names(i: Input, file: bytes, chip: nat) {
    if i.ev.version == 0x5301 then chip == 0x5301 && i.ans.nv6316 == Some(file)
    else chip == 0x0017 && i.ans.nv6160 == Some(file)
  }

  ghost predicate ImageGiven(file: bytes, chip: nat, inputs: seq<Input>) {
    exists i :: i in inputs && i.ev.status == 0 && Names(i, file, chip)
  }

  /** The image in use, or reported as sent, is one that was given. */
  ghost predicate Sourced(c: Config, seen: seq<Input>) {
    && (c.phase.Start? || c.phase.ReadHciVersion? ==> true !in c.reports)
    && (c.phase.NvSend? || c.phase.WriteBdAddr? || c.phase.NvSendCmpl? || true in c.reports ==>
          ImageGiven(c.file, c.chip, seen))
  }

  lemma ImageStillGiven(file: bytes, chip: nat, seen: seq<Input>, more: seq<Input>)
    ensures ImageGiven(file, chip, seen) ==> ImageGiven(file, chip, seen + more)
  {
    if ImageGiven(file, chip, seen) {
      var i :| i in seen && i.ev.status == 0 && Names(i, file, chip);
      assert i in seen + more;
    }
  }

  /** An upload step keeps the image and reports nothing. */
  lemma SendNvKeepsImage(c: Config, b: nat, ok: bool, lap: Lap)
    requires c.phase.NvSend? && c.cur <= |c.file|
    ensures var d := SendNv(c, b, ok, lap);
            && d.file == c.file && d.chip == c.chip && d.reports == c.reports
            && (d.phase.NvSend? || d.phase.WriteBdAddr? || d.phase.Init?)
  {
  }

  lemma DispatchSourced(c: Config, b: nat, i: Input, lap: Lap, seen: seq<Input>)
    requires Valid(c) && AnswersOk(i.ans) && i.ev.status == 0
    ensures Sourced(c, seen) ==> Sourced(Dispatch(c, b, i.ev, i.ans, lap).0, seen + [i])
  {
    ImageStillGiven(c.file, c.chip, seen, [i]);
    if c.phase.ReadHciVersion? && NvFile(i.ans, ChipOf(i.ev.version)).Some? {
      var chip := ChipOf(i.ev.version);
      assert i in seen + [i];
      SendNvKeepsImage(OpenNv(c, chip, NvFile(i.ans, chip).value), b, i.ans.accept, lap);
    } else if c.phase.NvSend? {
      SendNvKeepsImage(c, b, i.ans.accept, lap);
    }
  }

  lemma CallbackSourced(c: Config, i: Input, lap: Lap, seen: seq<Input>)
    requires Valid(c) && AnswersOk(i.ans)
    ensures Sourced(c, seen) ==> Sourced(Callback(c, i.ev, i.ans, lap), seen + [i])
  {
    if i.ev.status != 0 || !i.ans.alloc {
      ImageStillGiven(c.file, c.chip, seen, [i]);
    } else {
      DispatchSourced(c, c.nextBuffer, i, lap, seen);
    }
  }

  lemma {:induction false} CallbacksSourced(c: Config, inputs: seq<Input>, lap: Lap, seen: seq<Input>)
    requires CallbacksValid(c, inputs, lap) && Sourced(c, seen)
    ensures Sourced(Callbacks(c, inputs, lap), seen + inputs)
    decreases |inputs|
  {
    if inputs == [] {
      assert seen + inputs == seen;
    } else {
      CallbackSourced(c, inputs[0], lap, seen);
      assert seen + [inputs[0]] + inputs[1..] == seen + inputs;
      CallbacksSourced(Callback(c, inputs[0].ev, inputs[0].ans, lap), inputs[1..], lap, seen + [inputs[0]]);
    }
  }

  // ----- a machine that ran before -----

  /** c with its record behind that of base. */
  function Prefixed(base: Config, c: Config): Config {
    c.(xmits := base.xmits + c.xmits, handed := base.handed + c.handed,
       freedEvents := base.freedEvents + c.freedEvents, reports := base.reports + c.reports)
  }

  /** c without its record. */
  function Cleared(c: Config): Config {
    c.(xmits := [], handed := [], freedEvents := [], reports := [])
  }

  /** What the record of d has more than that of c. */
  function Since(c: Config, d: Config): Config
    requires |c.xmits| <= |d.xmits| && |c.handed| <= |d.handed|
    requires |c.freedEvents| <= |d.freedEvents| && |c.reports| <= |d.reports|
  {
    d.(xmits := d.xmits[|c.xmits|..], handed := d.handed[|c.handed|..],
       freedEvents := d.freedEvents[|c.freedEvents|..], reports := d.reports[|c.reports|..])
  }

  predicate Extends(c: Config, d: Config) {
    c.xmits <= d.xmits && c.handed <= d.handed && c.freedEvents <= d.freedEvents && c.reports <= d.reports
  }

  lemma SincePrefixed(base: Config, c: Config)
    ensures Extends(base, Prefixed(base, c)) && Since(base, Prefixed(base, c)) == c
  {
  }

  lemma PrefixedTransmit(base: Config, c: Config, opcode: nat, packet: bytes, b: nat, ok: bool)
    ensures Transmit(Prefixed(base, c), opcode, packet, b, ok) == Prefixed(base, Transmit(c, opcode, packet, b, ok))
  {
    Assoc(base.xmits, c.xmits, [Xmit(opcode, packet, b, ok)]);
    Assoc(base.handed, c.handed, [b]);
  }

  lemma PrefixedInitErr(base: Config, c: Config, b: nat)
    ensures InitErr(Prefixed(base, c), b) == Prefixed(base, InitErr(c, b))
  {
    Assoc(base.handed, c.handed, [b]);
  }

  lemma PrefixedFinish(base: Config, c: Config, b: nat)
    ensures Finish(Prefixed(base, c), b) == Prefixed(base, Finish(c, b))
  {
    Assoc(base.handed, c.handed, [b]);
    Assoc(base.reports, c.reports, [true]);
  }

  lemma PrefixedSend6316(base: Config, c: Config, b: nat, ok: bool, lap: Lap)
    requires c.cur <= |c.file|
    ensures SendNv6316(Prefixed(base, c), b, ok, lap) == Prefixed(base, SendNv6316(c, b, ok, lap))
  {
    var p := Pack(c.file, c.cur, 0, lap);
    var c1 := c.(cur := p.cur);
    PrefixedInitErr(base, c1, b);
    var c2 := if p.truncated then InitErr(c1, b) else c1;
    if p.params != [] {
      var packet := NvPacket(c2.fileOffset, p.params);
      PrefixedTransmit(base, c2, HCI_CMD_SKW_BT_NVDS, packet, b, ok);
      var c3 := Transmit(c2, HCI_CMD_SKW_BT_NVDS, packet, b, ok);
      PrefixedInitErr(base, c3.(fileOffset := Bump(c3.fileOffset)), b);
    }
  }

  lemma PrefixedSend6160(base: Config, c: Config, b: nat, ok: bool, lap: Lap)
    requires c.cur <= |c.file|
    ensures SendNv6160(Prefixed(base, c), b, ok, lap) == Prefixed(base, SendNv6160(c, b, ok, lap))
  {
    var block := Block6160(c.file, c.cur, c.fileOffset, lap);
    PrefixedTransmit(base, c, HCI_CMD_SKW_BT_NVDS, NvPacket(c.fileOffset, block), b, ok);
    var c1 := Transmit(c, HCI_CMD_SKW_BT_NVDS, NvPacket(c.fileOffset, block), b, ok);
    var c2 := c1.(cur := c.cur + |block|, fileOffset := Bump(c.fileOffset));
    PrefixedInitErr(base, if |block| < BLOCK_SIZE then CloseNv(c2) else c2, b);
  }

  lemma PrefixedSendNv(base: Config, c: Config, b: nat, ok: bool, lap: Lap)
    requires c.cur <= |c.file|
    ensures SendNv(Prefixed(base, c), b, ok, lap) == Prefixed(base, SendNv(c, b, ok, lap))
  {
    if c.chip == CHIPID_6316 {
      PrefixedSend6316(base, c, b, ok, lap);
    } else {
      PrefixedSend6160(base, c, b, ok, lap);
    }
  }

  lemma PrefixedDispatch(base: Config, c: Config, b: nat, i: Input, lap: Lap)
    requires Valid(c) && AnswersOk(i.ans)
    ensures var (d, early) := Dispatch(c, b, i.ev, i.ans, lap);
            Dispatch(Prefixed(base, c), b, i.ev, i.ans, lap) == (Prefixed(base, d), early)
  {
    match c.phase
    case Start =>
      PrefixedTransmit(base, c, HCI_READ_LOCAL_VERSION_INFO, Command(HCI_READ_LOCAL_VERSION_INFO, []), b, i.ans.accept);
    case ReadHciVersion =>
      var chip := ChipOf(i.ev.version);
      Assoc(base.reports, c.reports, [false]);
      if NvFile(i.ans, chip).Some? {
        PrefixedSendNv(base, OpenNv(c, chip, NvFile(i.ans, chip).value), b, i.ans.accept, lap);
      }
    case NvSend => PrefixedSendNv(base, c, b, i.ans.accept, lap);
    case WriteBdAddr =>
      PrefixedFinish(base, c, b);
      if i.ans.apAddr.Some? {
        PrefixedTransmit(base, c, HCI_CMD_WRITE_BD_ADDR, Command(HCI_CMD_WRITE_BD_ADDR, i.ans.apAddr.value), b,
                         i.ans.accept);
      }
    case NvSendCmpl => PrefixedFinish(base, c, b);
    case Init =>
  }

  lemma PrefixedFree(base: Config, c: Config, id: nat)
    ensures var d := Prefixed(base, c);
            d.(freedEvents := d.freedEvents + [id]) == Prefixed(base, c.(freedEvents := c.freedEvents + [id]))
  {
    Assoc(base.freedEvents, c.freedEvents, [id]);
  }

  /** What a callback does does not depend on what the machine did before. */
  lemma PrefixedCallback(base: Config, c: Config, i: Input, lap: Lap)
    requires Valid(c) && AnswersOk(i.ans)
    ensures Callback(Prefixed(base, c), i.ev, i.ans, lap) == Prefixed(base, Callback(c, i.ev, i.ans, lap))
  {
    if i.ev.status != 0 || !i.ans.alloc {
      PrefixedFree(base, c, i.ev.id);
    } else {
      PrefixedDispatch(base, c, c.nextBuffer, i, lap);
      var (d, early) := Dispatch(c, c.nextBuffer, i.ev, i.ans, lap);
      PrefixedFree(base, d.(nextBuffer := d.nextBuffer + 1), i.ev.id);
    }
  }

  lemma {:induction false} PrefixedCallbacks(base: Config, c: Config, inputs: seq<Input>, lap: Lap)
    requires CallbacksValid(c, inputs, lap)
    ensures CallbacksValid(Prefixed(base, c), inputs, lap)
    ensures Callbacks(Prefixed(base, c), inputs, lap) == Prefixed(base, Callbacks(c, inputs, lap))
    decreases |inputs|
  {
    if inputs != [] {
      PrefixedCallback(base, c, inputs[0], lap);
      PrefixedCallbacks(base, Callback(c, inputs[0].ev, inputs[0].ans, lap), inputs[1..], lap);
    }
  }

  lemma PrefixedStart(c: Config, alloc: bool, accept: bool)
    ensures ConfigStart(c, alloc, accept) == Prefixed(c, ConfigStart(Cleared(c), alloc, accept))
  {
    assert Prefixed(c, Cleared(c)) == c;
    var d := Cleared(c).(phase := Init, fileOffset := 0, open := false);
    PrefixedTransmit(c, d.(nextBuffer := d.nextBuffer + 1, phase := Start), HCI_RESET, Command(HCI_RESET, []),
                     d.nextBuffer, accept);
  }

  /** A run after any start, told by the same run of a machine without a record. */
  lemma RunSinceStart(c: Config, alloc: bool, accept: bool, inputs: seq<Input>, lap: Lap)
    requires CallbacksValid(ConfigStart(Cleared(c), alloc, accept), inputs, lap)
    ensures CallbacksValid(ConfigStart(c, alloc, accept), inputs, lap)
    ensures var d := Callbacks(ConfigStart(c, alloc, accept), inputs, lap);
            Extends(c, d) && Since(c, d) == Callbacks(ConfigStart(Cleared(c), alloc, accept), inputs, lap)
  {
    var s := ConfigStart(Cleared(c), alloc, accept);
    PrefixedStart(c, alloc, accept);
    PrefixedCallbacks(c, s, inputs, lap);
    SincePrefixed(c, Callbacks(s, inputs, lap));
  }

  // ----- results -----

  /** At most one result, and success only once a whole image that was given was sent. */
  ghost predicate SoundResult(d: Config, inputs: seq<Input>, lap: Lap) {
    && |d.reports| <= 1
    && (true in d.reports ==> WholeImageSent(d, lap) && ImageGiven(d.file, d.chip, inputs))
    && (d.reports != [] ==> d.phase.Init?)
  }

  lemma InvIsSoundResult(d: Config, inputs: seq<Input>, lap: Lap)
    requires Inv(d, lap) && Sourced(d, inputs)
    ensures SoundResult(d, inputs, lap)
  {
  }

  lemma StartSourced(c: Config, alloc: bool, accept: bool)
    requires Fresh(c)
    ensures Sourced(ConfigStart(c, alloc, accept), [])
  {
  }

  lemma SuccessFromFresh(c: Config, alloc: bool, accept: bool, inputs: seq<Input>, lap: Lap)
    requires Fresh(c) && InputsOk(inputs)
    ensures CallbacksValid(ConfigStart(c, alloc, accept), inputs, lap)
    ensures SoundResult(Callbacks(ConfigStart(c, alloc, accept), inputs, lap), inputs, lap)
  {
    var s := ConfigStart(c, alloc, accept);
    StartKeepsInv(c, alloc, accept, lap);
    CallbacksKeepInv(s, inputs, lap);
    StartSourced(c, alloc, accept);
    CallbacksSourced(s, inputs, lap, []);
    assert [] + inputs == inputs;
    InvIsSoundResult(Callbacks(s, inputs, lap), inputs, lap);
  }

  /** After a start, whatever the machine did before, and whatever callbacks come with whatever answers:
      at most one result is reported since; success is reported only once every command of the patched
      image was transmitted, in order and numbered, none of them refused, where the image is a file that
      was found when a callback named its chip; and never for a 6316 image with a truncated or oversized
      record. */
  lemma SuccessMeansWholeImage(c: Config, alloc: bool, accept: bool, inputs: seq<Input>, lap: Lap)
    requires InputsOk(inputs)
    ensures CallbacksValid(ConfigStart(c, alloc, accept), inputs, lap)
    ensures var d := Callbacks(ConfigStart(c, alloc, accept), inputs, lap);
            Extends(c, d) && SoundResult(Since(c, d), inputs, lap)
  {
    SuccessFromFresh(Cleared(c), alloc, accept, inputs, lap);
    RunSinceStart(c, alloc, accept, inputs, lap);
  }

  /** Idle is absorbing: until the next start nothing more is transmitted or reported. */
  lemma {:induction false} InitIsAbsorbing(c: Config, inputs: seq<Input>, lap: Lap)
    requires c.phase.Init? && InputsOk(inputs)
    ensures CallbacksValid(c, inputs, lap)
    ensures var d := Callbacks(c, inputs, lap);
            d.phase.Init? && d.xmits == c.xmits && d.reports == c.reports && d.handed == c.handed
    decreases |inputs|
  {
    if inputs != [] {
      InitIsAbsorbing(Callback(c, inputs[0].ev, inputs[0].ans, lap), inputs[1..], lap);
    }
  }

  /** What an upload step does besides the upload: it transmits at most one command and reports nothing. */
  lemma SendNvTransmitsOnce(c: Config, b: nat, ok: bool, lap: Lap)
    requires c.cur <= |c.file|
    ensures var d := SendNv(c, b, ok, lap);
            && d.reports == c.reports && d.nextBuffer == c.nextBuffer && d.freedEvents == c.freedEvents
            && c.xmits <= d.xmits && |d.xmits| <= |c.xmits| + 1
  {
  }

  /** Each callback transmits at most one command and reports at most one result, never both. */
  lemma OneCommandPerCallback(c: Config, i: Input, lap: Lap)
    requires Valid(c) && AnswersOk(i.ans)
    ensures var d := Callback(c, i.ev, i.ans, lap);
            && c.xmits <= d.xmits && c.reports <= d.reports
            && |d.xmits| + |d.reports| <= |c.xmits| + |c.reports| + 1
  {
    if c.phase.ReadHciVersion? {
      var chip := ChipOf(i.ev.version);
      if NvFile(i.ans, chip).Some? {
        SendNvTransmitsOnce(OpenNv(c, chip, NvFile(i.ans, chip).value), c.nextBuffer, i.ans.accept, lap);
      }
    } else if c.phase.NvSend? {
      SendNvTransmitsOnce(c, c.nextBuffer, i.ans.accept, lap);
    }
  }
}
