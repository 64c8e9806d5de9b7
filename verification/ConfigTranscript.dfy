/**
 The commands of a whole configuration, in order: reset, version request, the image, and the address
 if there is one.
 */
module ConfigTranscript {
  import opened Bytes
  import opened NvImage
  import opened ConfigMachine
  import opened ConfigRuns
  import opened ConfigCompletion

  function Packets(xs: seq<Xmit>): seq<bytes> {
    seq(|xs|, i requires 0 <= i < |xs| => xs[i].packet)
  }

  lemma PacketsSnoc(xs: seq<Xmit>, x: Xmit)
    ensures Packets(xs + [x]) == Packets(xs) + [x.packet]
  {
  }

  const PREAMBLE: seq<bytes> := [Command(HCI_RESET, []), Command(HCI_READ_LOCAL_VERSION_INFO, [])]

  function AddressCommand(a: bytes): bytes
    requires |a| == 6
  {
    Command(HCI_CMD_WRITE_BD_ADDR, a)
  }

  /** Behind front, the command that writes an address some callback was given. */
  ghost predicate EndsWithAddress(ps: seq<bytes>, front: seq<bytes>, seen: seq<Input>) {
    exists i :: i in seen && i.ans.apAddr.Some? && |i.ans.apAddr.value| == 6
                && ps == front + [AddressCommand(i.ans.apAddr.value)]
  }

  /** Nothing behind front, some callback having been given no address. */
  ghost predicate EndsWithout(ps: seq<bytes>, front: seq<bytes>, seen: seq<Input>) {
    ps == front && exists i :: i in seen && i.ans.apAddr == None
  }

  /** What was transmitted so far, in each phase. */
  ghost predicate InOrder(c: Config, seen: seq<Input>) {
    var ps, front := Packets(c.xmits), PREAMBLE + NvPackets(c.xmits);
    && (c.phase.Start? ==> ps == PREAMBLE[..1] && NvPackets(c.xmits) == [] && true !in c.reports)
    && (c.phase.ReadHciVersion? ==> ps == PREAMBLE && NvPackets(c.xmits) == [] && true !in c.reports)
    && (c.phase.NvSend? || c.phase.WriteBdAddr? ==> ps == front && true !in c.reports)
    && (c.phase.NvSendCmpl? ==> EndsWithAddress(ps, front, seen) && true !in c.reports)
    && (true in c.reports ==> EndsWithout(ps, front, seen) || EndsWithAddress(ps, front, seen))
  }

  lemma EndsStill(ps: seq<bytes>, front: seq<bytes>, seen: seq<Input>, i: Input)
    ensures EndsWithAddress(ps, front, seen) ==> EndsWithAddress(ps, front, seen + [i])
    ensures EndsWithout(ps, front, seen) ==> EndsWithout(ps, front, seen + [i])
  {
    assert forall j :: j in seen ==> j in seen + [i];
  }

  lemma SeenMore(c: Config, seen: seq<Input>, i: Input)
    ensures InOrder(c, seen) ==> InOrder(c, seen + [i])
  {
    EndsStill(Packets(c.xmits), PREAMBLE + NvPackets(c.xmits), seen, i);
  }

  lemma SendNvInOrder(c: Config, b: nat, ok: bool, lap: Lap, seen: seq<Input>)
    requires c.phase.NvSend? && c.cur <= |c.file|
    ensures InOrder(c, seen) ==> InOrder(SendNv(c, b, ok, lap), seen)
  {
    var d := SendNv(c, b, ok, lap);
    SendNvKeepsImage(c, b, ok, lap);
    SendNvCases(c, b, ok, lap);
    if d.xmits != c.xmits {
      var x := d.xmits[|c.xmits|];
      assert d.xmits == c.xmits + [x];
      PacketsSnoc(c.xmits, x);
      NvPacketsSnoc(c.xmits, x);
      assert PREAMBLE + NvPackets(c.xmits) + [x.packet] == PREAMBLE + (NvPackets(c.xmits) + [x.packet]);
    }
  }

  lemma TransmitInOrder(c: Config, opcode: nat, packet: bytes, b: nat, ok: bool)
    requires opcode != HCI_CMD_SKW_BT_NVDS
    ensures var d := Transmit(c, opcode, packet, b, ok);
            Packets(d.xmits) == Packets(c.xmits) + [packet] && NvPackets(d.xmits) == NvPackets(c.xmits)
  {
    PacketsSnoc(c.xmits, Xmit(opcode, packet, b, ok));
    NvPacketsSnoc(c.xmits, Xmit(opcode, packet, b, ok));
  }

  lemma OpenInOrder(c: Config, chip: nat, file: bytes, seen: seq<Input>)
    requires c.phase.ReadHciVersion?
    ensures InOrder(c, seen) ==> InOrder(OpenNv(c, chip, file), seen)
  {
    assert PREAMBLE + [] == PREAMBLE;
  }

  lemma AddressInOrder(c: Config, b: nat, i: Input, seen: seq<Input>)
    requires c.phase.WriteBdAddr? && AnswersOk(i.ans) && i in seen
    ensures InOrder(c, seen) ==> InOrder(SendBdAddr(c, b, i.ans), seen)
  {
    if i.ans.apAddr.Some? {
      var a := i.ans.apAddr.value;
      TransmitInOrder(c, HCI_CMD_WRITE_BD_ADDR, AddressCommand(a), b, i.ans.accept);
    }
  }

  lemma StartInOrder(c: Config, i: Input, seen: seq<Input>)
    requires c.phase.Start? && AnswersOk(i.ans)
    ensures InOrder(c, seen) ==> InOrder(Dispatch(c, c.nextBuffer, i.ev, i.ans, Lap(false, 0, 0, 0)).0, seen)
  {
    TransmitInOrder(c, HCI_READ_LOCAL_VERSION_INFO, Command(HCI_READ_LOCAL_VERSION_INFO, []), c.nextBuffer,
                    i.ans.accept);
    assert PREAMBLE[..1] + [Command(HCI_READ_LOCAL_VERSION_INFO, [])] == PREAMBLE;
  }

  lemma DispatchInOrder(c: Config, i: Input, lap: Lap, seen: seq<Input>)
    requires Valid(c) && AnswersOk(i.ans) && i in seen
    ensures InOrder(c, seen) ==> InOrder(Dispatch(c, c.nextBuffer, i.ev, i.ans, lap).0, seen)
  {
    match c.phase
    case Start => StartInOrder(c, i, seen);
    case ReadHciVersion =>
      var chip := ChipOf(i.ev.version);
      if NvFile(i.ans, chip).Some? {
        OpenInOrder(c, chip, NvFile(i.ans, chip).value, seen);
        SendNvInOrder(OpenNv(c, chip, NvFile(i.ans, chip).value), c.nextBuffer, i.ans.accept, lap, seen);
      }
    case NvSend => SendNvInOrder(c, c.nextBuffer, i.ans.accept, lap, seen);
    case WriteBdAddr => AddressInOrder(c, c.nextBuffer, i, seen);
    case NvSendCmpl =>
    case Init =>
  }

  /** The callback's bookkeeping of buffers is not looked at. */
  lemma SettleInOrder(d: Config, early: bool, ev: Event, seen: seq<Input>)
    ensures InOrder(d, seen) ==> InOrder(Settle(d, early, ev), seen)
  {
  }

  lemma CallbackInOrder(c: Config, i: Input, lap: Lap, seen: seq<Input>)
    requires Valid(c) && AnswersOk(i.ans)
    ensures InOrder(c, seen) ==> InOrder(Callback(c, i.ev, i.ans, lap), seen + [i])
  {
    SeenMore(c, seen, i);
    if i.ev.status == 0 && i.ans.alloc {
      assert i in seen + [i];
      DispatchInOrder(c, i, lap, seen + [i]);
      var (d, early) := Dispatch(c, c.nextBuffer, i.ev, i.ans, lap);
      SettleInOrder(d, early, i.ev, seen + [i]);
    }
  }

  lemma {:induction false} RunInOrder(c: Config, inputs: seq<Input>, lap: Lap, seen: seq<Input>)
    requires CallbacksValid(c, inputs, lap) && InOrder(c, seen)
    ensures InOrder(Callbacks(c, inputs, lap), seen + inputs)
    decreases |inputs|
  {
    if inputs == [] {
      assert seen + inputs == seen;
    } else {
      CallbackInOrder(c, inputs[0], lap, seen);
      assert seen + [inputs[0]] + inputs[1..] == seen + inputs;
      RunInOrder(Callback(c, inputs[0].ev, inputs[0].ans, lap), inputs[1..], lap, seen + [inputs[0]]);
    }
  }

  /** A reset, a version request, the commands of this image, and behind them the address, if given. */
  ghost predicate WholeTranscript(ps: seq<bytes>, file: bytes, chip: nat, lap: Lap, inputs: seq<Input>) {
    var whole := PREAMBLE + ImageCommands(file, chip, lap);
    EndsWithout(ps, whole, inputs) || EndsWithAddress(ps, whole, inputs)
  }

  lemma TranscriptFromFresh(c: Config, alloc: bool, accept: bool, inputs: seq<Input>, lap: Lap)
    requires Fresh(c) && InputsOk(inputs)
    ensures CallbacksValid(ConfigStart(c, alloc, accept), inputs, lap)
    ensures var d := Callbacks(ConfigStart(c, alloc, accept), inputs, lap);
            true in d.reports ==>
              WholeTranscript(Packets(d.xmits), d.file, d.chip, lap, inputs) && ImageGiven(d.file, d.chip, inputs)
  {
    var s := ConfigStart(c, alloc, accept);
    SuccessFromFresh(c, alloc, accept, inputs, lap);
    TransmitInOrder(c, HCI_RESET, Command(HCI_RESET, []), c.nextBuffer, accept);
    assert Packets([]) == [] && [] + [Command(HCI_RESET, [])] == PREAMBLE[..1];
    RunInOrder(s, inputs, lap, []);
    assert [] + inputs == inputs;
  }

  /** In every run that ends in success the commands transmitted since the start are exactly a reset, a
      version request, the commands of a whole image that was found when a callback named its chip, and
      a command that writes an address some callback was given, or none if some callback was given none. */
  lemma SuccessTranscript(c: Config, alloc: bool, accept: bool, inputs: seq<Input>, lap: Lap)
    requires InputsOk(inputs)
    ensures CallbacksValid(ConfigStart(c, alloc, accept), inputs, lap)
    ensures var d := Callbacks(ConfigStart(c, alloc, accept), inputs, lap);
            Extends(c, d) &&
            var e := Since(c, d);
            true in e.reports ==>
              WholeTranscript(Packets(e.xmits), e.file, e.chip, lap, inputs) && ImageGiven(e.file, e.chip, inputs)
  {
    TranscriptFromFresh(Cleared(c), alloc, accept, inputs, lap);
    RunSinceStart(c, alloc, accept, inputs, lap);
  }

  /** The commands of a run with this image, version and address. */
  function GoodTranscript(file: bytes, version: nat, ap: Option<bytes>, lap: Lap): seq<bytes>
    requires ap.Some? ==> |ap.value| == 6
  {
    PREAMBLE + ImageCommands(file, ChipOf(version), lap) + if ap.Some? then [AddressCommand(ap.value)] else []
  }

  /** When the same image and address are given throughout, the commands of a successful run are determined. */
  lemma GoodRunTranscript(c: Config, k: nat, file: bytes, version: nat, ap: Option<bytes>, lap: Lap)
    requires SucceedsSince(c, k, file, version, ap, lap) && (ap.Some? ==> |ap.value| == 6)
    ensures var d := Callbacks(ConfigStart(c, true, true), GoodInputs(k, file, version, ap), lap);
            Packets(Since(c, d).xmits) == GoodTranscript(file, version, ap, lap)
  {
    var inputs := GoodInputs(k, file, version, ap);
    assert forall i :: i in inputs ==> i == GoodInput(file, version, ap);
    SuccessTranscript(c, true, true, inputs, lap);
    var front := PREAMBLE + ImageCommands(file, ChipOf(version), lap);
    assert front + [] == front;
  }
}
