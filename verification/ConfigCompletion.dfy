/**
 Runs in which a callback comes only in answer to a command that was accepted: what becomes of the
 buffers, and exactly which 6316 images such a run configures the controller with.
 */
module ConfigCompletion {
  import opened Bytes
  import opened NvImage
  import opened ConfigMachine
  import opened ConfigRuns

  function AcceptedCount(xs: seq<Xmit>): nat {
    if xs == [] then 0 else AcceptedCount(xs[..|xs| - 1]) + if xs[|xs| - 1].accepted then 1 else 0
  }

  lemma AcceptedSnoc(xs: seq<Xmit>, x: Xmit)
    ensures AcceptedCount(xs + [x]) == AcceptedCount(xs) + if x.accepted then 1 else 0
  {
    assert (xs + [x])[..|xs|] == xs;
  }

  /** Commands accepted that no callback has answered yet, after one callback more. */
  function Unanswered(out: nat, c: Config, d: Config): int {
    out - 1 + AcceptedCount(d.xmits) - AcceptedCount(c.xmits)
  }

  /** Every callback answers an accepted command; out of them are unanswered at the start. */
  predicate Answered(c: Config, inputs: seq<Input>, lap: Lap, out: int)
    decreases |inputs|
  {
    inputs == [] ||
    (out >= 1 && Valid(c) && AnswersOk(inputs[0].ans) &&
     var d := Callback(c, inputs[0].ev, inputs[0].ans, lap);
     Answered(d, inputs[1..], lap, Unanswered(out, c, d)))
  }

  lemma {:induction false} AnsweredIsValid(c: Config, inputs: seq<Input>, lap: Lap, out: int)
    requires Answered(c, inputs, lap, out)
    ensures CallbacksValid(c, inputs, lap)
    decreases |inputs|
  {
    if inputs != [] {
      var d := Callback(c, inputs[0].ev, inputs[0].ans, lap);
      AnsweredIsValid(d, inputs[1..], lap, Unanswered(out, c, d));
    }
  }

  // ----- buffers -----

  /** The buffers allocated from first on, before n. */
  function Range(first: nat, n: nat): seq<nat> {
    if first <= n then seq(n - first, i requires 0 <= i < n - first => first + i) else []
  }

  lemma RangeSnoc(first: nat, n: nat)
    requires first <= n
    ensures Range(first, n) + [n] == Range(first, n + 1)
  {
  }

  /** Each command buffer allocated from first on was handed to the transmit callback or freed, once. */
  predicate Owned(c: Config, first: nat) {
    first <= c.nextBuffer && c.handed == Range(first, c.nextBuffer)
  }

  predicate Uploading(p: Phase) {
    p.WriteBdAddr? || p.NvSendCmpl?
  }

  /** While a command is unanswered and the machine is not idle, all buffers are accounted for; once
      nothing is unanswered nothing more will happen. */
  predicate Accounted(c: Config, first: nat, out: int, events: seq<nat>) {
    && 0 <= out <= 1
    && (!c.phase.Init? && out == 1 ==>
          Owned(c, first) && c.freedEvents == events && (Uploading(c.phase) ==> NvPackets(c.xmits) != []))
    && (true in c.reports ==>
          c.phase.Init? && out == 0 && Owned(c, first) && c.freedEvents == events && NvPackets(c.xmits) != [])
  }

  /** The three ways an upload step ends: idle, nothing transmitted, or one block accepted. */
  lemma SendNvCases(c: Config, b: nat, ok: bool, lap: Lap)
    requires c.phase.NvSend? && c.cur <= |c.file|
    ensures var d := SendNv(c, b, ok, lap);
            || (d.phase.Init? && exists p, a :: d.xmits == c.xmits + [Xmit(HCI_CMD_SKW_BT_NVDS, p, b, a)])
            || (d.xmits == c.xmits && d.handed == c.handed)
            || (!d.phase.Init? && d.handed == c.handed + [b]
                && exists p :: d.xmits == c.xmits + [Xmit(HCI_CMD_SKW_BT_NVDS, p, b, true)])
    ensures var d := SendNv(c, b, ok, lap);
            d.reports == c.reports && d.nextBuffer == c.nextBuffer && d.freedEvents == c.freedEvents
  {
    if c.chip == CHIPID_6316 {
      var p := Pack(c.file, c.cur, 0, lap);
      PackIsFair(c.file, c.cur, 0, lap);
      if p.params != [] {
        var x := Xmit(HCI_CMD_SKW_BT_NVDS, NvPacket(c.fileOffset, p.params), b, ok);
        assert SendNv(c, b, ok, lap).xmits == c.xmits + [x];
      }
    } else {
      var block := Block6160(c.file, c.cur, c.fileOffset, lap);
      var x := Xmit(HCI_CMD_SKW_BT_NVDS, NvPacket(c.fileOffset, block), b, ok);
      assert SendNv(c, b, ok, lap).xmits == c.xmits + [x];
    }
  }

  lemma SendNvAccounted(c: Config, first: nat, ok: bool, lap: Lap, ev: Event, events: seq<nat>)
    requires c.phase.NvSend? && c.cur <= |c.file| && Owned(c, first) && c.freedEvents == events && true !in c.reports
    ensures var d := SendNv(c, c.nextBuffer, ok, lap);
            Accounted(Settle(d, false, ev), first, AcceptedCount(d.xmits) - AcceptedCount(c.xmits), events + [ev.id])
  {
    var b := c.nextBuffer;
    var d := SendNv(c, b, ok, lap);
    SendNvCases(c, b, ok, lap);
    if d.xmits != c.xmits {
      var x := d.xmits[|c.xmits|];
      assert d.xmits == c.xmits + [x];
      AcceptedSnoc(c.xmits, x);
      NvPacketsSnoc(c.xmits, x);
    }
    RangeSnoc(first, b);
  }

  lemma TransmitAccounted(c: Config, first: nat, opcode: nat, packet: bytes, ok: bool, next: Phase, ev: Event,
                          events: seq<nat>)
    requires Owned(c, first) && c.freedEvents == events && true !in c.reports
    requires Uploading(next) ==> NvPackets(c.xmits) != []
    ensures var d := Transmit(c, opcode, packet, c.nextBuffer, ok).(phase := next);
            Accounted(Settle(d, false, ev), first, AcceptedCount(d.xmits) - AcceptedCount(c.xmits), events + [ev.id])
  {
    var b := c.nextBuffer;
    AcceptedSnoc(c.xmits, Xmit(opcode, packet, b, ok));
    NvPacketsSnoc(c.xmits, Xmit(opcode, packet, b, ok));
    RangeSnoc(first, b);
  }

  lemma DispatchAccounted(c: Config, first: nat, i: Input, lap: Lap, events: seq<nat>)
    requires Valid(c) && AnswersOk(i.ans) && Accounted(c, first, 1, events)
    ensures var (d, early) := Dispatch(c, c.nextBuffer, i.ev, i.ans, lap);
            Accounted(Settle(d, early, i.ev), first, AcceptedCount(d.xmits) - AcceptedCount(c.xmits),
                      events + [i.ev.id])
  {
    match c.phase
    case Start =>
      TransmitAccounted(c, first, HCI_READ_LOCAL_VERSION_INFO, Command(HCI_READ_LOCAL_VERSION_INFO, []), i.ans.accept,
                        ReadHciVersion, i.ev, events);
    case ReadHciVersion =>
      var chip := ChipOf(i.ev.version);
      if NvFile(i.ans, chip).Some? {
        SendNvAccounted(OpenNv(c, chip, NvFile(i.ans, chip).value), first, i.ans.accept, lap, i.ev, events);
      }
    case NvSend => SendNvAccounted(c, first, i.ans.accept, lap, i.ev, events);
    case WriteBdAddr =>
      if i.ans.apAddr.Some? {
        TransmitAccounted(c, first, HCI_CMD_WRITE_BD_ADDR, Command(HCI_CMD_WRITE_BD_ADDR, i.ans.apAddr.value),
                          i.ans.accept, NvSendCmpl, i.ev, events);
      } else {
        RangeSnoc(first, c.nextBuffer);
      }
    case NvSendCmpl => RangeSnoc(first, c.nextBuffer);
    case Init =>
  }

  lemma CallbackAccounted(c: Config, first: nat, i: Input, lap: Lap, events: seq<nat>)
    requires Valid(c) && AnswersOk(i.ans) && Accounted(c, first, 1, events)
    ensures var d := Callback(c, i.ev, i.ans, lap); Accounted(d, first, Unanswered(1, c, d), events + [i.ev.id])
  {
    if i.ev.status == 0 && i.ans.alloc {
      DispatchAccounted(c, first, i, lap, events);
    }
  }

  function EventIds(inputs: seq<Input>): seq<nat> {
    seq(|inputs|, k requires 0 <= k < |inputs| => inputs[k].ev.id)
  }

  lemma EventIdsCons(inputs: seq<Input>, events: seq<nat>)
    requires inputs != []
    ensures events + EventIds(inputs) == events + [inputs[0].ev.id] + EventIds(inputs[1..])
  {
    assert EventIds(inputs) == [inputs[0].ev.id] + EventIds(inputs[1..]);
  }

  lemma {:induction false} RunAccounted(c: Config, first: nat, inputs: seq<Input>, lap: Lap, out: int, events: seq<nat>)
    returns (left: int)
    requires Accounted(c, first, out, events) && Answered(c, inputs, lap, out)
    ensures CallbacksValid(c, inputs, lap)
    ensures Accounted(Callbacks(c, inputs, lap), first, left, events + EventIds(inputs))
    decreases |inputs|
  {
    AnsweredIsValid(c, inputs, lap, out);
    if inputs == [] {
      assert events + EventIds(inputs) == events;
      left := out;
    } else {
      var d := Callback(c, inputs[0].ev, inputs[0].ans, lap);
      CallbackAccounted(c, first, inputs[0], lap, events);
      left := RunAccounted(d, first, inputs[1..], lap, Unanswered(1, c, d), events + [inputs[0].ev.id]);
      EventIdsCons(inputs, events);
    }
  }

  lemma FreshAccountsForBuffers(c: Config, inputs: seq<Input>, lap: Lap)
    requires Fresh(c) && Answered(ConfigStart(c, true, true), inputs, lap, 1)
    ensures CallbacksValid(ConfigStart(c, true, true), inputs, lap)
    ensures var d := Callbacks(ConfigStart(c, true, true), inputs, lap);
            true in d.reports ==>
              Owned(d, c.nextBuffer) && d.freedEvents == EventIds(inputs) && NvPackets(d.xmits) != []
  {
    var s, first := ConfigStart(c, true, true), c.nextBuffer;
    AnsweredIsValid(s, inputs, lap, 1);
    RangeSnoc(first, first);
    assert Accounted(s, first, 1, []);
    var left := RunAccounted(s, first, inputs, lap, 1, []);
    assert [] + EventIds(inputs) == EventIds(inputs);
  }

  lemma {:induction false} AcceptedAppend(a: seq<Xmit>, b: seq<Xmit>)
    ensures AcceptedCount(a + b) == AcceptedCount(a) + AcceptedCount(b)
  {
    if b == [] {
      assert a + b == a;
    } else {
      AcceptedAppend(a, b[..|b| - 1]);
      assert a + b == a + b[..|b| - 1] + [b[|b| - 1]];
      AcceptedSnoc(a + b[..|b| - 1], b[|b| - 1]);
    }
  }

  lemma UnansweredPrefixed(base: Config, c: Config, d: Config, out: nat)
    ensures Unanswered(out, Prefixed(base, c), Prefixed(base, d)) == Unanswered(out, c, d)
  {
    AcceptedAppend(base.xmits, c.xmits);
    AcceptedAppend(base.xmits, d.xmits);
  }

  /** Which runs are answered does not depend on what the machine did before. */
  lemma {:induction false} AnsweredPrefixed(base: Config, c: Config, inputs: seq<Input>, lap: Lap, out: int)
    ensures Answered(Prefixed(base, c), inputs, lap, out) <==> Answered(c, inputs, lap, out)
    decreases |inputs|
  {
    assert Valid(Prefixed(base, c)) <==> Valid(c);
    if inputs != [] && out >= 1 && Valid(c) && AnswersOk(inputs[0].ans) {
      var i := inputs[0];
      var d := Callback(c, i.ev, i.ans, lap);
      PrefixedCallback(base, c, i, lap);
      UnansweredPrefixed(base, c, d, out);
      AnsweredPrefixed(base, d, inputs[1..], lap, Unanswered(out, c, d));
    }
  }

  /** In every answered run that ends in success, whatever the machine did before: the command buffers
      allocated since the start were each handed over exactly once, in the order they were allocated;
      the event buffers were each freed exactly once, in the order they came; and at least one upload
      command was sent. */
  lemma SuccessAccountsForBuffers(c: Config, inputs: seq<Input>, lap: Lap)
    requires Answered(ConfigStart(c, true, true), inputs, lap, 1)
    ensures CallbacksValid(ConfigStart(c, true, true), inputs, lap)
    ensures var d := Callbacks(ConfigStart(c, true, true), inputs, lap);
            Extends(c, d) &&
            var e := Since(c, d);
            true in e.reports ==>
              Owned(e, c.nextBuffer) && e.freedEvents == EventIds(inputs) && NvPackets(e.xmits) != []
  {
    PrefixedStart(c, true, true);
    AnsweredPrefixed(c, ConfigStart(Cleared(c), true, true), inputs, lap, 1);
    FreshAccountsForBuffers(Cleared(c), inputs, lap);
    RunSinceStart(c, true, true, inputs, lap);
  }

  // ----- which images go through -----

  /** The stack offers a buffer and accepts every command, and the controller answers without error. */
  function GoodInput(file: bytes, version: nat, ap: Option<bytes>): Input {
    Input(Event(0, 0, version), Answers(true, true, Some(file), Some(file), ap))
  }

  function GoodInputs(k: nat, file: bytes, version: nat, ap: Option<bytes>): seq<Input> {
    seq(k, _ => GoodInput(file, version, ap))
  }

  lemma GoodInputsCons(k: nat, file: bytes, version: nat, ap: Option<bytes>)
    requires k > 0
    ensures GoodInputs(k, file, version, ap)[0] == GoodInput(file, version, ap)
    ensures GoodInputs(k, file, version, ap)[1..] == GoodInputs(k - 1, file, version, ap)
  {
  }

  /** One more good callback in front of an answered run that reports success. */
  ghost predicate Succeeds(c: Config, k: nat, file: bytes, version: nat, ap: Option<bytes>, lap: Lap) {
    var inputs := GoodInputs(k, file, version, ap);
    && Answered(c, inputs, lap, 1) && CallbacksValid(c, inputs, lap)
    && true in Callbacks(c, inputs, lap).reports
  }

  lemma SucceedsOneMore(c: Config, k: nat, file: bytes, version: nat, ap: Option<bytes>, lap: Lap)
    requires Valid(c) && AnswersOk(GoodInput(file, version, ap).ans) && k > 0
    requires var i := GoodInput(file, version, ap); var d := Callback(c, i.ev, i.ans, lap);
             Unanswered(1, c, d) == 1 && Succeeds(d, k - 1, file, version, ap, lap)
    ensures Succeeds(c, k, file, version, ap, lap)
  {
    GoodInputsCons(k, file, version, ap);
  }

  lemma LastCallbackSucceeds(c: Config, file: bytes, version: nat, ap: Option<bytes>, lap: Lap)
    requires c.phase.NvSendCmpl? || (c.phase.WriteBdAddr? && ap == None)
    requires ap.Some? ==> |ap.value| == 6
    ensures Succeeds(c, 1, file, version, ap, lap)
  {
    var i := GoodInput(file, version, ap);
    GoodInputsCons(1, file, version, ap);
    var d := Callback(c, i.ev, i.ans, lap);
    assert d.reports == c.reports + [true];
    assert GoodInputs(0, file, version, ap) == [];
  }

  /** Callbacks after the last block. */
  function Closing(ap: Option<bytes>): nat {
    if ap.Some? then 2 else 1
  }

  lemma ClosingSucceeds(c: Config, file: bytes, version: nat, ap: Option<bytes>, lap: Lap)
    requires c.phase.WriteBdAddr? && (ap.Some? ==> |ap.value| == 6)
    ensures Succeeds(c, Closing(ap), file, version, ap, lap)
  {
    if ap.Some? {
      var i := GoodInput(file, version, ap);
      var d := Callback(c, i.ev, i.ans, lap);
      AcceptedSnoc(c.xmits, Xmit(HCI_CMD_WRITE_BD_ADDR, Command(HCI_CMD_WRITE_BD_ADDR, ap.value), c.nextBuffer, true));
      LastCallbackSucceeds(d, file, version, ap, lap);
      SucceedsOneMore(c, 2, file, version, ap, lap);
    } else {
      LastCallbackSucceeds(c, file, version, ap, lap);
    }
  }

  /** With a record to send, a good callback sends one block and gets on by it. */
  lemma GoodUploadStep(c: Config, lap: Lap)
    requires c.chip == CHIPID_6316 && c.cur <= |c.file|
    requires Uploadable(c.file, c.cur) && Records(c.file, c.cur) != []
    ensures var p, d := Pack(c.file, c.cur, 0, lap), SendNv(c, c.nextBuffer, true, lap);
            && d.xmits == c.xmits + [Xmit(HCI_CMD_SKW_BT_NVDS, NvPacket(c.fileOffset, p.params), c.nextBuffer, true)]
            && d.file == c.file && d.chip == c.chip && d.cur == p.cur > c.cur
            && d.phase == (if p.end then WriteBdAddr else c.phase) && d.open == (c.open && !p.end)
            && Blocks6316(c.file, c.cur, lap) == [p.params] + (if p.end then [] else Blocks6316(c.file, p.cur, lap))
            && (!p.end ==> Uploadable(c.file, p.cur) && Records(c.file, p.cur) != [])
  {
    var rs := Records(c.file, c.cur);
    PackTakesRecords(c.file, c.cur, 0, lap, Pack(c.file, c.cur, 0, lap), rs);
    RecordsFit(c.file, c.cur);
    FirstGroup(rs, lap);
  }

  /** The same of the callback as a whole. */
  lemma GoodCallback(c: Config, lap: Lap, i: Input)
    requires c.phase.NvSend? && Valid(c) && c.chip == CHIPID_6316
    requires i.ev.status == 0 && i.ans.alloc && i.ans.accept && AnswersOk(i.ans)
    requires Uploadable(c.file, c.cur) && Records(c.file, c.cur) != []
    ensures var d := Callback(c, i.ev, i.ans, lap); var n := |Blocks6316(c.file, c.cur, lap)|;
            && d.file == c.file && d.chip == c.chip && Valid(d) && c.cur < d.cur <= |c.file| && Unanswered(1, c, d) == 1
            && (d.phase.WriteBdAddr? ==> n == 1)
            && (!d.phase.WriteBdAddr? ==> d.phase.NvSend? && Uploadable(d.file, d.cur) && Records(d.file, d.cur) != []
                                          && |Blocks6316(d.file, d.cur, lap)| == n - 1)
  {
    var d := SendNv(c, c.nextBuffer, true, lap);
    GoodUploadStep(c, lap);
    AcceptedSnoc(c.xmits, d.xmits[|c.xmits|]);
  }

  /** From any point of the upload the remaining blocks go out one per callback, and then success follows. */
  lemma {:induction false} UploadSucceeds(c: Config, lap: Lap, ap: Option<bytes>, k: nat)
    requires c.phase.NvSend? && Valid(c) && c.chip == CHIPID_6316 && (ap.Some? ==> |ap.value| == 6)
    requires Uploadable(c.file, c.cur) && Records(c.file, c.cur) != []
    requires k == |Blocks6316(c.file, c.cur, lap)| + Closing(ap)
    ensures Succeeds(c, k, c.file, CHIPID_6316, ap, lap)
    decreases |c.file| - c.cur
  {
    var i := GoodInput(c.file, CHIPID_6316, ap);
    var d := Callback(c, i.ev, i.ans, lap);
    GoodCallback(c, lap, i);
    if d.phase.WriteBdAddr? {
      ClosingSucceeds(d, c.file, CHIPID_6316, ap, lap);
    } else {
      UploadSucceeds(d, lap, ap, k - 1);
    }
    SucceedsOneMore(c, k, c.file, CHIPID_6316, ap, lap);
  }

  lemma GoodFixedStep(c: Config, lap: Lap)
    requires c.chip != CHIPID_6316 && c.cur <= |c.file|
    ensures var d := SendNv(c, c.nextBuffer, true, lap); var left := |c.file| - c.cur;
            && d.xmits == c.xmits + [d.xmits[|d.xmits| - 1]] && d.xmits[|d.xmits| - 1].accepted
            && d.file == c.file && d.chip == c.chip
            && (if left < BLOCK_SIZE then d.phase.WriteBdAddr? && left / BLOCK_SIZE == 0
                else d.phase == c.phase && d.open == c.open && d.cur == c.cur + BLOCK_SIZE
                     && left / BLOCK_SIZE == (left - BLOCK_SIZE) / BLOCK_SIZE + 1)
  {
  }

  lemma {:induction false} FixedUploadSucceeds(c: Config, lap: Lap, ap: Option<bytes>, version: nat, k: nat)
    requires c.phase.NvSend? && Valid(c) && c.chip != CHIPID_6316 && (ap.Some? ==> |ap.value| == 6)
    requires k == (|c.file| - c.cur) / BLOCK_SIZE + 1 + Closing(ap)
    ensures Succeeds(c, k, c.file, version, ap, lap)
    decreases |c.file| - c.cur
  {
    var i := GoodInput(c.file, version, ap);
    var d := Callback(c, i.ev, i.ans, lap);
    GoodFixedStep(c, lap);
    AcceptedSnoc(c.xmits, d.xmits[|c.xmits|]);
    if d.phase.WriteBdAddr? {
      ClosingSucceeds(d, c.file, version, ap, lap);
    } else {
      FixedUploadSucceeds(d, lap, ap, version, k - 1);
    }
    SucceedsOneMore(c, k, c.file, version, ap, lap);
  }

  /** Two states from which the next callback leads to the same state. */
  lemma SameNextSucceeds(c: Config, e: Config, k: nat, file: bytes, version: nat, ap: Option<bytes>, lap: Lap)
    requires Valid(c) && Valid(e) && AnswersOk(GoodInput(file, version, ap).ans) && k > 0
    requires var i := GoodInput(file, version, ap); Callback(c, i.ev, i.ans, lap) == Callback(e, i.ev, i.ans, lap)
    requires c.xmits == e.xmits && Succeeds(e, k, file, version, ap, lap)
    ensures Succeeds(c, k, file, version, ap, lap)
  {
    GoodInputsCons(k, file, version, ap);
  }

  /** The callback that opens the image goes on at once as one that finds it open. */
  lemma OpeningIsUploading(c: Config, i: Input, file: bytes, lap: Lap)
    requires c.phase.ReadHciVersion? && AnswersOk(i.ans) && i.ev.status == 0 && i.ans.alloc
    requires NvFile(i.ans, ChipOf(i.ev.version)) == Some(file)
    ensures Callback(c, i.ev, i.ans, lap) == Callback(OpenNv(c, ChipOf(i.ev.version), file), i.ev, i.ans, lap)
  {
  }

  /** The two callbacks before the first block. */
  lemma StartSucceeds(c: Config, k: nat, file: bytes, version: nat, ap: Option<bytes>, lap: Lap) returns (v: Config)
    requires ap.Some? ==> |ap.value| == 6
    ensures v.phase.ReadHciVersion?
    ensures k > 0 && Succeeds(OpenNv(v, ChipOf(version), file), k, file, version, ap, lap)
            ==> Succeeds(ConfigStart(c, true, true), k + 1, file, version, ap, lap)
  {
    var s := ConfigStart(c, true, true);
    var i := GoodInput(file, version, ap);
    v := Callback(s, i.ev, i.ans, lap);
    AcceptedSnoc(s.xmits, v.xmits[|s.xmits|]);
    if k > 0 && Succeeds(OpenNv(v, ChipOf(version), file), k, file, version, ap, lap) {
      OpeningIsUploading(v, i, file, lap);
      SameNextSucceeds(v, OpenNv(v, ChipOf(version), file), k, file, version, ap, lap);
      SucceedsOneMore(s, k + 1, file, version, ap, lap);
    }
  }

  lemma NoRecordsNoCommands(file: bytes, lap: Lap)
    requires var h := HeaderEnd(file, CHIPID_6316); Uploadable(file, h) && Records(file, h) == []
    ensures ImageCommands(file, CHIPID_6316, lap) == []
  {
    var h := HeaderEnd(file, CHIPID_6316);
    PackTakesRecords(file, h, 0, lap, Pack(file, h, 0, lap), []);
    assert PatchAll([], lap) == [];
    assert Blocks6316(file, h, lap) == [];
  }

  /** At least one record after the header, all records complete and at most 252 bytes. */
  predicate GoodImage(file: bytes) {
    var h := HeaderEnd(file, CHIPID_6316);
    Uploadable(file, h) && Records(file, h) != []
  }

  /** After a start of c these callbacks, each in answer to an accepted command, end in success. */
  ghost predicate SucceedsSince(c: Config, k: nat, file: bytes, version: nat, ap: Option<bytes>, lap: Lap) {
    var s, inputs := ConfigStart(c, true, true), GoodInputs(k, file, version, ap);
    && Answered(s, inputs, lap, 1) && CallbacksValid(s, inputs, lap)
    && Extends(c, Callbacks(s, inputs, lap)) && true in Since(c, Callbacks(s, inputs, lap)).reports
  }

  /** Some number of callbacks, every command accepted and answered, ends in success. */
  ghost predicate Configures(c: Config, file: bytes, ap: Option<bytes>, lap: Lap) {
    exists k: nat :: SucceedsSince(c, k, file, CHIPID_6316, ap, lap)
  }

  lemma SinceIsFromCleared(c: Config, k: nat, file: bytes, version: nat, ap: Option<bytes>, lap: Lap)
    ensures SucceedsSince(c, k, file, version, ap, lap) <==>
            Succeeds(ConfigStart(Cleared(c), true, true), k, file, version, ap, lap)
  {
    var s, inputs := ConfigStart(Cleared(c), true, true), GoodInputs(k, file, version, ap);
    PrefixedStart(c, true, true);
    AnsweredPrefixed(c, s, inputs, lap, 1);
    if Answered(s, inputs, lap, 1) {
      AnsweredIsValid(s, inputs, lap, 1);
      RunSinceStart(c, true, true, inputs, lap);
    }
  }

  /** When the same file is offered throughout, success means that it was sent as a whole. */
  lemma SuccessSendsFile(c: Config, k: nat, file: bytes, version: nat, ap: Option<bytes>, lap: Lap)
    requires SucceedsSince(c, k, file, version, ap, lap) && (ap.Some? ==> |ap.value| == 6)
    ensures UploadSent(c, k, file, version, ap, lap)
    ensures ImageOk(file, ChipOf(version), HeaderEnd(file, ChipOf(version)))
  {
    var inputs := GoodInputs(k, file, version, ap);
    assert forall i :: i in inputs ==> i == GoodInput(file, version, ap);
    SuccessMeansWholeImage(c, true, true, inputs, lap);
  }

  /** The upload commands since the start are those of this file. */
  ghost predicate UploadSent(c: Config, k: nat, file: bytes, version: nat, ap: Option<bytes>, lap: Lap) {
    var s, inputs := ConfigStart(c, true, true), GoodInputs(k, file, version, ap);
    && CallbacksValid(s, inputs, lap) && Extends(c, Callbacks(s, inputs, lap))
    && NvPackets(Since(c, Callbacks(s, inputs, lap)).xmits) == ImageCommands(file, ChipOf(version), lap)
  }

  lemma SuccessNeedsGoodImage(c: Config, k: nat, file: bytes, ap: Option<bytes>, lap: Lap)
    requires SucceedsSince(c, k, file, CHIPID_6316, ap, lap) && (ap.Some? ==> |ap.value| == 6)
    ensures GoodImage(file)
  {
    SuccessSendsFile(c, k, file, CHIPID_6316, ap, lap);
    SuccessAccountsForBuffers(c, GoodInputs(k, file, CHIPID_6316, ap), lap);
    if Records(file, HeaderEnd(file, CHIPID_6316)) == [] {
      NoRecordsNoCommands(file, lap);
      assert false;
    }
  }

  lemma GoodImageSucceeds(c: Config, file: bytes, ap: Option<bytes>, lap: Lap) returns (k: nat)
    requires GoodImage(file) && (ap.Some? ==> |ap.value| == 6)
    ensures k == |Blocks6316(file, HeaderEnd(file, CHIPID_6316), lap)| + 1 + Closing(ap)
    ensures SucceedsSince(c, k, file, CHIPID_6316, ap, lap) && UploadSent(c, k, file, CHIPID_6316, ap, lap)
  {
    k := |Blocks6316(file, HeaderEnd(file, CHIPID_6316), lap)| + Closing(ap);
    var v := StartSucceeds(Cleared(c), k, file, CHIPID_6316, ap, lap);
    UploadSucceeds(OpenNv(v, CHIPID_6316, file), lap, ap, k);
    k := k + 1;
    SinceIsFromCleared(c, k, file, CHIPID_6316, ap, lap);
    SuccessSendsFile(c, k, file, CHIPID_6316, ap, lap);
  }

  /** Exactly which 6316 images configure the controller, with every command accepted and answered,
      whatever the machine did before. */
  lemma ConfiguresExactly(c: Config, file: bytes, ap: Option<bytes>, lap: Lap)
    requires ap.Some? ==> |ap.value| == 6
    ensures Configures(c, file, ap, lap) <==> GoodImage(file)
  {
    if GoodImage(file) {
      var k := GoodImageSucceeds(c, file, ap, lap);
    } else if Configures(c, file, ap, lap) {
      var k: nat :| SucceedsSince(c, k, file, CHIPID_6316, ap, lap);
      SuccessNeedsGoodImage(c, k, file, ap, lap);
      assert false;
    }
  }

  lemma FixedImageSucceeds(c: Config, k: nat, file: bytes, version: nat, ap: Option<bytes>, lap: Lap)
    requires version != CHIPID_6316 && (ap.Some? ==> |ap.value| == 6)
    requires k == |file| / BLOCK_SIZE + 1 + Closing(ap)
    ensures Succeeds(ConfigStart(c, true, true), k + 1, file, version, ap, lap)
  {
    var v := StartSucceeds(c, k, file, version, ap, lap);
    FixedUploadSucceeds(OpenNv(v, CHIPID_6160, file), lap, ap, version, k);
  }

  /** Every 6160 image does, after as many callbacks as it has blocks and two or three more. */
  lemma Configures6160(c: Config, file: bytes, version: nat, ap: Option<bytes>, lap: Lap)
    requires version != CHIPID_6316 && (ap.Some? ==> |ap.value| == 6)
    ensures var k := |file| / BLOCK_SIZE + 2 + Closing(ap);
            SucceedsSince(c, k, file, version, ap, lap) && UploadSent(c, k, file, version, ap, lap)
  {
    var k := |file| / BLOCK_SIZE + 1 + Closing(ap);
    FixedImageSucceeds(Cleared(c), k, file, version, ap, lap);
    SinceIsFromCleared(c, k + 1, file, version, ap, lap);
    SuccessSendsFile(c, k + 1, file, version, ap, lap);
  }
}
