/**
 The firmware configuration state machine: each callback on a command-complete event sends at most
 one further command, uploading the NV image block by block, until it reports success or gives up.

 The C globals are the fields of a class; what its methods do is stated by functions on a value
 that holds the same fields, and the results about runs are proved of those functions. Allocation,
 the transmit callback's answer, the files, the address from the AP and the events are inputs.
 */
module ConfigMachine {
  import opened Bytes
  import opened NvImage

  const HCI_RESET: nat := 0x0C03
  const HCI_READ_LOCAL_VERSION_INFO: nat := 0x1001
  const HCI_CMD_SKW_BT_NVDS: nat := 0xFC80
  const HCI_CMD_WRITE_BD_ADDR: nat := 0xFC82

  const CHIPID_6316: nat := 0x5301
  const CHIPID_6160: nat := 0x0017

  datatype Phase = Init | Start | ReadHciVersion | NvSend | WriteBdAddr | NvSendCmpl

  datatype Xmit = Xmit(opcode: nat, packet: bytes, buffer: nat, accepted: bool)

  /** hw_cfg_cb and chip_version; file and cur stay readable after the file is closed. The last five
      fields record what the callbacks of the stack saw: command buffers allocated, commands
      transmitted, command buffers transmitted or freed, event buffers freed, results reported. */
  datatype Config = Config(
    phase: Phase, fileOffset: byte, open: bool, file: bytes, cur: nat, chip: nat,
    nextBuffer: nat, xmits: seq<Xmit>, handed: seq<nat>, freedEvents: seq<nat>, reports: seq<bool>)

  /** A command-complete event: status, and the version field of the answer to the version command. */
  datatype Event = Event(id: nat, status: byte, version: nat)

  datatype Answers = Answers(
    alloc: bool, accept: bool, nv6316: Option<bytes>, nv6160: Option<bytes>, apAddr: Option<bytes>)

  function Command(opcode: nat, params: bytes): bytes
    requires |params| < 256
  {
    [opcode % 256, opcode / 256 % 256, |params|] + params
  }

  /** An upload command: block number, block length, block. */
  function NvPacket(number: byte, block: bytes): bytes
    requires |block| <= BLOCK_SIZE
  {
    Command(HCI_CMD_SKW_BT_NVDS, [number, |block|] + block)
  }

  function Transmit(c: Config, opcode: nat, packet: bytes, b: nat, ok: bool): Config {
    c.(xmits := c.xmits + [Xmit(opcode, packet, b, ok)], handed := c.handed + [b])
  }

  function InitErr(c: Config, b: nat): Config {
    c.(phase := Init, handed := c.handed + [b], open := false)
  }

  function Bump(n: byte): byte {
    if n == 255 then 0 else n + 1
  }

  predicate Valid(c: Config) {
    c.phase.NvSend? ==> c.open && c.cur <= |c.file|
  }

  function SendNv6316(c: Config, b: nat, ok: bool, lap: Lap): Config
    requires c.cur <= |c.file|
  {
    var p := Pack(c.file, c.cur, 0, lap);
    var c1 := c.(cur := p.cur);
    var c2 := if p.truncated then InitErr(c1, b) else c1;
    if p.params != [] then
      var c3 := Transmit(c2, HCI_CMD_SKW_BT_NVDS, NvPacket(c2.fileOffset, p.params), b, ok);
      var c4 := c3.(fileOffset := Bump(c3.fileOffset));
      if !ok then InitErr(c4, b) else if p.end then CloseNv(c4) else c4
    else if p.end then CloseNv(c2)
    else c2
  }

  function CloseNv(c: Config): Config {
    c.(phase := WriteBdAddr, open := false)
  }

  function SendNv6160(c: Config, b: nat, ok: bool, lap: Lap): Config
    requires c.cur <= |c.file|
  {
    var block := Block6160(c.file, c.cur, c.fileOffset, lap);
    var c1 := Transmit(c, HCI_CMD_SKW_BT_NVDS, NvPacket(c.fileOffset, block), b, ok);
    var c2 := c1.(cur := c.cur + |block|, fileOffset := Bump(c.fileOffset));
    var c3 := if |block| < BLOCK_SIZE then CloseNv(c2) else c2;
    if !ok then InitErr(c3, b) else c3
  }

  function SendNv(c: Config, b: nat, ok: bool, lap: Lap): Config
    requires c.cur <= |c.file|
  {
    if c.chip == CHIPID_6316 then SendNv6316(c, b, ok, lap) else SendNv6160(c, b, ok, lap)
  }

  function ChipOf(version: nat): nat {
    if version == CHIPID_6316 then CHIPID_6316 else CHIPID_6160
  }

  /** Where the upload starts: the 6316 image has a header of four bytes. */
  function HeaderEnd(file: bytes, chip: nat): (n: nat)
    ensures n <= |file|
  {
    if chip != CHIPID_6316 then 0 else if |file| < 4 then |file| else 4
  }

  function OpenNv(c: Config, chip: nat, file: bytes): Config {
    c.(chip := chip, fileOffset := 0, phase := NvSend, open := true, file := file, cur := HeaderEnd(file, chip))
  }

  function Finish(c: Config, b: nat): Config {
    c.(phase := Init, handed := c.handed + [b], reports := c.reports + [true])
  }

  function SendBdAddr(c: Config, b: nat, ans: Answers): Config
    requires ans.apAddr.Some? ==> |ans.apAddr.value| == 6
  {
    if ans.apAddr.Some? then
      Transmit(c, HCI_CMD_WRITE_BD_ADDR, Command(HCI_CMD_WRITE_BD_ADDR, ans.apAddr.value), b, ans.accept)
      .(phase := NvSendCmpl)
    else Finish(c, b)
  }

  predicate AnswersOk(ans: Answers) {
    ans.apAddr.Some? ==> |ans.apAddr.value| == 6
  }

  function NvFile(ans: Answers, chip: nat): Option<bytes> {
    if chip == CHIPID_6316 then ans.nv6316 else ans.nv6160
  }

  /** The switch of the callback, with a command buffer b in hand; the flag says that the event
      buffer is left alone. */
  function Dispatch(c: Config, b: nat, ev: Event, ans: Answers, lap: Lap): (Config, bool)
    requires Valid(c) && AnswersOk(ans)
  {
    match c.phase
    case Start =>
      (Transmit(c, HCI_READ_LOCAL_VERSION_INFO, Command(HCI_READ_LOCAL_VERSION_INFO, []), b, ans.accept)
       .(phase := ReadHciVersion), false)
    case ReadHciVersion =>
      var chip := ChipOf(ev.version);
      (match NvFile(ans, chip)
       case None => (c.(chip := chip, reports := c.reports + [false], phase := Init), true)
       case Some(file) => (SendNv(OpenNv(c, chip, file), b, ans.accept, lap), false))
    case NvSend => (SendNv(c, b, ans.accept, lap), false)
    case WriteBdAddr => (SendBdAddr(c, b, ans), false)
    case NvSendCmpl => (Finish(c, b), false)
    case Init => (c, false)
  }

  /** scomm_vendor_config_callback. */
  function Callback(c: Config, ev: Event, ans: Answers, lap: Lap): Config
    requires Valid(c) && AnswersOk(ans)
  {
    if ev.status != 0 || !ans.alloc then c.(freedEvents := c.freedEvents + [ev.id])
    else
      var (d, early) := Dispatch(c, c.nextBuffer, ev, ans, lap);
      Settle(d, early, ev)
  }

  /** The buffer bookkeeping around the switch: one more command buffer allocated, and the event
      buffer freed unless the switch returned early. */
  function Settle(d: Config, early: bool, ev: Event): Config {
    d.(nextBuffer := d.nextBuffer + 1, freedEvents := if early then d.freedEvents else d.freedEvents + [ev.id])
  }

  /** scomm_vendor_config_start. */
  function ConfigStart(c: Config, alloc: bool, accept: bool): Config {
    var d := c.(phase := Init, fileOffset := 0, open := false);
    if alloc then
      var e := d.(nextBuffer := d.nextBuffer + 1, phase := Start);
      Transmit(e, HCI_RESET, Command(HCI_RESET, []), d.nextBuffer, accept)
    else d
  }

  class Configurator {
    var phase: Phase
    var fileOffset: byte
    var open: bool
    var file: bytes
    var cur: nat
    var chip: nat
    var nextBuffer: nat
    var xmits: seq<Xmit>
    var handed: seq<nat>
    var freedEvents: seq<nat>
    var reports: seq<bool>

    ghost function View(): Config
      reads this
    {
      Config(phase, fileOffset, open, file, cur, chip, nextBuffer, xmits, handed, freedEvents, reports)
    }

    constructor ()
      ensures View() == Config(Init, 0, false, [], 0, 0, 0, [], [], [], [])
    {
      phase, fileOffset, open, file, cur, chip := Init, 0, false, [], 0, 0;
      nextBuffer, xmits, handed, freedEvents, reports := 0, [], [], [], [];
    }

    method Start(alloc: bool, accept: bool)
      modifies this
      ensures View() == ConfigStart(old(View()), alloc, accept)
    {
      phase, fileOffset, open := Init, 0, false;
      if alloc {
        var b := nextBuffer;
        nextBuffer := nextBuffer + 1;
        phase := Phase.Start;
        XmitCb(HCI_RESET, Command(HCI_RESET, []), b, accept);
      }
    }

    method XmitCb(opcode: nat, packet: bytes, b: nat, accept: bool)
      modifies `xmits, `handed
      ensures View() == Transmit(old(View()), opcode, packet, b, accept)
    {
      xmits := xmits + [Xmit(opcode, packet, b, accept)];
      handed := handed + [b];
    }

    /** scomm_vendor_init_err. */
    method GiveUp(b: nat)
      modifies `phase, `handed, `open
      ensures View() == InitErr(old(View()), b)
    {
      phase := Init;
      handed := handed + [b];
      open := false;
    }

    method UploadRecords(b: nat, accept: bool, lap: Lap)
      requires cur <= |file|
      modifies this
      ensures View() == SendNv6316(old(View()), b, accept, lap)
    {
      var param := new byte[258](_ => 0);
      var total, next, end, truncated := PackBlock(file, cur, lap, param);
      cur := next;
      if truncated {
        GiveUp(b);
      }
      if total > 0 {
        XmitCb(HCI_CMD_SKW_BT_NVDS, NvPacket(fileOffset, param[..total]), b, accept);
        fileOffset := Bump(fileOffset);
        if !accept {
          GiveUp(b);
          return;
        }
      }
      if end {
        phase, open := WriteBdAddr, false;
      }
    }

    method UploadFixedBlock(b: nat, accept: bool, lap: Lap)
      requires cur <= |file|
      modifies this
      ensures View() == SendNv6160(old(View()), b, accept, lap)
    {
      var param := new byte[258](_ => 0);
      var len := ReadBlock6160(file, cur, fileOffset, lap, param);
      cur := cur + len;
      XmitCb(HCI_CMD_SKW_BT_NVDS, NvPacket(fileOffset, param[..len]), b, accept);
      fileOffset := Bump(fileOffset);
      if len < BLOCK_SIZE {
        phase, open := WriteBdAddr, false;
      }
      if !accept {
        GiveUp(b);
      }
    }

    method UploadNext(b: nat, accept: bool, lap: Lap)
      requires cur <= |file|
      modifies this
      ensures View() == SendNv(old(View()), b, accept, lap)
    {
      if chip == CHIPID_6316 {
        UploadRecords(b, accept, lap);
      } else {
        UploadFixedBlock(b, accept, lap);
      }
    }

    method ReportSuccess(b: nat)
      modifies this
      ensures View() == Finish(old(View()), b)
    {
      reports := reports + [true];
      handed := handed + [b];
      phase := Init;
    }

    method OpenImage(b: nat, image: bytes, accept: bool, lap: Lap)
      modifies this
      ensures View() == SendNv(OpenNv(old(View()), old(chip), image), b, accept, lap)
    {
      fileOffset, phase, open, file, cur := 0, NvSend, true, image, HeaderEnd(image, chip);
      UploadNext(b, accept, lap);
    }

    method AskVersion(b: nat, accept: bool)
      modifies this
      ensures View() == Transmit(old(View()), HCI_READ_LOCAL_VERSION_INFO, Command(HCI_READ_LOCAL_VERSION_INFO, []), b,
                                 accept)
                        .(phase := ReadHciVersion)
    {
      XmitCb(HCI_READ_LOCAL_VERSION_INFO, Command(HCI_READ_LOCAL_VERSION_INFO, []), b, accept);
      phase := ReadHciVersion;
    }

    method GotVersion(b: nat, ev: Event, ans: Answers, lap: Lap) returns (early: bool)
      requires phase.ReadHciVersion? && AnswersOk(ans)
      modifies this
      ensures (View(), early) == Dispatch(old(View()), b, ev, ans, lap)
    {
      chip := ChipOf(ev.version);
      early := false;
      match NvFile(ans, chip) {
        case None =>
          reports := reports + [false];
          phase := Init;
          early := true;
        case Some(image) =>
          OpenImage(b, image, ans.accept, lap);
      }
    }

    method WriteAddress(b: nat, ans: Answers)
      requires AnswersOk(ans)
      modifies this
      ensures View() == SendBdAddr(old(View()), b, ans)
    {
      if ans.apAddr.Some? {
        XmitCb(HCI_CMD_WRITE_BD_ADDR, Command(HCI_CMD_WRITE_BD_ADDR, ans.apAddr.value), b, ans.accept);
        phase := NvSendCmpl;
      } else {
        ReportSuccess(b);
      }
    }

    /** The switch over the state. */
    method Switch(b: nat, ev: Event, ans: Answers, lap: Lap) returns (early: bool)
      requires Valid(View()) && AnswersOk(ans)
      modifies this
      ensures (View(), early) == Dispatch(old(View()), b, ev, ans, lap)
    {
      early := false;
      match phase {
        case Start => AskVersion(b, ans.accept);
        case ReadHciVersion => early := GotVersion(b, ev, ans, lap);
        case NvSend => UploadNext(b, ans.accept, lap);
        case WriteBdAddr => WriteAddress(b, ans);
        case NvSendCmpl => ReportSuccess(b);
        case Init =>
      }
    }

    method OnCommandComplete(ev: Event, ans: Answers, lap: Lap)
      requires Valid(View()) && AnswersOk(ans)
      modifies this
      ensures View() == Callback(old(View()), ev, ans, lap)
    {
      if ev.status == 0 && ans.alloc {
        var early := Switch(nextBuffer, ev, ans, lap);
        nextBuffer := nextBuffer + 1;
        if early {
          return;
        }
      }
      freedEvents := freedEvents + [ev.id];
    }
  }
}
