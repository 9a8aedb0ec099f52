/// The printer object's command layer: print configuration and its serialisation,
/// the byte payloads of the single commands, the single-page label frame, and the
/// printer's own status decoder and countdown status read.
module Printer {
  import opened Lib
  import opened Models
  import Errors
  import PP = PrinterProfile

  type Result<T, M> = Errors.Result<T, M>

  // ---------------------------------------------------------------------------
  // Status

  /** The printer's status record: the profile's fields without the reply id. */
  datatype Status<M, E> = Status(
    model: Model,
    error: E,
    media: Option<M>,
    mode: bv8,
    statusType: PP.StatusType,
    phase: PP.Phase,
    notification: PP.Notification)

  /** Decodes a status reply with the same tables as the profile's decoder. */
  function StatusFromBuf<M, E>(buf: seq<bv8>, dec: PP.SubDecoders<M, E>): (s: Status<M, E>)
    requires PP.Decodable(buf)
    ensures s.model == FromCode(buf[4]) && s.mode == buf[15]
    ensures s.statusType == PP.StatusTypeFromCode(buf[18])
    ensures s.phase == PP.PhaseFromBuf(buf)
    ensures s.notification == PP.NotificationFromCode(buf[22])
    ensures s.media == dec.media(buf) && s.error == dec.error(buf)
  {
    Status(
      FromCode(buf[4]),
      dec.error(buf),
      dec.media(buf),
      buf[15],
      PP.StatusTypeFromCode(buf[18]),
      PP.PhaseFromBuf(buf),
      PP.NotificationFromCode(buf[22]))
  }

  /** The profile's status with its id dropped. */
  function WithoutId<M, E>(s: PP.Status<M, E>): Status<M, E>
  {
    Status(s.model, s.error, s.media, s.mode, s.statusType, s.phase, s.notification)
  }

  /** The two decoders agree on every field the printer's status has. */
  lemma StatusDecodersAgree<M, E>(buf: seq<bv8>, dec: PP.SubDecoders<M, E>)
    requires PP.Decodable(buf)
    ensures StatusFromBuf(buf, dec) == WithoutId(PP.StatusFromBuf(buf, dec))
  {
  }

  // ---------------------------------------------------------------------------
  // Opening the printer

  /** The printer's own device search: like the profile's, but a failed enumeration or
      a failed language read of a candidate ends it with no device instead of an error. */
  method OpenDevice(enumeration: Errors.Probe<seq<PP.UsbDevice>>, vid: nat, pid: nat, serial: string)
    returns (r: Option<nat>)
    ensures enumeration.ProbeFailed? ==> r.None?
    ensures r.Some? ==>
      (enumeration.Got? && r.value < |enumeration.value|
       && PP.Matches(enumeration.value[r.value], PP.Descriptor(vid, pid), serial)
       && PP.AllSkipped(enumeration.value, PP.Descriptor(vid, pid), serial, r.value))
    ensures enumeration.Got? && r.None? ==>
      (PP.AllSkipped(enumeration.value, PP.Descriptor(vid, pid), serial, |enumeration.value|)
       || exists j :: 0 <= j < |enumeration.value| && PP.AllSkipped(enumeration.value, PP.Descriptor(vid, pid), serial, j)
            && PP.Aborts(enumeration.value[j], PP.Descriptor(vid, pid)))
  {
    if enumeration.ProbeFailed? {
      return None;
    }
    var devices := enumeration.value;
    for i := 0 to |devices|
      invariant PP.AllSkipped(devices, PP.Descriptor(vid, pid), serial, i)
    {
      var device := devices[i];
      if device.descriptor.None? {
        continue;
      }
      var desc := device.descriptor.value;
      if desc.vendorId == vid && desc.productId == pid {
        if !device.opens {
          continue;
        }
        if device.languages.ProbeFailed? {
          return None;
        }
        if |device.languages.value| > 0 {
          if device.serial.Some? && device.serial.value == serial {
            return Some(i);
          }
        }
      }
    }
    return None;
  }

  /** `Printer::new` up to the reset of the handle: a failing USB context is a USB error,
      no matching device is `DeviceOffline`. */
  method Connect<M>(context: Errors.Probe<()>, enumeration: Errors.Probe<seq<PP.UsbDevice>>, model: Model, serial: string)
    returns (r: Result<nat, M>)
    ensures context.ProbeFailed? ==> r == Errors.Err(Errors.UsbError(context.cause))
    ensures context.Got? ==> r.Err? ==> r.error.DeviceOffline?
    ensures r.Ok? ==>
      (enumeration.Got? && r.value < |enumeration.value|
       && PP.Matches(enumeration.value[r.value], PP.Descriptor(PP.Vid, Pid(model)), serial)
       && PP.AllSkipped(enumeration.value, PP.Descriptor(PP.Vid, Pid(model)), serial, r.value))
    ensures context.Got? && enumeration.Got?
            && PP.AllSkipped(enumeration.value, PP.Descriptor(PP.Vid, Pid(model)), serial, |enumeration.value|)
            ==> r == Errors.Err(Errors.DeviceOffline)
    ensures context.Got? && enumeration.Got? ==>
      forall j :: 0 <= j < |enumeration.value|
        && PP.AllSkipped(enumeration.value, PP.Descriptor(PP.Vid, Pid(model)), serial, j)
        && PP.Matches(enumeration.value[j], PP.Descriptor(PP.Vid, Pid(model)), serial)
        ==> r == Errors.Ok(j)
  {
    if context.ProbeFailed? {
      return Errors.Err(Errors.UsbError(context.cause));
    }
    var found := OpenDevice(enumeration, 0x04F9, Pid(model), serial);
    if found.None? {
      return Errors.Err(Errors.DeviceOffline);
    }
    return Errors.Ok(found.value);
  }

  // ---------------------------------------------------------------------------
  // Status read

  /** A reply the countdown loop returns: exactly 32 bytes, whatever the phase. */
  predicate FullReply(reply: Errors.ReadOutcome)
  {
    reply.Received? && |reply.data| == PP.StatusLength
  }

  /** A reply after which the countdown loop decrements its counter and reads again. */
  predicate ShortReply(reply: Errors.ReadOutcome)
  {
    reply.Received? && |reply.data| != PP.StatusLength
  }

  /** Reads `lo` up to `hi` (exclusive) were all short. */
  predicate AllShort(device: nat -> Errors.ReadOutcome, lo: nat, hi: nat)
  {
    forall k :: lo <= k < hi ==> ShortReply(device(k))
  }

  lemma AllShortCons(device: nat -> Errors.ReadOutcome, k: nat, j: nat)
    requires ShortReply(device(k)) && AllShort(device, k + 1, j)
    ensures AllShort(device, k, j)
  {
  }

  /** The first full reply the loop reaches from read `k` on has a known model code. */
  predicate NoPanicFrom(device: nat -> Errors.ReadOutcome, k: nat)
    decreases PP.MaxStatusReads - k
  {
    k >= PP.MaxStatusReads ||
    match device(k)
    case ReadFailed(_) => true
    case Received(data) =>
      if |data| == PP.StatusLength then IsModelCode(data[4]) else NoPanicFrom(device, k + 1)
  }

  /** What the countdown status read returns after `k` short reads. */
  function ReadStatusFrom<M, E>(device: nat -> Errors.ReadOutcome, dec: PP.SubDecoders<M, E>, k: nat): Result<Status<M, E>, M>
    requires NoPanicFrom(device, k)
    decreases PP.MaxStatusReads - k
  {
    if k >= PP.MaxStatusReads then Errors.Err(Errors.ReadStatusTimeout)
    else
      match device(k)
      case ReadFailed(e) => Errors.Err(Errors.UsbError(e))
      case Received(data) =>
        if |data| == PP.StatusLength then Errors.Ok(StatusFromBuf(data, dec))
        else ReadStatusFrom(device, dec, k + 1)
  }

  /** The countdown status read: the counter starts at 10 and drops on each short read;
      the first 32-byte reply is returned whatever its phase. */
  method ReadStatus<M, E>(device: nat -> Errors.ReadOutcome, dec: PP.SubDecoders<M, E>) returns (r: Result<Status<M, E>, M>)
    requires NoPanicFrom(device, 0)
    ensures r == ReadStatusFrom(device, dec, 0)
  {
    var buf: seq<bv8> := seq(PP.StatusLength, _ => 0x00);
    var counter: nat := 10;
    while counter > 0
      invariant counter <= 10
      invariant NoPanicFrom(device, 10 - counter)
      invariant ReadStatusFrom(device, dec, 0) == ReadStatusFrom(device, dec, 10 - counter)
    {
      match device(10 - counter) {
        case Received(data) =>
          if |data| == PP.StatusLength {
            buf := data;
            return Errors.Ok(StatusFromBuf(buf, dec));
          }
          counter := counter - 1;
        case ReadFailed(e) =>
          return Errors.Err(Errors.UsbError(e));
      }
    }
    return Errors.Err(Errors.ReadStatusTimeout);
  }

  /** The countdown read times out exactly when ten reads in a row are short. */
  lemma {:induction false} ReadStatusTimeoutIff<M, E>(device: nat -> Errors.ReadOutcome, dec: PP.SubDecoders<M, E>, k: nat)
    requires k <= PP.MaxStatusReads && NoPanicFrom(device, k)
    ensures ReadStatusFrom(device, dec, k) == Errors.Err(Errors.ReadStatusTimeout) <==> AllShort(device, k, PP.MaxStatusReads)
    decreases PP.MaxStatusReads - k
  {
    if k < PP.MaxStatusReads {
      if ShortReply(device(k)) {
        ReadStatusTimeoutIff(device, dec, k + 1);
      } else {
        assert !AllShort(device, k, PP.MaxStatusReads) by { assert !ShortReply(device(k)); }
      }
    }
  }

  /** A failed countdown read is a transfer error or a timeout; a transfer error is the
      first failed read, every read before it having been short. */
  lemma {:induction false} ReadStatusFailure<M, E>(device: nat -> Errors.ReadOutcome, dec: PP.SubDecoders<M, E>, k: nat)
    requires k <= PP.MaxStatusReads && NoPanicFrom(device, k)
    requires ReadStatusFrom(device, dec, k).Err?
    ensures ReadStatusFrom(device, dec, k).error.UsbError? || ReadStatusFrom(device, dec, k).error.ReadStatusTimeout?
    ensures ReadStatusFrom(device, dec, k).error.UsbError? ==>
      exists j :: k <= j < PP.MaxStatusReads && AllShort(device, k, j)
        && device(j) == Errors.ReadFailed(ReadStatusFrom(device, dec, k).error.cause)
    decreases PP.MaxStatusReads - k
  {
    if k < PP.MaxStatusReads {
      if device(k).ReadFailed? {
        assert AllShort(device, k, k);
      } else {
        assert ShortReply(device(k));
        assert NoPanicFrom(device, k + 1);
        assert ReadStatusFrom(device, dec, k) == ReadStatusFrom(device, dec, k + 1);
        ReadStatusFailure(device, dec, k + 1);
        var e := ReadStatusFrom(device, dec, k + 1).error;
        if e.UsbError? {
          var j :| k + 1 <= j < PP.MaxStatusReads && AllShort(device, k + 1, j) && device(j) == Errors.ReadFailed(e.cause);
          AllShortCons(device, k, j);
        }
      }
    }
  }

  /** A successful countdown read returns the first full reply, unchecked. */
  lemma {:induction false} ReadStatusOk<M, E>(device: nat -> Errors.ReadOutcome, dec: PP.SubDecoders<M, E>, k: nat)
    requires k <= PP.MaxStatusReads && NoPanicFrom(device, k)
    requires ReadStatusFrom(device, dec, k).Ok?
    ensures exists j ::
      && k <= j < PP.MaxStatusReads && AllShort(device, k, j) && FullReply(device(j))
      && PP.Decodable(device(j).data)
      && ReadStatusFrom(device, dec, k).value == StatusFromBuf(device(j).data, dec)
  {
    var j := FullReplyIndex(device, dec, k);
    assert PP.Decodable(device(j).data);
  }

  /** The index of the reply a successful status read returns. */
  lemma {:induction false} FullReplyIndex<M, E>(device: nat -> Errors.ReadOutcome, dec: PP.SubDecoders<M, E>, k: nat) returns (j: nat)
    requires k <= PP.MaxStatusReads && NoPanicFrom(device, k)
    requires ReadStatusFrom(device, dec, k).Ok?
    ensures k <= j < PP.MaxStatusReads && AllShort(device, k, j) && FullReply(device(j))
    ensures PP.Decodable(device(j).data)
    ensures ReadStatusFrom(device, dec, k).value == StatusFromBuf(device(j).data, dec)
    decreases PP.MaxStatusReads - k
  {
    if FullReply(device(k)) {
      assert PP.Decodable(device(k).data);
      assert ReadStatusFrom(device, dec, k).value == StatusFromBuf(device(k).data, dec);
      j := k;
    } else {
      assert ShortReply(device(k));
      assert NoPanicFrom(device, k + 1);
      assert ReadStatusFrom(device, dec, k) == ReadStatusFrom(device, dec, k + 1);
      j := FullReplyIndex(device, dec, k + 1);
      AllShortCons(device, k, j);
    }
  }

  /** The two status reads differ only in the phase check: whenever the countdown read
      fails, or returns a reply in the receiving phase, the profile's read gives the
      same outcome. */
  lemma {:induction false} ReadStatusVersionsAgree<M, E>(device: nat -> Errors.ReadOutcome, dec: PP.SubDecoders<M, E>, k: nat)
    requires NoPanicFrom(device, k) && PP.NoPanicFrom(device, k)
    ensures var r := ReadStatusFrom(device, dec, k);
      var q := PP.ReadStatusFrom(device, dec, k);
      && (r.Err? ==> q == Errors.Err(r.error))
      && (r.Ok? && r.value.phase == PP.Receiving ==> q.Ok? && WithoutId(q.value) == r.value)
    decreases PP.MaxStatusReads - k
  {
    if k < PP.MaxStatusReads && ShortReply(device(k)) {
      ReadStatusVersionsAgree(device, dec, k + 1);
    }
  }

  // ---------------------------------------------------------------------------
  // Print configuration

  /** Auto-cut policy: cut after every `count` labels, or never. */
  datatype AutoCut = Enabled(count: bv8) | Disabled

  datatype Config = Config(autoCut: AutoCut, twoColors: bool, cutAtEnd: bool, highResolution: bool)

  /** Bit of the various-mode byte that turns auto-cut on. */
  const AutoCutFlag: bv8 := 0x40
  /** Bits of the expanded-mode byte. */
  const ColorModeFlag: bv8 := 0x01
  const CutAtEndFlag: bv8 := 0x08
  const ResolutionFlag: bv8 := 0x40

  /** The default configuration: cut every label, one colour, cut at end, normal resolution. */
  function NewConfig(): (c: Config)
    ensures c.autoCut == Enabled(1)
    ensures !c.twoColors && c.cutAtEnd && !c.highResolution
  {
    Config(Enabled(1), false, true, false)
  }

  function EnableAutoCut(c: Config, size: bv8): (r: Config)
    ensures r.autoCut == Enabled(size)
    ensures r.(autoCut := c.autoCut) == c
  {
    c.(autoCut := Enabled(size))
  }

  function DisableAutoCut(c: Config): (r: Config)
    ensures r.autoCut == Disabled
    ensures r.(autoCut := c.autoCut) == c
  {
    c.(autoCut := Disabled)
  }

  function ChangeResolution(c: Config, high: bool): (r: Config)
    ensures r.highResolution == high
    ensures r.(highResolution := c.highResolution) == c
  {
    c.(highResolution := high)
  }

  /** The auto-cut count sent with `ESC i A`. */
  function AutoCutCount(c: Config): (n: bv8)
    ensures c.autoCut.Enabled? ==> n == c.autoCut.count
    ensures c.autoCut.Disabled? ==> n == 1
  {
    match c.autoCut
    case Enabled(n) => n
    case Disabled => 1
  }

  /** The various-mode byte sent with `ESC i M`: only the auto-cut bit is used. */
  function VariousMode(c: Config): (b: bv8)
    ensures b & AutoCutFlag != 0 <==> c.autoCut.Enabled?
    ensures b & !AutoCutFlag == 0
  {
    if c.autoCut.Enabled? then AutoCutFlag else 0x00
  }

  /** The expanded-mode byte sent with `ESC i K`: one bit per flag, no other bit set. */
  function ExpandedMode(c: Config): (b: bv8)
    ensures b & ColorModeFlag != 0 <==> c.twoColors
    ensures b & CutAtEndFlag != 0 <==> c.cutAtEnd
    ensures b & ResolutionFlag != 0 <==> c.highResolution
    ensures b & !(ColorModeFlag | CutAtEndFlag | ResolutionFlag) == 0
  {
    (if c.twoColors then ColorModeFlag else 0)
    | (if c.cutAtEnd then CutAtEndFlag else 0)
    | (if c.highResolution then ResolutionFlag else 0)
  }

  /** The configuration block: auto-cut count, various mode, expanded mode. */
  function ConfigBlock(c: Config): seq<bv8>
  {
    [0x1B, 0x69, 0x41, AutoCutCount(c),
     0x1B, 0x69, 0x4D, VariousMode(c),
     0x1B, 0x69, 0x4B, ExpandedMode(c)]
  }

  /** Serialises the configuration, appending its twelve bytes to `buf`. */
  method Build(c: Config, buf: seq<bv8>) returns (out: seq<bv8>)
    ensures out == buf + ConfigBlock(c)
    ensures |out| == |buf| + 12 && out[..|buf|] == buf
  {
    var variousMode: bv8 := 0x00;
    var autoCutNum: bv8 := 1;
    if c.autoCut.Enabled? {
      autoCutNum := c.autoCut.count;
      variousMode := variousMode | 0x40;
    }
    out := buf + [0x1B, 0x69, 0x41, autoCutNum];
    out := out + [0x1B, 0x69, 0x4D, variousMode];

    var expandedMode: bv8 := 0x00;
    if c.twoColors {
      expandedMode := expandedMode | 0x01;
    }
    if c.cutAtEnd {
      expandedMode := expandedMode | 0x08;
    }
    if c.highResolution {
      expandedMode := expandedMode | 0x40;
    }
    out := out + [0x1B, 0x69, 0x4B, expandedMode];
  }

  /** The default configuration serialises to `1B 69 41 01 1B 69 4D 40 1B 69 4B 08`. */
  lemma DefaultConfigBlock()
    ensures ConfigBlock(NewConfig())
         == [0x1B, 0x69, 0x41, 0x01, 0x1B, 0x69, 0x4D, 0x40, 0x1B, 0x69, 0x4B, 0x08]
  {
  }

  /** Reading the block back: the three commands in order, each carrying its setting. */
  lemma ConfigBlockDecodes(c: Config)
    ensures |ConfigBlock(c)| == 12
    ensures ConfigBlock(c)[..3] == [0x1B, 0x69, 0x41] && ConfigBlock(c)[4..7] == [0x1B, 0x69, 0x4D]
    ensures ConfigBlock(c)[8..11] == [0x1B, 0x69, 0x4B]
    ensures c.autoCut.Enabled? <==> ConfigBlock(c)[7] & AutoCutFlag != 0
    ensures c.autoCut.Enabled? ==> ConfigBlock(c)[3] == c.autoCut.count
    ensures c.twoColors <==> ConfigBlock(c)[11] & ColorModeFlag != 0
    ensures c.cutAtEnd <==> ConfigBlock(c)[11] & CutAtEndFlag != 0
    ensures c.highResolution <==> ConfigBlock(c)[11] & ResolutionFlag != 0
  {
  }

  // ---------------------------------------------------------------------------
  // Command payloads (each is handed to `write` as one buffer)

  function Zeros(n: nat): (z: seq<bv8>)
    ensures |z| == n && forall i :: 0 <= i < n ==> z[i] == 0
  {
    seq(n, _ => 0x00)
  }

  /** `ESC @`: initialise. */
  const Reset: seq<bv8> := [0x1B, 0x40]
  /** `ESC i a 1`: raster command mode. */
  const RasterMode: seq<bv8> := [0x1B, 0x69, 0x61, 0x01]
  /** `ESC i S`: status information request. */
  const StatusRequestCommand: seq<bv8> := [0x1B, 0x69, 0x53]
  /** Header of one uncompressed raster line of 90 bytes. */
  const RasterHeader: seq<bv8> := [0x67, 0x00, 0x5A]
  /** Zero raster graphics. */
  const ZeroRaster: seq<bv8> := [0x5A]
  /** Control-Z: print then eject. */
  const PrintLast: seq<bv8> := [0x1A]
  /** The ASCII form-feed byte. */
  const FormFeed: bv8 := 0x0C

  /** The two writes of `initialize`: 400 zero bytes, then the reset command. */
  function Initialize(): (w: seq<seq<bv8>>)
    ensures |w| == 2 && w[0] == Zeros(400) && w[1] == Reset
  {
    [Zeros(400), Reset]
  }

  /** The status request: the invalidate-and-reset preamble followed by `ESC i S`. */
  function RequestStatus(): (r: seq<bv8>)
    ensures r == Initialize()[0] + Initialize()[1] + StatusRequestCommand
    ensures |r| == 405
  {
    Zeros(400) + [0x1B, 0x40] + [0x1b, 0x69, 0x53]
  }

  /** `ESC i ! n`: automatic status notification, 0 to notify, 1 not to. */
  function NotificationMode(notify: bool): (r: seq<bv8>)
    ensures |r| == 4 && r[..3] == [0x1B, 0x69, 0x21]
    ensures r[3] == 0x00 <==> notify
    ensures r[3] == 0x01 <==> !notify
  {
    if notify then [0x1B, 0x69, 0x21, 0x00] else [0x1B, 0x69, 0x21, 0x01]
  }

  /** `ESC i d n1 n2`: margin (feed) of `n1 + 256 * n2` dots. */
  function SetMargin(n1: bv8, n2: bv8): (r: seq<bv8>)
    ensures |r| == 5 && r[..3] == [0x1B, 0x69, 0x64] && r[3] == n1 && r[4] == n2
  {
    [0x1b, 0x69, 0x64, n1, n2]
  }

  /** The margin amount a `ESC i d` command carries, `n1 + 256 * n2`. */
  function MarginDots(cmd: seq<bv8>): bv16
    requires |cmd| == 5
  {
    (cmd[3] as bv16) + 256 * (cmd[4] as bv16)
  }

  /** Big-endian bytes of a 16-bit value. */
  function BigEndian16(v: bv16): (b: seq<bv8>)
    ensures |b| == 2
    ensures ((b[0] as bv16) << 8) | (b[1] as bv16) == v
  {
    [(v >> 8) as bv8, (v & 0xFF) as bv8]
  }

  /** The margin command for a 16-bit dot count, low byte first. */
  function MarginWithDots(dots: bv16): (cmd: seq<bv8>)
    ensures |cmd| == 5 && cmd[..3] == [0x1B, 0x69, 0x64]
    ensures MarginDots(cmd) == dots
  {
    var bytes := BigEndian16(dots);
    SetMargin(bytes[1], bytes[0])
  }

  /** Distinct dot counts give distinct margin commands. */
  lemma MarginWithDotsInjective(a: bv16, b: bv16)
    ensures MarginWithDots(a) == MarginWithDots(b) ==> a == b
  {
    if MarginWithDots(a) == MarginWithDots(b) {
      assert MarginDots(MarginWithDots(a)) == MarginDots(MarginWithDots(b));
    }
  }

  /** Every margin command is the one for the dot count it carries. */
  lemma MarginWithDotsSurjective(n1: bv8, n2: bv8)
    ensures MarginWithDots(MarginDots(SetMargin(n1, n2))) == SetMargin(n1, n2)
  {
  }

  /** The print command as written: the byte 0xFF. */
  function PrintCommandAsWritten(): seq<bv8>
  {
    [0xFF]
  }

  /** As written, the print command is not the protocol's form-feed print command,
      so a page printed with it is not terminated. */
  lemma PrintCommandAsWrittenIsNotFormFeed()
    ensures PrintCommandAsWritten() != [FormFeed]
    ensures PrintCommandAsWritten()[0] as int == 255 && FormFeed as int == 12
  {
  }

  /** The print command (print without eject, for every page but the last): form feed. */
  function PrintCommand(): (r: seq<bv8>)
    ensures r == [FormFeed]
    ensures r != PrintLast
  {
    [0x0C]
  }

  /** The two writes of `transfer_raster`: the raster line header, then the row as given. */
  function TransferRaster(row: seq<bv8>): (w: seq<seq<bv8>>)
    ensures |w| == 2 && w[0] == RasterHeader && w[1] == row
  {
    [[0x67, 0x00, 0x5A], row]
  }

  /** `transfer_raster_color` sends only its three-byte header `w 1 n`, with `n` the
      buffer length cut to eight bits; the buffer itself is not sent. */
  function TransferRasterColor(buf: seq<bv8>): (w: seq<bv8>)
    ensures |w| == 3 && w[..2] == [0x77, 0x01]
  {
    [0x77, 0x01, (|buf| % 256) as bv8]
  }

  /** Buffers whose lengths differ by a multiple of 256 get the same header. */
  lemma TransferRasterColorWraps(a: seq<bv8>, b: seq<bv8>)
    requires |a| % 256 == |b| % 256
    ensures TransferRasterColor(a) == TransferRasterColor(b)
  {
  }

  /** The writes of a command that hands several buffers to `write` in turn and returns
      `Ok(())` once all went through: the first failing write's error ends it, and the
      later buffers are not written. `outcomes[i]` is what the `i`-th write reports. */
  function Send<M>(bufs: seq<seq<bv8>>, outcomes: seq<Errors.WriteOutcome>): Result<(), M>
    requires |outcomes| == |bufs|
  {
    if bufs == [] then Errors.Ok(())
    else
      match PP.Write<M>(bufs[0], outcomes[0])
      case Err(e) => Errors.Err(e)
      case Ok(_) => Send(bufs[1..], outcomes[1..])
  }

  /** All writes went through exactly when every buffer was written in full. */
  lemma {:induction false} SendOk<M>(bufs: seq<seq<bv8>>, outcomes: seq<Errors.WriteOutcome>)
    requires |outcomes| == |bufs|
    ensures Send<M>(bufs, outcomes).Ok?
        <==> forall i :: 0 <= i < |bufs| ==> outcomes[i] == Errors.Wrote(|bufs[i]|)
    decreases |bufs|
  {
    if bufs != [] {
      SendOk<M>(bufs[1..], outcomes[1..]);
      if PP.Write<M>(bufs[0], outcomes[0]).Ok? {
        forall i | 0 < i < |bufs|
          ensures outcomes[i] == outcomes[1..][i - 1] && bufs[i] == bufs[1..][i - 1]
        {
        }
      }
    }
  }

  /** A failed command reports the error of its first failing write, all writes before
      it having gone through in full. */
  lemma {:induction false} SendErr<M>(bufs: seq<seq<bv8>>, outcomes: seq<Errors.WriteOutcome>)
    requires |outcomes| == |bufs|
    requires Send<M>(bufs, outcomes).Err?
    ensures exists j ::
      && 0 <= j < |bufs|
      && (forall i :: 0 <= i < j ==> outcomes[i] == Errors.Wrote(|bufs[i]|))
      && PP.Write<M>(bufs[j], outcomes[j]) == Errors.Err(Send<M>(bufs, outcomes).error)
    decreases |bufs|
  {
    if PP.Write<M>(bufs[0], outcomes[0]).Ok? {
      SendErr<M>(bufs[1..], outcomes[1..]);
      var j :|
        && 0 <= j < |bufs| - 1
        && (forall i :: 0 <= i < j ==> outcomes[1..][i] == Errors.Wrote(|bufs[1..][i]|))
        && PP.Write<M>(bufs[1..][j], outcomes[1..][j]) == Errors.Err(Send<M>(bufs[1..], outcomes[1..]).error);
      forall i | 0 < i < j + 1
        ensures outcomes[i] == Errors.Wrote(|bufs[i]|)
      {
        assert outcomes[i] == outcomes[1..][i - 1] && bufs[i] == bufs[1..][i - 1];
      }
      assert bufs[j + 1] == bufs[1..][j] && outcomes[j + 1] == outcomes[1..][j];
    } else {
      assert PP.Write<M>(bufs[0], outcomes[0]) == Errors.Err(Send<M>(bufs, outcomes).error);
    }
  }

  // ---------------------------------------------------------------------------
  // The single-page label frame

  /** `ESC i z`: print information with the fixed media and quality bytes; it is
      completed by the four raster-line count bytes and the page marker. */
  const PrintInformation: seq<bv8> := [0x1B, 0x69, 0x7A, 0x86, 0x0A, 0x3E, 0x00]
  /** Page marker of the first (only) page. */
  const FirstPage: seq<bv8> := [0x00, 0x00]
  /** `M 0`: no compression. */
  const NoCompression: seq<bv8> := [0x4D, 0x00]
  /** The fixed margin of the label frame: 35 dots (3 mm). */
  const LabelMarginDots: bv16 := 35

  /** Little-endian bytes of a 32-bit value. */
  function LittleEndian32(v: bv32): (b: seq<bv8>)
    ensures |b| == 4
  {
    [(v & 0xFF) as bv8, ((v >> 8) & 0xFF) as bv8, ((v >> 16) & 0xFF) as bv8, (v >> 24) as bv8]
  }

  function DecodeLittleEndian32(b: seq<bv8>): bv32
    requires |b| == 4
  {
    (b[0] as bv32) | ((b[1] as bv32) << 8) | ((b[2] as bv32) << 16) | ((b[3] as bv32) << 24)
  }

  /** The row count survives the little-endian encoding. */
  lemma LittleEndian32RoundTrip(v: bv32)
    ensures DecodeLittleEndian32(LittleEndian32(v)) == v
  {
  }

  /** The row count as the driver sends it: the image length cast to 32 bits. */
  function RowCount(image: Matrix): bv32
  {
    (|image| % 0x1_0000_0000) as bv32
  }

  /** The raster lines of an image, each behind the fixed 90-byte header. */
  function RasterLines(image: Matrix): seq<bv8>
  {
    if image == [] then [] else RasterLines(image[..|image| - 1]) + RasterHeader + image[|image| - 1]
  }

  /** Bytes the raster lines take: three header bytes plus the row, per row. */
  function RasterBytes(image: Matrix): nat
  {
    if image == [] then 0 else RasterBytes(image[..|image| - 1]) + 3 + |image[|image| - 1]|
  }

  lemma {:induction false} RasterLinesLength(image: Matrix)
    ensures |RasterLines(image)| == RasterBytes(image)
    decreases |image|
  {
    if image != [] {
      RasterLinesLength(image[..|image| - 1]);
    }
  }

  /** Row `k` sits after the rows before it, behind its header, whatever its length. */
  lemma {:induction false} RasterLinesRow(image: Matrix, k: nat)
    requires k < |image|
    ensures RasterBytes(image[..k]) + 3 + |image[k]| <= |RasterLines(image)|
    ensures RasterLines(image)[RasterBytes(image[..k]) .. RasterBytes(image[..k]) + 3 + |image[k]|]
         == RasterHeader + image[k]
    decreases |image|
  {
    var n := |image| - 1;
    var init := image[..n];
    RasterLinesLength(init);
    RasterLinesLength(image);
    if k == n {
      assert image[..k] == init;
    } else {
      RasterLinesRow(init, k);
      assert init[..k] == image[..k];
      assert init[k] == image[k];
      var lo := RasterBytes(image[..k]);
      var hi := lo + 3 + |image[k]|;
      assert RasterLines(image)[lo..hi] == RasterLines(init)[lo..hi];
    }
  }

  /** The 400 invalidate bytes and `ESC @` that open every frame. */
  function Preamble(): (p: seq<bv8>)
    ensures |p| == 402
  {
    Zeros(400) + Reset
  }

  /** Raster mode, notification on, and the print information with its row count. */
  function PageSetup(rows: bv32): (s: seq<bv8>)
    ensures |s| == 21
  {
    RasterMode + NotificationMode(true) + PrintInformation + LittleEndian32(rows) + FirstPage
  }

  /** The configuration commands, the fixed margin and no compression. */
  function PageOptions(c: Config): (o: seq<bv8>)
    ensures |o| == 19
  {
    ConfigBlock(c) + MarginWithDots(LabelMarginDots) + NoCompression
  }

  /** The header of the single-page frame up to the raster lines. */
  function LabelHeader(rows: bv32, c: Config): (h: seq<bv8>)
    ensures |h| == 442
  {
    Preamble() + PageSetup(rows) + PageOptions(c)
  }

  /** The frame `print_label` hands to `write`. */
  function LabelFrame(image: Matrix, c: Config): seq<bv8>
  {
    LabelHeader(RowCount(image), c) + RasterLines(image) + PrintLast
  }

  /** Length of the frame: 442 header bytes, the raster lines, the final byte. */
  lemma LabelFrameLength(image: Matrix, c: Config)
    ensures |LabelFrame(image, c)| == 442 + RasterBytes(image) + 1
  {
    RasterLinesLength(image);
  }

  /** Where each command lies in the header. */
  lemma LabelHeaderLayout(rows: bv32, c: Config)
    ensures var h := LabelHeader(rows, c);
      && h[..400] == Zeros(400)
      && h[400..402] == Reset
      && h[402..406] == RasterMode
      && h[406..410] == NotificationMode(true)
      && h[410..417] == PrintInformation
      && DecodeLittleEndian32(h[417..421]) == rows
      && h[421..423] == FirstPage
      && h[423..435] == ConfigBlock(c)
      && h[435..440] == [0x1B, 0x69, 0x64, 0x23, 0x00]
      && h[440..442] == NoCompression
  {
    var h := LabelHeader(rows, c);
    var front := Preamble() + PageSetup(rows);
    assert h == front + PageOptions(c);
    assert h[..423] == front;
    SliceOfPart(h, 0, front, 0, 402);
    SliceOfPart(h, 0, front, 402, 423);
    PreambleLayout(h);
    PageSetupLayout(h, rows);
    PageOptionsLayout(h, c);
  }

  /** A slice of a part of `h` is the matching slice of `h`. */
  lemma SliceOfPart(h: seq<bv8>, lo: nat, part: seq<bv8>, a: nat, b: nat)
    requires lo + |part| <= |h| && h[lo..lo + |part|] == part && a <= b <= |part|
    ensures h[lo + a..lo + b] == part[a..b]
  {
    forall i | 0 <= i < b - a
      ensures h[lo + a..lo + b][i] == part[a..b][i]
    {
      assert part[a..b][i] == h[lo..lo + |part|][a + i];
    }
  }

  lemma PreambleLayout(h: seq<bv8>)
    requires |h| >= 402 && h[..402] == Preamble()
    ensures h[..400] == Zeros(400) && h[400..402] == Reset
  {
    SliceOfPart(h, 0, Preamble(), 0, 400);
    SliceOfPart(h, 0, Preamble(), 400, 402);
  }

  lemma PageSetupLayout(h: seq<bv8>, rows: bv32)
    requires |h| >= 423 && h[402..423] == PageSetup(rows)
    ensures h[402..406] == RasterMode
    ensures h[406..410] == NotificationMode(true)
    ensures h[410..417] == PrintInformation
    ensures DecodeLittleEndian32(h[417..421]) == rows
    ensures h[421..423] == FirstPage
  {
    var s := PageSetup(rows);
    var f1 := RasterMode + NotificationMode(true);
    var f2 := f1 + PrintInformation;
    var f3 := f2 + LittleEndian32(rows);
    assert s == f3 + FirstPage;
    assert s[..4] == f1[..4] == RasterMode;
    assert s[4..8] == f1[4..] == NotificationMode(true);
    assert s[8..15] == f2[8..] == PrintInformation;
    assert s[15..19] == f3[15..] == LittleEndian32(rows);
    assert s[19..21] == FirstPage;
    SliceOfPart(h, 402, s, 0, 4);
    SliceOfPart(h, 402, s, 4, 8);
    SliceOfPart(h, 402, s, 8, 15);
    SliceOfPart(h, 402, s, 15, 19);
    SliceOfPart(h, 402, s, 19, 21);
    LittleEndian32RoundTrip(rows);
  }

  lemma PageOptionsLayout(h: seq<bv8>, c: Config)
    requires |h| == 442 && h[423..] == PageOptions(c)
    ensures h[423..435] == ConfigBlock(c)
    ensures h[435..440] == [0x1B, 0x69, 0x64, 0x23, 0x00]
    ensures h[440..442] == NoCompression
  {
    var o := PageOptions(c);
    var g := ConfigBlock(c) + MarginWithDots(LabelMarginDots);
    assert o == g + NoCompression;
    assert o[..12] == g[..12] == ConfigBlock(c);
    assert o[12..17] == g[12..] == MarginWithDots(LabelMarginDots);
    assert o[17..19] == NoCompression;
    SliceOfPart(h, 423, o, 0, 12);
    SliceOfPart(h, 423, o, 12, 17);
    SliceOfPart(h, 423, o, 17, 19);
  }

  /** Where each part of the frame lies: the header, the raster lines, the final byte. */
  lemma LabelFrameLayout(image: Matrix, c: Config)
    ensures var f := LabelFrame(image, c);
      && |f| == 443 + RasterBytes(image)
      && f[..442] == LabelHeader(RowCount(image), c)
      && f[442..442 + RasterBytes(image)] == RasterLines(image)
      && f[|f| - 1] == 0x1A
  {
    LabelFrameLength(image, c);
    var h := LabelHeader(RowCount(image), c);
    assert LabelFrame(image, c) == h + RasterLines(image) + PrintLast;
  }

  /** Row `k` of the image appears in the frame behind its header. */
  lemma LabelFrameRow(image: Matrix, c: Config, k: nat)
    requires k < |image|
    ensures var at := 442 + RasterBytes(image[..k]);
      && at + 3 + |image[k]| <= |LabelFrame(image, c)|
      && LabelFrame(image, c)[at .. at + 3 + |image[k]|] == RasterHeader + image[k]
  {
    RasterLinesRow(image, k);
    LabelFrameLayout(image, c);
    RasterLinesLength(image);
    var lo := RasterBytes(image[..k]);
    SliceOfPart(LabelFrame(image, c), 442, RasterLines(image), lo, lo + 3 + |image[k]|);
  }

  /** The label frame and the status request begin with the same preamble. */
  lemma LabelFrameStartsLikeRequestStatus(image: Matrix, c: Config)
    ensures LabelFrame(image, c)[..402] == RequestStatus()[..402]
  {
    LabelFrameLayout(image, c);
    var h := LabelHeader(RowCount(image), c);
    LabelHeaderLayout(RowCount(image), c);
    assert RequestStatus()[..402] == Zeros(400) + Reset;
    assert h[..402] == h[..400] + h[400..402];
    assert LabelFrame(image, c)[..402] == h[..402];
  }

  /** Builds the single-page frame step by step and writes it. */
  method PrintLabel<M>(image: Matrix, config: Config, outcome: Errors.WriteOutcome) returns (r: Result<nat, M>)
    ensures r == PP.Write(LabelFrame(image, config), outcome)
    ensures r.Ok? ==> r.value == 443 + RasterBytes(image)
  {
    var buf: seq<bv8> := [];
    buf := buf + Zeros(400);
    buf := buf + [0x1B, 0x40];
    ghost var preamble := buf;
    assert preamble == Preamble();
    buf := buf + [0x1B, 0x69, 0x61, 0x01];
    buf := buf + [0x1B, 0x69, 0x21, 0x00];
    buf := buf + [0x1B, 0x69, 0x7A, 0x86, 0x0A, 0x3E, 0x00];
    var len := LittleEndian32((|image| % 0x1_0000_0000) as bv32);
    buf := buf + len;
    buf := buf + [0x00, 0x00];
    ghost var setup := buf;
    assert setup == Preamble() + PageSetup(RowCount(image));
    buf := Build(config, buf);
    buf := buf + [0x1B, 0x69, 0x64, 0x23, 0x00];
    buf := buf + [0x4D, 0x00];
    assert buf == setup + PageOptions(config);
    ghost var header := buf;
    for i := 0 to |image|
      invariant buf == header + RasterLines(image[..i])
    {
      assert image[..i + 1][..i] == image[..i];
      buf := buf + [0x67, 0x00, 90];
      buf := buf + image[i];
    }
    assert image[..|image|] == image;
    buf := buf + [0x1A];
    LabelFrameLength(image, config);
    r := PP.Write(buf, outcome);
  }
}
