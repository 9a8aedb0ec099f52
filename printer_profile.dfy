/// The device profile: decoding of the 32-byte status reply, the media check,
/// and the decision logic of the USB transport (write, status read with retries,
/// device matching) over abstract transfer outcomes.
module PrinterProfile {
  import opened Lib
  import opened Models
  import Errors

  type Result<T, M> = Errors.Result<T, M>

  /** Kind of status reply, byte 18. */
  datatype StatusType =
    | ReplyToRequest | Completed | Error | Offline | Notification | PhaseChange | Unknown

  /** Printing phase, byte 19. */
  datatype Phase = Receiving | Printing | Waiting(count: nat)

  /** Cooling notification, byte 22. */
  datatype Notification = NotAvailable | CoolingStarted | CoolingFinished

  /** Decoders of the media and error fields, whose byte layouts are not part of this
      model; `M` is the media type, `E` the printer-error type. */
  datatype SubDecoders<M, E> = SubDecoders(media: seq<bv8> -> Option<M>, error: seq<bv8> -> E)

  /** A decoded status reply. */
  datatype Status<M, E> = Status(
    model: Model,
    error: E,
    media: Option<M>,
    mode: bv8,
    statusType: StatusType,
    phase: Phase,
    notification: Notification,
    id: bv8)

  /** Length of a status reply. */
  const StatusLength: nat := 32

  /** The protocol code of a known status type. */
  function StatusTypeCode(t: StatusType): bv8
    requires t != Unknown
  {
    match t
    case ReplyToRequest => 0x00
    case Completed => 0x01
    case Error => 0x02
    case Offline => 0x04
    case Notification => 0x05
    case PhaseChange => 0x06
  }

  function StatusTypeFromCode(code: bv8): (r: StatusType)
    ensures r == Unknown <==> code == 0x03 || code > 0x06
    ensures r != Unknown ==> StatusTypeCode(r) == code
  {
    match code
    case 0x00 => ReplyToRequest
    case 0x01 => Completed
    case 0x02 => Error
    case 0x04 => Offline
    case 0x05 => Notification
    case 0x06 => PhaseChange
    case _ => Unknown
  }

  /** Every known status type is decoded from its own code. */
  lemma StatusTypeRoundTrip(t: StatusType)
    requires t != Unknown
    ensures StatusTypeFromCode(StatusTypeCode(t)) == t
  {
  }

  function PhaseFromBuf(buf: seq<bv8>): (r: Phase)
    requires |buf| == StatusLength
    ensures r == Receiving <==> buf[19] == 0x00
    ensures r == Printing <==> buf[19] == 0x01
    ensures r.Waiting? ==> r.count == 0
  {
    match buf[19]
    case 0x00 => Receiving
    case 0x01 => Printing
    case _ => Waiting(0)
  }

  function NotificationFromCode(code: bv8): (r: Notification)
    ensures r == CoolingStarted <==> code == 0x03
    ensures r == CoolingFinished <==> code == 0x04
  {
    match code
    case 0x03 => CoolingStarted
    case 0x04 => CoolingFinished
    case _ => NotAvailable
  }

  /** A reply the decoder accepts without panicking: 32 bytes with a known model code. */
  predicate Decodable(buf: seq<bv8>)
  {
    |buf| == StatusLength && IsModelCode(buf[4])
  }

  /** Decodes a status reply field by field. */
  function StatusFromBuf<M, E>(buf: seq<bv8>, dec: SubDecoders<M, E>): (s: Status<M, E>)
    requires Decodable(buf)
    ensures s.model == FromCode(buf[4]) && Supported(s.model)
    ensures s.id == buf[14] && s.mode == buf[15]
    ensures s.statusType == StatusTypeFromCode(buf[18])
    ensures s.phase == PhaseFromBuf(buf)
    ensures s.notification == NotificationFromCode(buf[22])
    ensures s.media == dec.media(buf) && s.error == dec.error(buf)
  {
    Status(
      FromCode(buf[4]),
      dec.error(buf),
      dec.media(buf),
      buf[15],
      StatusTypeFromCode(buf[18]),
      PhaseFromBuf(buf),
      NotificationFromCode(buf[22]),
      buf[14])
  }

  /** Apart from the media and error sub-decoders, the status depends only on
      bytes 4, 14, 15, 18, 19 and 22. */
  lemma StatusFromBufReadsFields<M, E>(a: seq<bv8>, b: seq<bv8>, dec: SubDecoders<M, E>)
    requires Decodable(a) && Decodable(b)
    requires forall k :: k in {4, 14, 15, 18, 19, 22} ==> a[k] == b[k]
    requires dec.media(a) == dec.media(b) && dec.error(a) == dec.error(b)
    ensures StatusFromBuf(a, dec) == StatusFromBuf(b, dec)
  {
    assert a[4] == b[4] && a[14] == b[14] && a[15] == b[15];
    assert a[18] == b[18] && a[19] == b[19] && a[22] == b[22];
  }

  /** Succeeds exactly when the reply names a media and it is the expected one. */
  function CheckMedia<M(==), E>(s: Status<M, E>, expected: M): (r: Result<(), M>)
    ensures r.Ok? <==> s.media == Some(expected)
    ensures r.Err? ==> r.error == Errors.InvalidMedia(expected)
  {
    match s.media
    case Some(m) => if m == expected then Errors.Ok(()) else Errors.Err(Errors.InvalidMedia(expected))
    case None => Errors.Err(Errors.InvalidMedia(expected))
  }

  /** Result of a bulk write of `buf` given what the USB library reported. */
  function Write<M>(buf: seq<bv8>, outcome: Errors.WriteOutcome): (r: Result<nat, M>)
    ensures r.Ok? <==> outcome == Errors.Wrote(|buf|)
    ensures r.Ok? ==> r.value == |buf|
    ensures outcome.Wrote? && outcome.count != |buf| ==> r == Errors.Err(Errors.InvalidResponse(outcome.count))
    ensures outcome.WriteFailed? ==> r == Errors.Err(Errors.UsbError(outcome.cause))
  {
    match outcome
    case Wrote(n) => if n == |buf| then Errors.Ok(n) else Errors.Err(Errors.InvalidResponse(n))
    case WriteFailed(e) => Errors.Err(Errors.UsbError(e))
  }

  /** Number of status reads before giving up. */
  const MaxStatusReads: nat := 10

  /** A reply the retry loop returns: 32 bytes in the receiving phase. */
  predicate Accepted(reply: Errors.ReadOutcome)
  {
    reply.Received? && |reply.data| == StatusLength && PhaseFromBuf(reply.data) == Receiving
  }

  /** A reply after which the loop reads again: a short reply or a reply in another phase. */
  predicate Retried(reply: Errors.ReadOutcome)
  {
    reply.Received? && !Accepted(reply)
  }

  /** Reads `lo` up to `hi` (exclusive) of `device` are all retried. */
  predicate AllRetried(device: nat -> Errors.ReadOutcome, lo: nat, hi: nat)
  {
    forall k :: lo <= k < hi ==> Retried(device(k))
  }

  lemma AllRetriedCons(device: nat -> Errors.ReadOutcome, k: nat, j: nat)
    requires Retried(device(k)) && AllRetried(device, k + 1, j)
    ensures AllRetried(device, k, j)
  {
  }

  /** Every 32-byte reply the loop decodes from read `k` on has a known model code
      (the driver panics otherwise). `device(k)` is the outcome of the `k`-th read. */
  predicate NoPanicFrom(device: nat -> Errors.ReadOutcome, k: nat)
    decreases MaxStatusReads - k
  {
    k >= MaxStatusReads ||
    match device(k)
    case ReadFailed(_) => true
    case Received(data) =>
      if |data| == StatusLength then
        IsModelCode(data[4]) && (PhaseFromBuf(data) == Receiving || NoPanicFrom(device, k + 1))
      else NoPanicFrom(device, k + 1)
  }

  /** What the status read returns once `k` reads have been retried. */
  function ReadStatusFrom<M, E>(device: nat -> Errors.ReadOutcome, dec: SubDecoders<M, E>, k: nat): Result<Status<M, E>, M>
    requires NoPanicFrom(device, k)
    decreases MaxStatusReads - k
  {
    if k >= MaxStatusReads then Errors.Err(Errors.ReadStatusTimeout)
    else
      match device(k)
      case ReadFailed(e) => Errors.Err(Errors.UsbError(e))
      case Received(data) =>
        if Accepted(device(k)) then Errors.Ok(StatusFromBuf(data, dec))
        else ReadStatusFrom(device, dec, k + 1)
  }

  /** The status read: up to ten bulk reads, returning the first 32-byte reply in the
      receiving phase; a transfer error ends it at once. */
  method ReadStatus<M, E>(device: nat -> Errors.ReadOutcome, dec: SubDecoders<M, E>) returns (r: Result<Status<M, E>, M>)
    requires NoPanicFrom(device, 0)
    ensures r == ReadStatusFrom(device, dec, 0)
  {
    var buf: seq<bv8> := seq(StatusLength, _ => 0x00);
    var counter := 0;
    while counter < MaxStatusReads
      invariant counter <= MaxStatusReads
      invariant NoPanicFrom(device, counter)
      invariant ReadStatusFrom(device, dec, 0) == ReadStatusFrom(device, dec, counter)
    {
      match device(counter) {
        case ReadFailed(e) =>
          return Errors.Err(Errors.UsbError(e));
        case Received(data) =>
          if |data| == StatusLength {
            buf := data;
            var status := StatusFromBuf(buf, dec);
            if status.phase == Receiving {
              return Errors.Ok(status);
            }
          }
      }
      counter := counter + 1;
    }
    return Errors.Err(Errors.ReadStatusTimeout);
  }

  /** A successful status read returns the first accepted reply among the first ten,
      every read before it having been retried. */
  lemma {:induction false} ReadStatusOk<M, E>(device: nat -> Errors.ReadOutcome, dec: SubDecoders<M, E>, k: nat)
    requires k <= MaxStatusReads && NoPanicFrom(device, k)
    requires ReadStatusFrom(device, dec, k).Ok?
    ensures exists j ::
      && k <= j < MaxStatusReads && AllRetried(device, k, j) && Accepted(device(j))
      && Decodable(device(j).data)
      && ReadStatusFrom(device, dec, k).value == StatusFromBuf(device(j).data, dec)
  {
    var j := AcceptedReply(device, dec, k);
    assert Decodable(device(j).data);
  }

  /** The index of the reply a successful status read returns. */
  lemma {:induction false} AcceptedReply<M, E>(device: nat -> Errors.ReadOutcome, dec: SubDecoders<M, E>, k: nat) returns (j: nat)
    requires k <= MaxStatusReads && NoPanicFrom(device, k)
    requires ReadStatusFrom(device, dec, k).Ok?
    ensures k <= j < MaxStatusReads && AllRetried(device, k, j) && Accepted(device(j))
    ensures Decodable(device(j).data)
    ensures ReadStatusFrom(device, dec, k).value == StatusFromBuf(device(j).data, dec)
    decreases MaxStatusReads - k
  {
    if Accepted(device(k)) {
      assert Decodable(device(k).data);
      assert ReadStatusFrom(device, dec, k).value == StatusFromBuf(device(k).data, dec);
      j := k;
    } else {
      assert Retried(device(k));
      assert NoPanicFrom(device, k + 1);
      assert ReadStatusFrom(device, dec, k) == ReadStatusFrom(device, dec, k + 1);
      j := AcceptedReply(device, dec, k + 1);
      AllRetriedCons(device, k, j);
    }
  }

  /** A failed status read is a transfer error or a timeout; a transfer error is the
      first failed read, every read before it having been retried. */
  lemma {:induction false} ReadStatusFailure<M, E>(device: nat -> Errors.ReadOutcome, dec: SubDecoders<M, E>, k: nat)
    requires k <= MaxStatusReads && NoPanicFrom(device, k)
    requires ReadStatusFrom(device, dec, k).Err?
    ensures ReadStatusFrom(device, dec, k).error.UsbError? || ReadStatusFrom(device, dec, k).error.ReadStatusTimeout?
    ensures ReadStatusFrom(device, dec, k).error.UsbError? ==>
      exists j :: k <= j < MaxStatusReads && AllRetried(device, k, j)
        && device(j) == Errors.ReadFailed(ReadStatusFrom(device, dec, k).error.cause)
    decreases MaxStatusReads - k
  {
    if k < MaxStatusReads {
      if device(k).ReadFailed? {
        assert AllRetried(device, k, k);
      } else {
        assert Retried(device(k));
        assert NoPanicFrom(device, k + 1);
        assert ReadStatusFrom(device, dec, k) == ReadStatusFrom(device, dec, k + 1);
        ReadStatusFailure(device, dec, k + 1);
        var e := ReadStatusFrom(device, dec, k + 1).error;
        if e.UsbError? {
          var j :| k + 1 <= j < MaxStatusReads && AllRetried(device, k + 1, j) && device(j) == Errors.ReadFailed(e.cause);
          AllRetriedCons(device, k, j);
        }
      }
    }
  }

  /** The status read times out exactly when all ten reads are retried. */
  lemma {:induction false} ReadStatusTimeoutIff<M, E>(device: nat -> Errors.ReadOutcome, dec: SubDecoders<M, E>, k: nat)
    requires k <= MaxStatusReads && NoPanicFrom(device, k)
    ensures ReadStatusFrom(device, dec, k) == Errors.Err(Errors.ReadStatusTimeout) <==> AllRetried(device, k, MaxStatusReads)
    decreases MaxStatusReads - k
  {
    if k < MaxStatusReads {
      if Retried(device(k)) {
        ReadStatusTimeoutIff(device, dec, k + 1);
      } else {
        assert !AllRetried(device, k, MaxStatusReads) by { assert !Retried(device(k)); }
      }
    }
  }

  /** The status read performs at most ten reads: outcomes after the tenth do not matter. */
  lemma {:induction false} ReadStatusReadsAtMostTen<M, E>(d1: nat -> Errors.ReadOutcome, d2: nat -> Errors.ReadOutcome, dec: SubDecoders<M, E>, k: nat)
    requires forall j :: k <= j < MaxStatusReads ==> d1(j) == d2(j)
    requires NoPanicFrom(d1, k)
    ensures NoPanicFrom(d2, k)
    ensures ReadStatusFrom(d1, dec, k) == ReadStatusFrom(d2, dec, k)
    decreases MaxStatusReads - k
  {
    if k < MaxStatusReads && d1(k).Received? && !Accepted(d1(k)) {
      ReadStatusReadsAtMostTen(d1, d2, dec, k + 1);
    }
  }

  /** Vendor id of every supported printer. */
  const Vid: nat := 0x04F9

  datatype Descriptor = Descriptor(vendorId: nat, productId: nat)

  /** What probing one enumerated device yields: its descriptor (None if it could not be
      read), whether it could be opened, its string-descriptor languages, and its serial
      number string read in the first language (None if that read failed). */
  datatype UsbDevice = UsbDevice(
    descriptor: Option<Descriptor>,
    opens: bool,
    languages: Errors.Probe<seq<nat>>,
    serial: Option<string>)

  /** The device carries the vendor and product id sought and could be opened. */
  predicate Candidate(d: UsbDevice, wanted: Descriptor)
  {
    d.descriptor == Some(wanted) && d.opens
  }

  /** The device is the one sought: a candidate whose serial number equals `serial`. */
  predicate Matches(d: UsbDevice, wanted: Descriptor, serial: string)
  {
    Candidate(d, wanted) && d.languages.Got? && |d.languages.value| > 0 && d.serial == Some(serial)
  }

  /** Reading the candidate's languages failed, which ends the search with that error. */
  predicate Aborts(d: UsbDevice, wanted: Descriptor)
  {
    Candidate(d, wanted) && d.languages.ProbeFailed?
  }

  /** The search passes over devices `0 .. n - 1`. */
  predicate AllSkipped(devices: seq<UsbDevice>, wanted: Descriptor, serial: string, n: nat)
    requires n <= |devices|
  {
    forall j :: 0 <= j < n ==> !Matches(devices[j], wanted, serial) && !Aborts(devices[j], wanted)
  }

  /** Finds the first enumerated device with Brother's vendor id, the model's product id
      and the requested serial number; returns its position. */
  method OpenDevice<M>(enumeration: Errors.Probe<seq<UsbDevice>>, model: Model, serial: string) returns (r: Result<nat, M>)
    ensures enumeration.ProbeFailed? ==> r == Errors.Err(Errors.UsbError(enumeration.cause))
    ensures r.Ok? ==>
      (enumeration.Got? && r.value < |enumeration.value|
       && Matches(enumeration.value[r.value], Descriptor(Vid, Pid(model)), serial)
       && AllSkipped(enumeration.value, Descriptor(Vid, Pid(model)), serial, r.value))
    ensures r == Errors.Err(Errors.DeviceOffline) <==>
      enumeration.Got? && AllSkipped(enumeration.value, Descriptor(Vid, Pid(model)), serial, |enumeration.value|)
    ensures enumeration.Got? && r.Err? && r.error.UsbError? ==>
      exists j :: 0 <= j < |enumeration.value| && AllSkipped(enumeration.value, Descriptor(Vid, Pid(model)), serial, j)
        && Aborts(enumeration.value[j], Descriptor(Vid, Pid(model)))
        && enumeration.value[j].languages.cause == r.error.cause
    ensures r.Err? ==> r.error.DeviceOffline? || r.error.UsbError?
  {
    if enumeration.ProbeFailed? {
      return Errors.Err(Errors.UsbError(enumeration.cause));
    }
    var devices := enumeration.value;
    var pid := Pid(model);
    for i := 0 to |devices|
      invariant AllSkipped(devices, Descriptor(Vid, pid), serial, i)
    {
      var device := devices[i];
      if device.descriptor.None? {
        continue;
      }
      var desc := device.descriptor.value;
      if desc.vendorId == Vid && desc.productId == pid {
        if !device.opens {
          continue;
        }
        if device.languages.ProbeFailed? {
          return Errors.Err(Errors.UsbError(device.languages.cause));
        }
        if |device.languages.value| > 0 {
          if device.serial.Some? && device.serial.value == serial {
            return Errors.Ok(i);
          }
        }
      }
    }
    return Errors.Err(Errors.DeviceOffline);
  }

  /** The device search of `build_usb_profile`, up to the point where the handle is reset:
      a failing USB context is a USB error, and every failure of the search, including a
      failed language read, becomes `DeviceOffline`. */
  method ConnectUsb<M>(context: Errors.Probe<()>, enumeration: Errors.Probe<seq<UsbDevice>>, model: Model, serial: string)
    returns (r: Result<nat, M>)
    ensures context.ProbeFailed? ==> r == Errors.Err(Errors.UsbError(context.cause))
    ensures context.Got? ==> r.Err? ==> r.error.DeviceOffline?
    ensures r.Ok? ==>
      (enumeration.Got? && r.value < |enumeration.value|
       && Matches(enumeration.value[r.value], Descriptor(Vid, Pid(model)), serial)
       && AllSkipped(enumeration.value, Descriptor(Vid, Pid(model)), serial, r.value))
    ensures context.Got? && enumeration.Got?
            && AllSkipped(enumeration.value, Descriptor(Vid, Pid(model)), serial, |enumeration.value|)
            ==> r == Errors.Err(Errors.DeviceOffline)
    ensures context.Got? && enumeration.Got? ==>
      forall j :: 0 <= j < |enumeration.value|
        && AllSkipped(enumeration.value, Descriptor(Vid, Pid(model)), serial, j)
        && Matches(enumeration.value[j], Descriptor(Vid, Pid(model)), serial)
        ==> r == Errors.Ok(j)
  {
    if context.ProbeFailed? {
      return Errors.Err(Errors.UsbError(context.cause));
    }
    var found := OpenDevice<M>(enumeration, model, serial);
    if found.Err? {
      return Errors.Err(Errors.DeviceOffline);
    }
    return found;
  }
}
