/** The nRF side of the SPI link: the completion callback, the CRC check of a reply, and the two transactions
    that read the AVR's identity and hand it the HID report descriptor. */
module AvrComm {
  import opened Gf2Poly
  import opened Crc8
  import opened CrcDetection
  import opened WireErrors
  import opened SpiSlave

  const EIO := 5
  const EBUSY := 16

  /** What the bus did during one call: the byte the slave answered the handshake with, how many END interrupts came
      before the wait ended, the result of starting the data transfer, and the result of the managed transfer. */
  datatype Bus = Bus(handshakeRx: byte, ends: nat, dataErr: int, managedErr: int)

  /** avr_spi_cb_ctx */
  class CallbackContext {
    var err: int
    var handshakeRx: byte
    var specPending: bool

    constructor ()
      ensures err == -EIO && handshakeRx == 0 && specPending
    {
      err, handshakeRx, specPending := -EIO, 0, true;
    }

    /** Runs in the END interrupt; says whether it gives the semaphore the caller waits on. */
    method SpiDoneCallback(dataErr: int) returns (gives: bool)
      modifies this
      ensures handshakeRx == old(handshakeRx)
      ensures gives <==> !(old(specPending) && handshakeRx == HANDSHAKE_TX && dataErr == 0)
      ensures specPending == (old(specPending) && gives)
      ensures err == if !old(specPending) then old(err)
                     else if handshakeRx != HANDSHAKE_TX then -EBUSY else dataErr
    {
      if specPending {
        if handshakeRx != HANDSHAKE_TX {
          err := -EBUSY;
        } else {
          err := dataErr;
          if err == 0 {
            specPending := false;
            return false;
          }
        }
      }
      return true;
    }
  }

  /** The receive check of `avr_transceive`. The index is 8 bits wide, so the loop ends only up to 256 bytes. */
  method CheckCrc(rx: seq<byte>) returns (ok: bool)
    requires |rx| <= 256
    ensures ok <==> rx == [] || Accepted(rx)
  {
    if |rx| == 0 {
      return true;
    }
    var i, crc := 0, 0;
    while i < |rx| - 1
      invariant 0 <= i <= |rx| - 1 && crc == Crc(rx[..i])
    {
      assert rx[..i + 1] == rx[..i] + [rx[i]];
      CrcSnoc(rx[..i], rx[i]);
      crc := UpdateCrc(crc, rx[i]);
      i := (i + 1) % 256;
    }
    return crc == rx[i];
  }

  /** The 8-bit index of the check's loop after a number of turns. */
  function IndexAfter(turns: nat): (i: nat)
    ensures i < 256
  {
    if turns == 0 then 0 else (IndexAfter(turns - 1) + 1) % 256
  }

  lemma {:induction false} IndexCounts(turns: nat)
    requires turns < 256
    ensures IndexAfter(turns) == turns
  {
    if turns != 0 {
      IndexCounts(turns - 1);
    }
  }

  /** The loop ends exactly for replies of at most 256 bytes. */
  lemma LoopEnds(length: nat)
    requires length > 0
    ensures (exists turns :: IndexAfter(turns) >= length - 1) <==> length <= 256
  {
    if length <= 256 {
      IndexCounts(length - 1);
    }
  }

  /** The first thing that goes wrong on the bus, 0 when nothing does. */
  function BusError(bus: Bus): int {
    if bus.managedErr != 0 then bus.managedErr
    else if bus.ends == 0 then -EIO
    else if bus.handshakeRx != HANDSHAKE_TX then -EBUSY
    else bus.dataErr
  }

  /** Success means exactly: the managed transfer succeeded, the handshake was answered, the data transfer was
      started, and a reply (if one was asked for) carries its own CRC. */
  method AvrTransceive(bus: Bus, rx: seq<byte>) returns (err: int)
    requires |rx| <= 256
    ensures err == 0 <==>
      && bus.managedErr == 0 && bus.ends > 0 && bus.handshakeRx == HANDSHAKE_TX && bus.dataErr == 0
      && (rx == [] || Accepted(rx))
    ensures err == if BusError(bus) != 0 then BusError(bus) else if rx == [] || Accepted(rx) then 0 else -EIO
  {
    var ctx := new CallbackContext();
    if bus.ends > 0 {
      ctx.handshakeRx := bus.handshakeRx;
      var gives := ctx.SpiDoneCallback(bus.dataErr);
      if !gives && bus.ends > 1 {
        gives := ctx.SpiDoneCallback(bus.dataErr);
      }
    }
    if bus.managedErr != 0 {
      return bus.managedErr;
    }
    if ctx.err != 0 {
      return ctx.err;
    }
    var ok := CheckCrc(rx);
    return if ok then 0 else -EIO;
  }

  // ---- replies of any length ----

  /** What the slave sends for a payload. */
  function Frame(payload: seq<byte>): (f: seq<byte>)
    ensures f != []
  {
    payload + [Crc(payload)]
  }

  /** A frame passes the check, and a disturbed frame fails it when the number of flipped bits is odd, or they all lie
      within 8 consecutive bits in the CRC's order or within 6 in that of the wire. */
  lemma FrameCheck(payload: seq<byte>, e: seq<byte>)
    requires |e| == |payload| + 1
    ensures Accepted(Frame(payload))
    ensures Accepted(XorBytes(Frame(payload), e)) <==> Crc(e) == 0
    ensures Odd(MessageBits(e)) || (exists at: nat :: Burst(e, at)) ==> !Accepted(XorBytes(Frame(payload), e))
    ensures (exists at: nat :: WireBurst(e, at, 6)) && !AllZero(e) ==> !Accepted(XorBytes(Frame(payload), e))
  {
    var f := Frame(payload);
    assert f[..|f| - 1] == payload;
    AcceptedIffErrorDivisible(f, e);
    if Odd(MessageBits(e)) {
      OddErrorDetected(f, e);
    } else if exists at: nat :: Burst(e, at) {
      var at: nat :| Burst(e, at);
      BurstErrorDetected(f, e, at);
    }
    if (exists at: nat :: WireBurst(e, at, 6)) && !AllZero(e) {
      var at: nat :| WireBurst(e, at, 6);
      ShortWireBurstDetected(f, e, at);
    }
  }

  /** What the slave clocks out is the frame of its payload, followed by repetitions of the CRC. */
  lemma SlaveSendsFrame(command: byte, outgoing: seq<byte>)
    requires IsReply(command, outgoing) && |outgoing| > |ReplyPayload(command)|
    ensures outgoing[..|ReplyPayload(command)| + 1] == Frame(ReplyPayload(command))
  {
    var p := ReplyPayload(command);
    forall k | 0 <= k <= |p|
      ensures outgoing[k] == Frame(p)[k]
    {
      assert outgoing[k] == ReplyByte(command, k);
    }
  }

  // ---- both ends together ----

  function NoBytes(n: nat): seq<byte> {
    seq(n, _ => 0)
  }

  /** What becomes of an exchange. */
  datatype Outcome =
    | NotStarted(err: int)                                    // the bus could not be had; the slave sees nothing
    | Unanswered(seen: byte, handshake: byte, command: byte)  // the slave was not ready and saw these two bytes
    | DataRefused(err: int)                                   // handshake answered, data transfer not started
    | CutShort(err: int, clocked: nat)                        // gave up waiting after this many bytes of data
    | Completed

  predicate Possible(o: Outcome, length: nat) {
    match o
    case NotStarted(err) => err < 0
    case Unanswered(seen, _, _) => seen != HANDSHAKE_TX
    case DataRefused(err) => err < 0
    case CutShort(err, clocked) => err < 0 && clocked <= length
    case Completed => true
  }

  /** The outcome as the master sees it; a slave that is ready answers the handshake. */
  function BusOf(o: Outcome): Bus {
    match o
    case NotStarted(err) => Bus(0, 0, 0, err)
    case Unanswered(seen, _, _) => Bus(seen, 1, 0, 0)
    case DataRefused(err) => Bus(HANDSHAKE_TX, 1, err, 0)
    case CutShort(err, _) => Bus(HANDSHAKE_TX, 1, 0, err)
    case Completed => Bus(HANDSHAKE_TX, 2, 0, 0)
  }

  /** The data bytes that reach the slave. */
  function Received(o: Outcome, data: seq<byte>): seq<byte>
    requires Possible(o, |data|)
  {
    match o
    case CutShort(_, clocked) => data[..clocked]
    case Completed => data
    case _ => []
  }

  /** Whether the slave's loop turns once more at the end, and its USB side. */
  datatype Conditions = Conditions(lateTurn: bool, usb: UsbState, endpointFree: bool)

  /** The outcome as the slave sees it. */
  function SeenBySlave(o: Outcome, command: byte, data: seq<byte>, c: Conditions): seq<Transaction>
    requires Possible(o, |data|)
  {
    match o
    case NotStarted(_) => []
    case Unanswered(_, h, cmd) => [Transaction(h, cmd, [], c.lateTurn, c.usb, c.endpointFree)]
    case _ => [Transaction(HANDSHAKE_RX, command, Received(o, data), c.lateTurn, c.usb, c.endpointFree)]
  }

  lemma OutcomeError(o: Outcome, length: nat)
    requires Possible(o, length)
    ensures BusError(BusOf(o)) <= 0
    ensures BusError(BusOf(o)) == 0 <==> o == Completed
  {
  }

  /** The slave's part of an exchange. */
  method Exchange(slave: AvrApp, o: Outcome, command: byte, data: seq<byte>, c: Conditions)
    returns (outgoing: seq<byte>)
    requires slave.Valid() && Possible(o, |data|) && command != 0
    modifies slave, slave.rxBuf, slave.reportDesc
    ensures slave.Valid() && slave.history == old(slave.history) + SeenBySlave(o, command, data, c)
    ensures o == Completed ==> IsReply(command, outgoing) && |outgoing| > |data|
    ensures slave.HostDescriptor() ==
      if command == CMD_SET_DESCRIPTOR && c.usb == Unattached && Received(o, data) != []
      then slave.control + Truncated(Received(o, data), REPORT_DESCRIPTOR_MAX_SIZE - |slave.control|)
      else old(slave.HostDescriptor())
    ensures slave.usbInits == old(slave.usbInits)
      + (if command == CMD_ENABLE_USB && Received(o, data) != [] && Received(o, data)[0] != 0 then 1 else 0)
    ensures slave.reports == old(slave.reports)
      + (if command == CMD_SEND_REPORT && Received(o, data) != [] && c.usb == Configured && c.endpointFree
         then [Truncated(Received(o, data), RX_BUF_SIZE)] else [])
  {
    outgoing := [];
    if o.NotStarted? {
      assert slave.history == old(slave.history) + [];
    } else {
      var t := SeenBySlave(o, command, data, c)[0];
      DescriptorSnoc(slave.control, slave.history, t);
      outgoing := slave.SpiTask(t);
    }
  }

  /** `verify_avr_id` against the slave, the reply disturbed by `noise` on its way: the exact result. In particular no
      disturbed reply is taken for the right device. */
  method VerifyAvrId(slave: AvrApp, o: Outcome, noise: seq<byte>, c: Conditions) returns (result: int)
    requires slave.Valid() && |noise| == 4 && Possible(o, 4)
    modifies slave, slave.rxBuf, slave.reportDesc
    ensures slave.Valid() && slave.HostDescriptor() == old(slave.HostDescriptor())
    ensures o != Completed ==> result == BusError(BusOf(o)) < 0
    ensures o == Completed ==>
      result == if Crc(noise) != 0 then -EIO else if noise == NoBytes(4) then 0 else 1
    ensures result == 0 <==> o == Completed && noise == NoBytes(4)
  {
    OutcomeError(o, 4);
    var outgoing := Exchange(slave, o, CMD_READ_ID, NoBytes(4), c);
    var response := NoBytes(4);
    if o == Completed {
      SlaveSendsFrame(CMD_READ_ID, outgoing);
      response := XorBytes(outgoing[..4], noise);
    }
    IdDisturbed(noise);
    NoBytesCrc();
    var err := AvrTransceive(BusOf(o), response);
    if err != 0 {
      return err;
    }
    if response[0] != 0x1E || response[1] != 0x93 || response[2] != 0x89 {
      return 1;
    }
    return 0;
  }

  lemma NoBytesCrc()
    ensures Crc(NoBytes(4)) == 0
  {
    CrcZeros(NoBytes(4));
  }

  /** The identity frame under noise: whether it passes, and whether it still names the device. */
  lemma IdDisturbed(noise: seq<byte>)
    requires |noise| == 4
    ensures var r := XorBytes(Frame(DEVICE_ID), noise);
      && (Accepted(r) <==> Crc(noise) == 0)
      && (Crc(noise) == 0 ==>
            (r[0] == 0x1E && r[1] == 0x93 && r[2] == 0x89 <==> noise == NoBytes(4)))
  {
    FrameCheck(DEVICE_ID, noise);
    XorKeeps(0x1E, noise[0]);
    XorKeeps(0x93, noise[1]);
    XorKeeps(0x89, noise[2]);
    OnlyCrcNoise(noise);
  }

  /** Noise in the CRC byte alone does not pass. */
  lemma OnlyCrcNoise(noise: seq<byte>)
    requires |noise| == 4
    ensures Crc(noise) == 0 ==> (noise[0] == 0 && noise[1] == 0 && noise[2] == 0 <==> noise == NoBytes(4))
  {
    if noise[0] == 0 && noise[1] == 0 && noise[2] == 0 {
      CrcOfOne(noise, 3);
      assert noise[3] == 0 ==> noise == NoBytes(4);
    }
  }

  lemma XorKeeps(a: byte, b: byte)
    ensures a ^ b == a <==> b == 0
  {
  }

  /** `send_report_descriptor` against the slave: the error is that of the outcome. What an unattached slave received,
      even if the exchange was cut short, is what the USB host is then shown behind the control part; an attached one
      keeps what it had. */
  method SendReportDescriptor(slave: AvrApp, o: Outcome, reportMap: seq<byte>, c: Conditions) returns (err: int)
    requires slave.Valid() && Possible(o, |reportMap|)
    modifies slave, slave.rxBuf, slave.reportDesc
    ensures slave.Valid()
    ensures err == BusError(BusOf(o)) && (err == 0 <==> o == Completed)
    ensures slave.HostDescriptor() ==
      if c.usb == Unattached && Received(o, reportMap) != []
      then slave.control + Truncated(Received(o, reportMap), REPORT_DESCRIPTOR_MAX_SIZE - |slave.control|)
      else old(slave.HostDescriptor())
  {
    OutcomeError(o, |reportMap|);
    var outgoing := Exchange(slave, o, CMD_SET_DESCRIPTOR, reportMap, c);
    err := AvrTransceive(BusOf(o), []);
  }

  /** `enable_usb` against the slave: a completed exchange starts the USB controller exactly once. */
  method EnableUsb(slave: AvrApp, o: Outcome, c: Conditions) returns (err: int)
    requires slave.Valid() && Possible(o, 1)
    modifies slave, slave.rxBuf, slave.reportDesc
    ensures slave.Valid() && slave.HostDescriptor() == old(slave.HostDescriptor())
    ensures slave.reports == old(slave.reports)
    ensures err == BusError(BusOf(o)) && (err == 0 <==> o == Completed)
    ensures slave.usbInits == old(slave.usbInits) + if o == Completed || (o.CutShort? && o.clocked == 1) then 1 else 0
  {
    OutcomeError(o, 1);
    var outgoing := Exchange(slave, o, 0x09, [0x01], c);
    err := AvrTransceive(BusOf(o), []);
  }

  /** `send_report` against the slave: a completed exchange passes the whole payload on to a configured host with a free
      endpoint, and nothing otherwise. */
  method SendReport(slave: AvrApp, o: Outcome, payload: seq<byte>, c: Conditions) returns (err: int)
    requires slave.Valid() && 0 < |payload| <= RX_BUF_SIZE && Possible(o, |payload|)
    modifies slave, slave.rxBuf, slave.reportDesc
    ensures slave.Valid() && slave.HostDescriptor() == old(slave.HostDescriptor())
    ensures slave.usbInits == old(slave.usbInits)
    ensures err == BusError(BusOf(o)) && (err == 0 <==> o == Completed)
    ensures o == Completed ==>
      slave.reports == old(slave.reports) + (if c.usb == Configured && c.endpointFree then [payload] else [])
    ensures o != Completed && !o.CutShort? ==> slave.reports == old(slave.reports)
  {
    OutcomeError(o, |payload|);
    var outgoing := Exchange(slave, o, 0x0A, payload, c);
    err := AvrTransceive(BusOf(o), []);
  }
}
