/** The AVR application's SPI slave: byte exchange with CRC trailer, command dispatch, and the HID report
    descriptor that command 0x08 installs. The C statics of the three source files are the fields of one class. */
module SpiSlave {
  import opened Crc8

  const REPORT_DESCRIPTOR_MAX_SIZE := 256
  const RX_BUF_SIZE := 32

  const CMD_READ_ID: byte := 0x06
  const CMD_SET_DESCRIPTOR: byte := 0x08
  const CMD_ENABLE_USB: byte := 0x09
  const CMD_SEND_REPORT: byte := 0x0A

  const HANDSHAKE_RX: byte := 0x42
  const HANDSHAKE_TX: byte := 0x43

  const DEVICE_ID: seq<byte> := [0x1E, 0x93, 0x89]

  datatype UsbState = Unattached | Attached | Configured

  /** One pass of `spi_task` with chip-select low: the two handshake-stage bytes as the slave saw them
      (0 when waiting for one timed out), the data bytes clocked in afterwards, whether the loop turned once
      more before it noticed chip-select, and the USB state, fixed for the transaction. */
  datatype Transaction = Transaction(handshake: byte, command: byte, incoming: seq<byte>,
                                     lateTurn: bool, usb: UsbState, endpointFree: bool)

  predicate Started(t: Transaction) {
    t.handshake == HANDSHAKE_RX && t.command != 0
  }

  // ---- what the slave sends back ----

  /** The bytes covered by the CRC. */
  function ReplyPayload(command: byte): (p: seq<byte>)
    ensures p != []
  {
    if command == CMD_READ_ID then DEVICE_ID else [0]
  }

  /** The k-th byte clocked out after the handshake: the payload, then its CRC for as long as the master clocks. */
  function ReplyByte(command: byte, k: nat): byte {
    var p := ReplyPayload(command);
    if k < |p| then p[k] else Crc(p)
  }

  ghost predicate IsReply(command: byte, outgoing: seq<byte>) {
    forall k :: 0 <= k < |outgoing| ==> outgoing[k] == ReplyByte(command, k)
  }

  // ---- what the USB host is shown ----

  predicate Installs(t: Transaction) {
    Started(t) && t.command == CMD_SET_DESCRIPTOR && t.usb == Unattached && t.incoming != []
  }

  function Truncated(s: seq<byte>, capacity: nat): (r: seq<byte>)
    ensures |r| <= capacity && |r| <= |s|
  {
    if |s| <= capacity then s else s[..capacity]
  }

  /** The report descriptor after a history of transactions: nothing until one installs it, then the control part
      followed by what the last installing transfer carried. */
  function Descriptor(control: seq<byte>, history: seq<Transaction>): seq<byte>
    requires |control| <= REPORT_DESCRIPTOR_MAX_SIZE
  {
    if history == [] then []
    else if Installs(history[|history| - 1]) then
      control + Truncated(history[|history| - 1].incoming, REPORT_DESCRIPTOR_MAX_SIZE - |control|)
    else Descriptor(control, history[..|history| - 1])
  }

  lemma DescriptorSnoc(control: seq<byte>, history: seq<Transaction>, t: Transaction)
    requires |control| <= REPORT_DESCRIPTOR_MAX_SIZE
    ensures Descriptor(control, history + [t]) ==
      if Installs(t) then control + Truncated(t.incoming, REPORT_DESCRIPTOR_MAX_SIZE - |control|)
      else Descriptor(control, history)
  {
    assert (history + [t])[..|history|] == history;
  }

  /** The last installing transfer alone decides the descriptor: no earlier or later transaction leaves a byte. */
  lemma {:induction false} DescriptorIsLastInstalled(control: seq<byte>, history: seq<Transaction>, i: nat)
    requires |control| <= REPORT_DESCRIPTOR_MAX_SIZE
    requires i < |history| && Installs(history[i])
    requires forall j :: i < j < |history| ==> !Installs(history[j])
    ensures Descriptor(control, history)
         == control + Truncated(history[i].incoming, REPORT_DESCRIPTOR_MAX_SIZE - |control|)
  {
    if i < |history| - 1 {
      DescriptorIsLastInstalled(control, history[..|history| - 1], i);
    }
  }

  lemma {:induction false} DescriptorEmptyUntilInstalled(control: seq<byte>, history: seq<Transaction>)
    requires |control| <= REPORT_DESCRIPTOR_MAX_SIZE
    requires forall j :: 0 <= j < |history| ==> !Installs(history[j])
    ensures Descriptor(control, history) == []
  {
    if history != [] {
      DescriptorEmptyUntilInstalled(control, history[..|history| - 1]);
    }
  }

  /** How often a transaction initialises the USB controller. */
  function UsbInits(t: Transaction): nat {
    if Started(t) && t.command == CMD_ENABLE_USB && t.incoming != [] && t.incoming[0] != 0 then 1 else 0
  }

  /** The reports a transaction passes on to the USB host. */
  function ReportsSent(t: Transaction): seq<seq<byte>> {
    if Started(t) && t.command == CMD_SEND_REPORT && t.incoming != [] && t.usb == Configured && t.endpointFree
    then [Truncated(t.incoming, RX_BUF_SIZE)] else []
  }

  class AvrApp {
    const control: seq<byte>
    // spi.c
    var numTx: nat
    var numRx: nat
    var txData: seq<byte>
    var rxData: array<byte>  // where incoming bytes go ...
    var rxBase: nat          // ... and from which offset
    var txIdx: nat
    var rxIdx: nat
    var txCrc: byte
    // spi_commands.c
    const rxBuf: array<byte>
    // descriptors.c
    const reportDesc: array<byte>
    var reportLength: nat
    // effects on the USB side
    var usbInits: nat
    var reports: seq<seq<byte>>

    ghost var history: seq<Transaction>

    constructor (control: seq<byte>)
      requires 0 < |control| < REPORT_DESCRIPTOR_MAX_SIZE
      ensures Valid() && history == [] && this.control == control
      ensures fresh(rxBuf) && fresh(reportDesc)
    {
      this.control := control;
      numTx, numRx, txIdx, rxIdx, txCrc := 0, 0, 0, 0, 0;
      txData := [];
      var buf := new byte[RX_BUF_SIZE](_ => 0);
      rxBuf := buf;
      rxData, rxBase := buf, 0;
      reportDesc := new byte[REPORT_DESCRIPTOR_MAX_SIZE](i => if 0 <= i < |control| then control[i] else 0);
      reportLength := 0;
      usbInits, reports := 0, [];
      history := [];
      new;
      assert reportDesc[..|control|] == control;
    }

    /** Memory layout: the two buffers, and the control part of the descriptor intact. */
    ghost predicate Buffers()
      reads `rxData, `reportLength, rxBuf, reportDesc
    {
      && 0 < |control| < REPORT_DESCRIPTOR_MAX_SIZE
      && rxBuf.Length == RX_BUF_SIZE && reportDesc.Length == REPORT_DESCRIPTOR_MAX_SIZE
      && rxBuf != reportDesc && (rxData == rxBuf || rxData == reportDesc)
      && reportDesc[..|control|] == control
      && reportLength <= REPORT_DESCRIPTOR_MAX_SIZE
    }

    /** Between transactions. */
    ghost predicate Valid()
      reads this, rxBuf, reportDesc
    {
      && Buffers()
      && numTx == numRx == txIdx == rxIdx == 0
      && HostDescriptor() == Descriptor(control, history)
    }

    /** The report case of CALLBACK_USB_GetDescriptor. */
    function HostDescriptor(): seq<byte>
      requires reportLength <= reportDesc.Length
      reads `reportLength, reportDesc
    {
      reportDesc[..reportLength]
    }

    method GetHidReportDescriptorBuffer(usb: UsbState)
      requires Buffers()
      modifies this`numRx, this`rxData, this`rxBase
      ensures usb == Unattached ==>
                numRx == REPORT_DESCRIPTOR_MAX_SIZE - |control| && rxData == reportDesc && rxBase == |control|
      ensures usb != Unattached ==> numRx == 0 && rxData == old(rxData) && rxBase == old(rxBase)
    {
      if usb == Unattached {
        numRx := REPORT_DESCRIPTOR_MAX_SIZE - |control|;
        rxData, rxBase := reportDesc, |control|;
      } else {
        numRx := 0;
      }
    }

    method SetHidReportSize(size: nat, usb: UsbState)
      requires Buffers()
      modifies this`reportLength
      ensures reportLength == if usb == Unattached && |control| + size <= REPORT_DESCRIPTOR_MAX_SIZE
                              then |control| + size else old(reportLength)
    {
      var fullSize := |control| + size;
      if usb == Unattached && fullSize <= REPORT_DESCRIPTOR_MAX_SIZE {
        reportLength := fullSize;
      }
    }

    /** Where the bytes of a command go. */
    ghost predicate Routed(t: Transaction)
      reads `rxData, `rxBase, `numRx
    {
      if t.command == CMD_SET_DESCRIPTOR then
        if t.usb == Unattached then
          rxData == reportDesc && rxBase == |control| && numRx == REPORT_DESCRIPTOR_MAX_SIZE - |control|
        else numRx == 0
      else if t.command == CMD_ENABLE_USB then rxData == rxBuf && rxBase == 0 && numRx == 1
      else if t.command == CMD_SEND_REPORT then rxData == rxBuf && rxBase == 0 && numRx == RX_BUF_SIZE
      else numRx == 0
    }

    method PrepareResponse(t: Transaction) returns (first: byte)
      requires Buffers() && numTx == numRx == 0
      modifies this`numTx, this`txData, this`numRx, this`rxData, this`rxBase
      ensures numTx <= |txData| || numTx == 0
      ensures ReplyPayload(t.command) == [first] + (if numTx == 0 then [] else txData[..numTx])
      ensures Buffers() && Routed(t)
    {
      first := 0;
      if t.command == CMD_READ_ID {
        first := DEVICE_ID[0];
        txData := DEVICE_ID[1..];
        numTx := |DEVICE_ID| - 1;
      } else if t.command == CMD_SET_DESCRIPTOR {
        GetHidReportDescriptorBuffer(t.usb);
      } else if t.command == CMD_ENABLE_USB {
        rxData, rxBase := rxBuf, 0;
        numRx := 1;
      } else if t.command == CMD_SEND_REPORT {
        rxData, rxBase := rxBuf, 0;
        numRx := RX_BUF_SIZE;
      }
    }

    /** Mid-transfer: `sent` bytes queued, the CRC register covering exactly the payload bytes among them. */
    ghost predicate Sending(command: byte, sent: nat)
      reads `numTx, `txData, `txIdx, `txCrc
    {
      var p := ReplyPayload(command);
      && numTx == |p| - 1 && (numTx == 0 || (numTx <= |txData| && p[1..] == txData[..numTx]))
      && txIdx <= numTx && sent >= 1
      && txIdx == (if sent <= |p| then sent - 1 else numTx)
      && txCrc == Crc(p[..txIdx + 1])
    }

    method GetNextTxByte(ghost command: byte, ghost sent: nat) returns (b: byte)
      requires Sending(command, sent)
      modifies this`txIdx, this`txCrc
      ensures Sending(command, sent + 1)
      ensures b == ReplyByte(command, sent)
    {
      ghost var p := ReplyPayload(command);
      if txIdx < numTx {
        b := txData[txIdx];
        assert b == p[1..][txIdx];
        assert p[..txIdx + 2] == p[..txIdx + 1] + [b];
        CrcSnoc(p[..txIdx + 1], b);
        txIdx := txIdx + 1;
        txCrc := UpdateCrc(txCrc, b);
        return;
      }
      assert p[..txIdx + 1] == p;
      return txCrc;
    }

    method StoreRxByte(value: byte)
      requires numRx == 0 || rxBase + numRx <= rxData.Length
      requires rxIdx <= numRx
      modifies this`rxIdx, rxData
      ensures rxIdx == if old(rxIdx) < numRx then old(rxIdx) + 1 else old(rxIdx)
      ensures rxData[..] == if old(rxIdx) < numRx then old(rxData[..])[rxBase + old(rxIdx) := value]
                            else old(rxData[..])
    {
      if rxIdx < numRx {
        rxData[rxBase + rxIdx] := value;
        rxIdx := rxIdx + 1;
      }
    }

    method ProcessTransaction(t: Transaction)
      requires Buffers() && Routed(t)
      requires 0 < rxIdx <= numRx
      modifies this`reportLength, this`usbInits, this`reports
      ensures reportLength == if t.command == CMD_SET_DESCRIPTOR then |control| + rxIdx else old(reportLength)
      ensures usbInits == if t.command == CMD_ENABLE_USB && rxBuf[0] != 0 then old(usbInits) + 1 else old(usbInits)
      ensures reports == if t.command == CMD_SEND_REPORT && t.usb == Configured && t.endpointFree
                         then old(reports) + [rxBuf[..rxIdx]] else old(reports)
    {
      if t.command == CMD_SET_DESCRIPTOR {
        SetHidReportSize(rxIdx, t.usb);
      } else if t.command == CMD_ENABLE_USB {
        if rxBuf[0] != 0 {
          usbInits := usbInits + 1;
        }
      } else if t.command == CMD_SEND_REPORT {
        if t.usb == Configured && t.endpointFree {
          reports := reports + [rxBuf[..rxIdx]];
        }
      }
    }

    /** The bytes received so far are in their buffer and nothing else has moved. */
    ghost predicate Receiving(t: Transaction, received: seq<byte>, desc0: seq<byte>)
      reads `rxData, `rxBase, `numRx, `rxIdx, `reportLength, rxBuf, reportDesc
    {
      && Buffers() && Routed(t)
      && rxIdx == (if |received| < numRx then |received| else numRx)
      && (numRx != 0 ==> rxData[rxBase..rxBase + rxIdx] == received[..rxIdx])
      && (Installs(t) || reportDesc[..] == desc0)
      && |desc0| == reportDesc.Length
      && (received == [] ==> reportDesc[..] == desc0)
    }

    method StoreNext(t: Transaction, ghost received: seq<byte>, ghost desc0: seq<byte>, value: byte)
      requires Receiving(t, received, desc0)
      requires Started(t) && t.incoming != []
      modifies this`rxIdx, rxBuf, reportDesc
      ensures Receiving(t, received + [value], desc0)
    {
      ghost var before := rxData[..];
      ghost var at := rxIdx;
      StoreRxByte(value);
      assert numRx != 0 ==> rxData[rxBase..rxBase + at] == before[rxBase..rxBase + at];
      if numRx != 0 && rxData == reportDesc {
        assert reportDesc[..|control|] == before[..|control|];
      }
    }

    /** One turn of the transfer loop: queue the next byte, then store the one that came in meanwhile. */
    method TransceiveByte(t: Transaction, value: byte, ghost received: seq<byte>, ghost desc0: seq<byte>)
      returns (b: byte)
      requires Started(t) && t.incoming != []
      requires Sending(t.command, |received| + 1) && Receiving(t, received, desc0)
      modifies this`txIdx, this`txCrc, this`rxIdx, rxBuf, reportDesc
      ensures Sending(t.command, |received| + 2) && Receiving(t, received + [value], desc0)
      ensures b == ReplyByte(t.command, |received| + 1)
    {
      b := GetNextTxByte(t.command, |received| + 1);
      StoreNext(t, received, desc0, value);
    }

    /** The data stage: clock bytes until chip-select rises, the first of the reply already on its way. */
    method TransferData(t: Transaction, first: byte, ghost desc0: seq<byte>) returns (outgoing: seq<byte>)
      requires Started(t) && Sending(t.command, 1) && Receiving(t, [], desc0)
      requires first == ReplyByte(t.command, 0)
      modifies this`txIdx, this`txCrc, this`rxIdx, rxBuf, reportDesc
      ensures Sending(t.command, |outgoing|) && Receiving(t, t.incoming, desc0)
      ensures |outgoing| > |t.incoming| && IsReply(t.command, outgoing)
    {
      outgoing := [first];
      for k := 0 to |t.incoming|
        invariant Sending(t.command, k + 1) && Receiving(t, t.incoming[..k], desc0)
        invariant |outgoing| == k + 1 && IsReply(t.command, outgoing)
      {
        assert t.incoming[..k + 1] == t.incoming[..k] + [t.incoming[k]];
        var b := TransceiveByte(t, t.incoming[k], t.incoming[..k], desc0);
        outgoing := outgoing + [b];
      }
      assert t.incoming[..|t.incoming|] == t.incoming;
    }

    /** A last turn of the loop that queues a byte before chip-select is seen high, and stores none. */
    method LateTurn(t: Transaction, sent: seq<byte>) returns (outgoing: seq<byte>)
      requires Sending(t.command, |sent|) && IsReply(t.command, sent)
      modifies this`txIdx, this`txCrc
      ensures Sending(t.command, |outgoing|) && IsReply(t.command, outgoing) && sent <= outgoing
    {
      outgoing := sent;
      if t.incoming != [] && t.lateTurn {
        var b := GetNextTxByte(t.command, |sent|);
        outgoing := sent + [b];
      }
    }

    /** After chip-select rises: act on what was received, if everything was sent. */
    method ActOnReceived(t: Transaction, ghost sent: nat, ghost desc0: seq<byte>)
      requires Started(t) && Sending(t.command, sent) && Receiving(t, t.incoming, desc0)
      modifies this`reportLength, this`usbInits, this`reports
      ensures Buffers()
      ensures HostDescriptor() == if Installs(t)
                then control + Truncated(t.incoming, REPORT_DESCRIPTOR_MAX_SIZE - |control|)
                else desc0[..old(reportLength)]
      ensures usbInits == old(usbInits) + UsbInits(t)
      ensures reports == old(reports) + ReportsSent(t)
    {
      assert t.incoming[..|t.incoming|] == t.incoming;
      if rxIdx != 0 && txIdx == numTx {
        ghost var end := rxBase + rxIdx;
        assert rxData[rxBase..end] == t.incoming[..rxIdx];
        assert rxBase == 0 ==> rxData[..end] == rxData[rxBase..end];
        assert t.command == CMD_ENABLE_USB ==> rxBuf[0] == rxBuf[0..1][0];
        ProcessTransaction(t);
        if Installs(t) {
          assert reportDesc[..reportLength] == reportDesc[..|control|] + reportDesc[|control|..reportLength];
        }
      }
    }

    /** ... and reset the indices. */
    method FinishTransaction(t: Transaction, ghost sent: nat, ghost desc0: seq<byte>)
      requires Started(t) && Sending(t.command, sent) && Receiving(t, t.incoming, desc0)
      modifies this`reportLength, this`usbInits, this`reports, this`numTx, this`numRx, this`txIdx, this`rxIdx
      ensures Buffers() && numTx == numRx == txIdx == rxIdx == 0
      ensures HostDescriptor() == if Installs(t)
                then control + Truncated(t.incoming, REPORT_DESCRIPTOR_MAX_SIZE - |control|)
                else desc0[..old(reportLength)]
      ensures usbInits == old(usbInits) + UsbInits(t)
      ensures reports == old(reports) + ReportsSent(t)
    {
      ActOnReceived(t, sent, desc0);
      numTx, numRx := 0, 0;
      txIdx, rxIdx := 0, 0;
    }

    /** Route the buffers and start the CRC with the byte that goes out first. */
    method BeginTransfer(t: Transaction) returns (first: byte)
      requires Started(t) && Buffers() && numTx == numRx == txIdx == rxIdx == 0
      modifies this`numTx, this`txData, this`numRx, this`rxData, this`rxBase, this`txCrc
      ensures Sending(t.command, 1) && Receiving(t, [], reportDesc[..])
      ensures first == ReplyByte(t.command, 0)
    {
      first := PrepareResponse(t);
      txCrc := UpdateCrc(0, first);
      FirstByteSent(t.command, first);
    }

    /** All bytes of an exchange after a successful handshake. */
    method Transfer(t: Transaction) returns (outgoing: seq<byte>)
      requires Started(t) && Buffers() && numTx == numRx == txIdx == rxIdx == 0
      modifies this`numTx, this`txData, this`numRx, this`rxData, this`rxBase, this`txIdx, this`txCrc, this`rxIdx,
               rxBuf, reportDesc
      ensures Sending(t.command, |outgoing|) && Receiving(t, t.incoming, old(reportDesc[..]))
      ensures |outgoing| > |t.incoming| && IsReply(t.command, outgoing)
    {
      ghost var desc0 := reportDesc[..];
      var first := BeginTransfer(t);
      outgoing := TransferData(t, first, desc0);
      outgoing := LateTurn(t, outgoing);
    }

    /** The whole exchange after a successful handshake. */
    method Serve(t: Transaction) returns (outgoing: seq<byte>)
      requires Started(t) && Buffers() && numTx == numRx == txIdx == rxIdx == 0
      modifies this, rxBuf, reportDesc
      ensures Buffers() && numTx == numRx == txIdx == rxIdx == 0 && history == old(history)
      ensures HostDescriptor() == if Installs(t)
                then control + Truncated(t.incoming, REPORT_DESCRIPTOR_MAX_SIZE - |control|)
                else old(HostDescriptor())
      ensures |outgoing| > |t.incoming|
      ensures IsReply(t.command, outgoing)
      ensures usbInits == old(usbInits) + UsbInits(t)
      ensures reports == old(reports) + ReportsSent(t)
    {
      ghost var desc0 := reportDesc[..];
      assert desc0[..reportLength] == HostDescriptor();
      outgoing := Transfer(t);
      FinishTransaction(t, |outgoing|, desc0);
    }

    /** One pass of the slave's main-loop task. */
    method SpiTask(t: Transaction) returns (outgoing: seq<byte>)
      requires Valid()
      modifies this, rxBuf, reportDesc
      ensures Valid() && history == old(history) + [t]
      ensures outgoing == [] <==> !Started(t)
      ensures Started(t) ==> |outgoing| > |t.incoming|
      ensures IsReply(t.command, outgoing)
      ensures usbInits == old(usbInits) + UsbInits(t)
      ensures reports == old(reports) + ReportsSent(t)
    {
      outgoing := [];
      if t.handshake == HANDSHAKE_RX {
        if t.command != 0 {
          outgoing := Serve(t);
        }
      }
      history := history + [t];
      DescriptorSnoc(control, old(history), t);
    }
  }

  lemma FirstByteSent(command: byte, first: byte)
    requires ReplyPayload(command)[0] == first
    ensures Update(0, first) == Crc(ReplyPayload(command)[..1])
  {
    assert ReplyPayload(command)[..1] == [] + [first];
    CrcSnoc([], first);
  }
}
