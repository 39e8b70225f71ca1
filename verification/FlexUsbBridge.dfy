/** The PIC18 firmware step that bridges the dsPIC (SPI) and the PC (USB HID reports). */
module FlexUsbBridge {
  import opened Basics
  import opened Bytes

  const PACKET_SIZE := 64
  const HEADER_START := 0x15
  const HEADER_COMMAND := 1
  const HEADER_DATA := 2
  const HEADER_ACK := 3
  const COMMAND_CONNECT := 1
  const COMMAND_DISCONNECT := 2

  type Packet = p: Bytes | |p| == PACKET_SIZE witness seq(PACKET_SIZE, _ => 0)

  function SumOf(s: Bytes): nat {
    if s == [] then 0 else SumOf(s[..|s| - 1]) + s[|s| - 1]
  }

  /** The 8-bit sum of everything after the checksum byte. */
  function Checksum(p: Packet): Byte {
    SumOf(p[1..]) % 256
  }

  predicate ChecksumOk(p: Packet) {
    p[0] == Checksum(p)
  }

  // the bit fields of byte 1, low bits first, and the first payload bytes
  function StartField(p: Packet): nat {
    p[1] % 32
  }

  function TypeField(p: Packet): nat {
    p[1] / 32
  }

  function Command(p: Packet): nat {
    (p[5] as int) + 256 * (p[4] as int)
  }

  predicate Valid(p: Packet) {
    ChecksumOk(p) && StartField(p) == HEADER_START
  }

  predicate IsData(p: Packet) {
    Valid(p) && TypeField(p) == HEADER_DATA
  }

  predicate IsCommand(p: Packet, cmd: nat) {
    Valid(p) && TypeField(p) == HEADER_COMMAND && Command(p) == cmd
  }

  /** What one call meets: the request pin each time it is sampled, the bytes the dsPIC
      would shift out, and the bytes of a pending report (none: no report). */
  datatype Input = Input(pinFirst: bool, pinAgain: bool, miso: Packet, report: Report)
  type Report = r: Bytes | |r| <= PACKET_SIZE witness []

  /** What it does: the bytes shifted to the dsPIC, and the packet sent to the PC. */
  datatype Output = Output(mosi: Option<Packet>, usb: Option<Packet>)

  datatype State = State(rx: Packet, tx: Packet, connected: bool, toSendUsb: bool, toSendSpi: bool)

  const RESET := State(Zeros(), Zeros(), false, false, false)

  function Zeros(): Packet {
    seq(PACKET_SIZE, _ => 0)
  }

  predicate Writes(s: State, i: Input) {
    s.toSendSpi && (!i.pinFirst || i.pinAgain)
  }

  predicate Reads(s: State, i: Input) {
    i.pinAgain && (s.toSendSpi ==> i.pinFirst)
  }

  function SpiPhase(s: State, i: Input): State {
    var s' := if Reads(s, i) then s.(tx := i.miso, toSendUsb := ChecksumOk(i.miso)) else s;
    if Writes(s, i) then s'.(toSendSpi := false) else s'
  }

  /** A short report leaves the old bytes behind it. */
  function ReportPhase(s: State, report: Report): State {
    if report == [] then s
    else
      var p := Overlay(s.rx, report);
      s.(rx := p,
         connected := IsCommand(p, COMMAND_CONNECT)
           || (Valid(p) && !IsCommand(p, COMMAND_DISCONNECT) && s.connected),
         toSendSpi := IsData(p) || s.toSendSpi)
  }

  /** Rejected packets, data and acknowledgements end the call before the USB send. */
  predicate ReachesUsb(s: State, report: Report) {
    report == [] ||
    var p := Overlay(s.rx, report);
    Valid(p) && TypeField(p) != HEADER_DATA && TypeField(p) != HEADER_ACK
  }

  function Step(s: State, i: Input): (State, Output) {
    var mosi := if Writes(s, i) then Some(s.rx) else if Reads(s, i) then Some(Zeros()) else None;
    var s1 := SpiPhase(s, i);
    var s2 := ReportPhase(s1, i.report);
    if ReachesUsb(s1, i.report) && s2.connected && s2.toSendUsb
    then (s2.(toSendUsb := false), Output(mosi, Some(s2.tx)))
    else (s2, Output(mosi, None))
  }

  class Bridge {
    const usbRxBuffer: array<Byte>
    const usbTxBuffer: array<Byte>
    var connected: bool
    var toSendUsb: bool
    var toSendSpi: bool
    var led: bool

    ghost predicate WellFormed()
      reads this
    {
      usbRxBuffer.Length == usbTxBuffer.Length == PACKET_SIZE && usbRxBuffer != usbTxBuffer
    }

    ghost function Now(): State
      requires WellFormed()
      reads this, usbRxBuffer, usbTxBuffer
    {
      State(usbRxBuffer[..], usbTxBuffer[..], connected, toSendUsb, toSendSpi)
    }

    constructor ()
      ensures WellFormed() && fresh(usbRxBuffer) && fresh(usbTxBuffer) && Now() == RESET
    {
      usbRxBuffer := new Byte[PACKET_SIZE](_ => 0);
      usbTxBuffer := new Byte[PACKET_SIZE](_ => 0);
      connected, toSendUsb, toSendSpi, led := false, false, false, false;
    }

    method SumAfterHeader(buffer: array<Byte>) returns (sum: Byte)
      requires buffer.Length == PACKET_SIZE
      ensures sum == Checksum(buffer[..])
    {
      sum := 0;
      ghost var p := buffer[..];
      for i := 1 to PACKET_SIZE
        invariant sum == SumOf(p[1..][..i - 1]) % 256
      {
        assert p[1..][..i][..i - 1] == p[1..][..i - 1];
        sum := (sum + buffer[i]) % 256;
      }
      assert p[1..][..63] == p[1..];
    }

    /** Shifts the receive buffer out. */
    method WriteSpi() returns (mosi: Packet)
      requires WellFormed()
      ensures mosi == usbRxBuffer[..]
    {
      var sent: Bytes := [];
      for i := 0 to PACKET_SIZE
        invariant sent == usbRxBuffer[..i]
      {
        sent := sent + [usbRxBuffer[i]];
      }
      mosi := sent;
    }

    /** Shifts zeros or the receive buffer out, and the dsPIC's bytes in. */
    method ReadSpi(miso: Packet, write: bool) returns (mosi: Packet)
      requires WellFormed()
      modifies usbTxBuffer
      ensures usbTxBuffer[..] == miso
      ensures mosi == if write then usbRxBuffer[..] else Zeros()
    {
      var sent: Bytes := [];
      for i := 0 to PACKET_SIZE
        invariant usbTxBuffer[..i] == miso[..i]
        invariant sent == if write then usbRxBuffer[..i] else Zeros()[..i]
      {
        sent := sent + [if write then usbRxBuffer[i] else 0];
        usbTxBuffer[i] := miso[i];
      }
      mosi := sent;
    }

    method ExchangeSpi(input: Input) returns (mosi: Option<Packet>)
      requires WellFormed()
      modifies this`toSendUsb, this`toSendSpi, usbTxBuffer
      ensures Now() == SpiPhase(old(Now()), input)
      ensures mosi == if Writes(old(Now()), input) then Some(old(usbRxBuffer[..]))
                      else if Reads(old(Now()), input) then Some(Zeros()) else None
    {
      mosi := None;
      if toSendSpi && !input.pinFirst {
        var sent := WriteSpi();
        mosi := Some(sent);
        toSendSpi := false;
      } else if !toSendSpi && input.pinAgain {
        var sent := ReadSpi(input.miso, false);
        mosi := Some(sent);
        var sum := SumAfterHeader(usbTxBuffer);
        toSendUsb := usbTxBuffer[0] == sum;
      } else if toSendSpi && input.pinAgain {
        var sent := ReadSpi(input.miso, true);
        mosi := Some(sent);
        var sum := SumAfterHeader(usbTxBuffer);
        toSendUsb := usbTxBuffer[0] == sum;
        toSendSpi := false;
      }
    }

    method Receive(report: Report)
      requires WellFormed()
      modifies usbRxBuffer
      ensures usbRxBuffer[..] == Overlay(old(usbRxBuffer[..]), report)
    {
      forall k | 0 <= k < |report| {
        usbRxBuffer[k] := report[k];
      }
    }

    /** Parses a received report; `done` when the call is to end there. */
    method HandleReport(report: Report) returns (done: bool)
      requires WellFormed() && report != []
      modifies this`connected, this`toSendSpi, this`led, usbRxBuffer
      ensures Now() == ReportPhase(old(Now()), report)
      ensures done <==> !ReachesUsb(old(Now()), report)
    {
      hide Checksum, Overlay;
      Receive(report);
      ghost var p: Packet := usbRxBuffer[..];
      var sum := SumAfterHeader(usbRxBuffer);
      if sum != usbRxBuffer[0] || usbRxBuffer[1] % 32 != HEADER_START {
        assert !Valid(p);
        connected := false;
        return true;
      }
      assert Valid(p);
      var packetType := usbRxBuffer[1] / 32;
      assert packetType == TypeField(p);
      done := packetType == HEADER_DATA || packetType == HEADER_ACK;
      if packetType == HEADER_DATA {
        toSendSpi := true;
      } else if packetType == HEADER_COMMAND {
        var low: int, high: int := usbRxBuffer[5], usbRxBuffer[4];
        var cmd := low + 256 * high;
        assert cmd == Command(p);
        if cmd == COMMAND_CONNECT {
          led, connected := true, true;
        } else if cmd == COMMAND_DISCONNECT {
          led, connected := false, false;
        }
      }
    }

    method FlexUsbProcess(input: Input) returns (output: Output)
      requires WellFormed()
      modifies this`connected, this`toSendUsb, this`toSendSpi, this`led, usbRxBuffer, usbTxBuffer
      ensures (Now(), output) == Step(old(Now()), input)
    {
      hide Checksum, Overlay, SpiPhase, ReportPhase, ReachesUsb;
      ghost var s := Now();
      var mosi := ExchangeSpi(input);
      output := Output(mosi, None);
      ghost var s1 := Now();
      if |input.report| > 0 {
        var done := HandleReport(input.report);
        if done {
          return;
        }
      } else {
        NoReport(s1);
      }
      if connected && toSendUsb {
        output := Output(mosi, Some(usbTxBuffer[..]));
        led := !led;
        toSendUsb := false;
      }
    }
  }

  lemma NoReport(s: State)
    ensures ReportPhase(s, []) == s && ReachesUsb(s, [])
  {
  }

  // ------------------------------------------------------------------ packets on the wire

  /** The sum adds up the bytes. */
  lemma {:induction false} SumOfAppend(a: Bytes, b: Bytes)
    ensures SumOf(a + b) == SumOf(a) + SumOf(b)
  {
    if b == [] {
      assert a + b == a;
    } else {
      SumOfAppend(a, b[..|b| - 1]);
      assert (a + b)[..|a + b| - 1] == a + b[..|b| - 1];
    }
  }

  lemma SumOfOne(x: Byte)
    ensures SumOf([x]) == x
  {
    assert [x][..0] == [];
  }

  lemma {:induction false} SumOfZeros(n: nat)
    ensures SumOf(seq(n, _ => 0)) == 0
  {
    if n == 0 {
    } else {
      SumOfZeros(n - 1);
      assert seq(n, _ => 0)[..n - 1] == seq(n - 1, _ => 0);
    }
  }

  /** A connect (1) or disconnect (2) report as the PC sends it. */
  function CommandPacket(cmd: Byte): Packet
    requires cmd < 200
  {
    [0x35 + cmd, 0x35, 0, 0, 0, cmd] + seq(58, _ => 0)
  }

  lemma CommandPacketIsCommand(cmd: Byte)
    requires cmd < 200
    ensures IsCommand(CommandPacket(cmd), cmd)
  {
    var p := CommandPacket(cmd);
    SumOfAppend([0x35, 0, 0, 0], [cmd] + seq(58, _ => 0));
    SumOfAppend([cmd], seq(58, _ => 0));
    SumOfAppend([0x35], seq(3, _ => 0));
    SumOfOne(0x35);
    SumOfOne(cmd);
    SumOfZeros(3);
    SumOfZeros(58);
    assert [0x35] + seq(3, _ => 0) == [0x35, 0, 0, 0];
    assert p[1..] == [0x35, 0, 0, 0] + ([cmd] + seq(58, _ => 0));
  }

  // ------------------------------------------------------------------------ whole runs

  function Run(inputs: seq<Input>): State {
    if inputs == [] then RESET else Step(Run(AllButLast(inputs)), LastInput(inputs)).0
  }

  function AllButLast(inputs: seq<Input>): seq<Input>
    requires inputs != []
  {
    inputs[..|inputs| - 1]
  }

  function LastInput(inputs: seq<Input>): Input
    requires inputs != []
  {
    inputs[|inputs| - 1]
  }

  function LastOutput(inputs: seq<Input>): Output
    requires inputs != []
  {
    Step(Run(AllButLast(inputs)), LastInput(inputs)).1
  }

  function WhenPresent<T>(o: Option<T>): seq<T> {
    if o.Some? then [o.value] else []
  }

  function WhenTrue<T>(b: bool, x: T): seq<T> {
    if b then [x] else []
  }

  /** The packet a step sends to the dsPIC: a transfer that starts like a packet, not the
      zeros shifted out while only reading. */
  function SentIn(s: State, i: Input): seq<Packet> {
    var mosi := Step(s, i).1.mosi;
    if mosi.Some? && StartField(mosi.value) == HEADER_START then [mosi.value] else []
  }

  function SentToDspic(inputs: seq<Input>): seq<Packet> {
    if inputs == [] then []
    else
      SentToDspic(AllButLast(inputs)) + SentIn(Run(AllButLast(inputs)), LastInput(inputs))
  }

  /** The receive buffer as the report of the last input leaves it. */
  function Image(inputs: seq<Input>): Packet
    requires inputs != []
  {
    Overlay(SpiPhase(Run(AllButLast(inputs)), LastInput(inputs)).rx, LastInput(inputs).report)
  }

  /** The data packets accepted from the PC. */
  function AcceptedFromPc(inputs: seq<Input>): seq<Packet> {
    if inputs == [] then []
    else AcceptedFromPc(AllButLast(inputs)) + WhenTrue(LastInput(inputs).report != [] && IsData(Image(inputs)), Image(inputs))
  }

  function Pending(s: State): seq<Packet> {
    WhenTrue(s.toSendSpi, s.rx)
  }

  ghost predicate Conserved(inputs: seq<Input>) {
    SentToDspic(inputs) + Pending(Run(inputs)) == AcceptedFromPc(inputs)
  }

  /** The pin changed between its two samples while a packet waited, so nothing was
      written, and a report then hit the buffer. */
  predicate Collision(s: State, i: Input) {
    s.toSendSpi && i.pinFirst && !i.pinAgain && i.report != []
  }

  ghost predicate CollisionFree(inputs: seq<Input>) {
    inputs == [] || (CollisionFree(AllButLast(inputs)) && !Collision(Run(AllButLast(inputs)), LastInput(inputs)))
  }

  ghost predicate AlwaysConserved(inputs: seq<Input>) {
    Conserved(inputs) && (inputs != [] ==> AlwaysConserved(AllButLast(inputs)))
  }

  lemma {:induction false} AcceptedAreData(inputs: seq<Input>)
    ensures forall k :: 0 <= k < |AcceptedFromPc(inputs)| ==> IsData(AcceptedFromPc(inputs)[k])
  {
    hide IsData, Image;
    if inputs == [] {
    } else {
      AcceptedAreData(AllButLast(inputs));
    }
  }

  lemma PendingIsData(inputs: seq<Input>)
    requires Conserved(inputs) && Run(inputs).toSendSpi
    ensures IsData(Run(inputs).rx)
  {
    hide IsData, Run, SentToDspic, AcceptedFromPc;
    AcceptedAreData(inputs);
    var a := AcceptedFromPc(inputs);
    assert a[|a| - 1] == Run(inputs).rx;
  }

  /** What one step does to the log of sent packets, the pending one and the accepted one. */
  lemma StepMoves(s: State, i: Input)
    requires s.toSendSpi ==> IsData(s.rx)
    ensures var (s', o) := Step(s, i);
            var image := Overlay(SpiPhase(s, i).rx, i.report);
            var accepted := WhenTrue(i.report != [] && IsData(image), image);
            var sent := SentIn(s, i);
            && (!Collision(s, i) ==> sent + Pending(s') == Pending(s) + accepted)
            && (Collision(s, i) ==> sent == [] && Pending(s') == [image] && (accepted == [image] || (accepted == [] && image != s.rx)))
  {
    hide Checksum, Overlay;
    assert Overlay(s.rx, []) == s.rx by {
      EmptyReport(s.rx);
    }
    assert StartField(Zeros()) != HEADER_START;
  }

  lemma EmptyReport(rx: Packet)
    ensures Overlay(rx, []) == rx
  {
  }

  lemma Balance<T>(sent: seq<T>, p: seq<T>, a: seq<T>, more: seq<T>, p': seq<T>, accepted: seq<T>)
    requires sent + p == a
    ensures more + p' == p + accepted ==> sent + more + p' == a + accepted
    ensures |p| == 1 && more == [] && |p'| == 1 && (accepted == p' || (accepted == [] && p' != p))
        ==> sent + more + p' != a + accepted
  {
    if more + p' == p + accepted {
      ConcatAssoc(sent, more, p');
      ConcatAssoc(sent, p, accepted);
    }
    assert more == [] ==> sent + more == sent;
    assert accepted == [] ==> a + accepted == a;
    assert p == a[|sent|..] && p' == (sent + p')[|sent|..];
  }

  /** PC to dsPIC: at every moment of a run, the packets sent to the dsPIC followed by the
      pending one are the data packets accepted from the PC - each sent once, in order -
      exactly when no collision has happened. */
  lemma {:induction false} ConservedIffCollisionFree(inputs: seq<Input>)
    ensures AlwaysConserved(inputs) <==> CollisionFree(inputs)
  {
    hide Step, SpiPhase, Image, IsData;
    if inputs == [] {
    } else {
      var init := AllButLast(inputs);
      var s, i := Run(init), LastInput(inputs);
      ConservedIffCollisionFree(init);
      if AlwaysConserved(init) {
        if s.toSendSpi {
          PendingIsData(init);
        }
        StepMoves(s, i);
        StepLogs(inputs);
        var image := Overlay(SpiPhase(s, i).rx, i.report);
        Balance(SentToDspic(init), Pending(s), AcceptedFromPc(init), SentIn(s, i), Pending(Run(inputs)),
                WhenTrue(i.report != [] && IsData(image), image));
      }
    }
  }

  lemma StepLogs(inputs: seq<Input>)
    requires inputs != []
    ensures var s, i := Run(AllButLast(inputs)), LastInput(inputs);
            var image := Overlay(SpiPhase(s, i).rx, i.report);
            && SentToDspic(inputs) == SentToDspic(AllButLast(inputs)) + SentIn(s, i)
            && AcceptedFromPc(inputs) == AcceptedFromPc(AllButLast(inputs)) + WhenTrue(i.report != [] && IsData(image), image)
            && Run(inputs) == Step(s, i).0
  {
  }

  /** The pin read as one level throughout each call. */
  ghost predicate SampledOnce(inputs: seq<Input>) {
    forall k :: 0 <= k < |inputs| ==> inputs[k].pinFirst == inputs[k].pinAgain
  }

  lemma {:induction false} SampledOnceIsCollisionFree(inputs: seq<Input>)
    requires SampledOnce(inputs)
    ensures CollisionFree(inputs)
  {
    if inputs == [] {
    } else {
      SampledOnceIsCollisionFree(AllButLast(inputs));
    }
  }

  /** With a pin that holds still during each call nothing from the PC is ever lost. */
  lemma {:induction false} NothingFromPcIsLost(inputs: seq<Input>)
    requires SampledOnce(inputs)
    ensures SentToDspic(inputs) + Pending(Run(inputs)) == AcceptedFromPc(inputs)
  {
    SampledOnceIsCollisionFree(inputs);
    ConservedIffCollisionFree(inputs);
  }

  /** A data packet with one payload byte and zeros after it. */
  function DataPacket(x: Byte): (p: Packet)
    ensures IsData(p)
  {
    var start := HEADER_START + 32 * HEADER_DATA;
    SumOfAppend([start, x], seq(61, _ => 0));
    SumOfAppend([start], [x]);
    SumOfOne(start);
    SumOfOne(x);
    SumOfZeros(61);
    var p: Packet := [(start + x) % 256, start, x] + seq(61, _ => 0);
    assert p[1..] == [start, x] + seq(61, _ => 0);
    p
  }

  /** From reset on, two calls lose a packet: the second report overwrites the first one,
      whose write the changing pin held up. */
  lemma ChangingPinLosesAPacket(x: Byte, y: Byte)
    ensures var first := Input(false, false, Zeros(), DataPacket(x));
            var second := Input(true, false, Zeros(), DataPacket(y));
            var inputs := [first, second];
            && AcceptedFromPc(inputs) == [DataPacket(x), DataPacket(y)]
            && SentToDspic(inputs) == [] && Pending(Run(inputs)) == [DataPacket(y)]
            && !Conserved(inputs)
  {
    hide DataPacket, IsData;
    var p, q := DataPacket(x), DataPacket(y);
    var first, second := Input(false, false, Zeros(), p), Input(true, false, Zeros(), q);
    var inputs := [first, second];
    assert AllButLast(inputs) == [first] && AllButLast([first]) == [];
    assert Overlay(RESET.rx, p) == p && Overlay(p, q) == q;
    StepLogs([first]);
    StepLogs(inputs);
    assert Run([first]).rx == p && Run([first]).toSendSpi;
  }

  /** The reports that are data packets, when every report is a whole packet. */
  function DataReports(inputs: seq<Input>): seq<Packet> {
    if inputs == [] then []
    else DataReports(AllButLast(inputs))
         + if |LastInput(inputs).report| == PACKET_SIZE && IsData(LastInput(inputs).report) then [LastInput(inputs).report] else []
  }

  /** Reports of 64 bytes are accepted as they are, whatever the buffer held before. */
  lemma {:induction false} WholeReportsAreAccepted(inputs: seq<Input>)
    requires forall k :: 0 <= k < |inputs| ==> |inputs[k].report| == 0 || |inputs[k].report| == PACKET_SIZE
    ensures AcceptedFromPc(inputs) == DataReports(inputs)
  {
    hide IsData, SpiPhase, Step;
    if inputs == [] {
    } else {
      WholeReportsAreAccepted(AllButLast(inputs));
      var r := LastInput(inputs).report;
      assert forall rx: Packet :: |r| == PACKET_SIZE ==> Overlay(rx, r) == r;
    }
  }

  // --------------------------------------------------------------- the other direction

  /** The packets read from the dsPIC. */
  function ReadFromDspic(inputs: seq<Input>): seq<Packet> {
    if inputs == [] then []
    else ReadFromDspic(AllButLast(inputs)) + WhenTrue(Reads(Run(AllButLast(inputs)), LastInput(inputs)), LastInput(inputs).miso)
  }

  function SentToPc(inputs: seq<Input>): seq<Packet> {
    if inputs == [] then [] else SentToPc(AllButLast(inputs)) + WhenPresent(LastOutput(inputs).usb)
  }

  /** For each packet sent to the PC, the number of packets read before it was: it is the
      latest read. */
  function Origins(inputs: seq<Input>): seq<nat> {
    if inputs == [] then []
    else Origins(AllButLast(inputs)) + WhenTrue(LastOutput(inputs).usb.Some?, |ReadFromDspic(inputs)|)
  }

  /** Packet `k` of those sent is read number `o[k]`, and checksum-valid; no read is sent twice. */
  ghost predicate OriginsFit(o: seq<nat>, sent: seq<Packet>, read: seq<Packet>) {
    && |o| == |sent|
    && (forall j, k :: 0 <= j < k < |o| ==> o[j] < o[k])
    && forall k :: 0 <= k < |o| ==> 0 < o[k] <= |read| && sent[k] == read[o[k] - 1] && ChecksumOk(sent[k])
  }

  /** What is marked for the PC is the latest read, has a good checksum and is not sent yet. */
  ghost predicate MarkedIsLatest(s: State, o: seq<nat>, read: seq<Packet>) {
    s.toSendUsb ==>
      && read != [] && read[|read| - 1] == s.tx && ChecksumOk(s.tx)
      && (o != [] ==> o[|o| - 1] < |read|)
  }

  lemma FitMoreReads(o: seq<nat>, sent: seq<Packet>, read: seq<Packet>, p: Packet)
    requires OriginsFit(o, sent, read)
    ensures OriginsFit(o, sent, read + [p])
    ensures o != [] ==> o[|o| - 1] < |read + [p]|
  {
    hide ChecksumOk;
  }

  lemma FitSend(o: seq<nat>, sent: seq<Packet>, read: seq<Packet>, p: Packet)
    requires OriginsFit(o, sent, read) && ChecksumOk(p)
    requires read != [] && read[|read| - 1] == p && (o != [] ==> o[|o| - 1] < |read|)
    ensures OriginsFit(o + [|read|], sent + [p], read)
  {
    hide ChecksumOk;
    var o' := o + [|read|];
    forall j, k | 0 <= j < k < |o'|
      ensures o'[j] < o'[k]
    {
      assert k == |o| ==> o[j] <= o[|o| - 1];
    }
  }

  lemma UsbStep(s: State, i: Input)
    ensures var (s', o) := Step(s, i);
            && (Reads(s, i) ==> s'.tx == i.miso && (s'.toSendUsb ==> ChecksumOk(i.miso)))
            && (!Reads(s, i) ==> s'.tx == s.tx && (s'.toSendUsb ==> s.toSendUsb))
            && (o.usb.Some? ==> s'.connected && !s'.toSendUsb && o.usb.value == s'.tx)
            && (o.usb.Some? ==> if Reads(s, i) then ChecksumOk(i.miso) else s.toSendUsb)
  {
    hide Checksum, Overlay;
  }

  lemma UsbStepFits(s: State, i: Input, o: seq<nat>, sent: seq<Packet>, read: seq<Packet>)
    requires OriginsFit(o, sent, read) && MarkedIsLatest(s, o, read)
    ensures var (s', out) := Step(s, i);
            var read' := read + WhenTrue(Reads(s, i), i.miso);
            var o' := o + WhenTrue(out.usb.Some?, |read'|);
            OriginsFit(o', sent + WhenPresent(out.usb), read') && MarkedIsLatest(s', o', read')
  {
    hide Step, ChecksumOk, Reads, OriginsFit;
    UsbStep(s, i);
    var (s', out) := Step(s, i);
    var read' := read + WhenTrue(Reads(s, i), i.miso);
    assert o + [] == o && sent + [] == sent && read + [] == read;
    if Reads(s, i) {
      FitMoreReads(o, sent, read, i.miso);
    }
    if out.usb.Some? {
      FitSend(o, sent, read', s'.tx);
    }
  }

  /** dsPIC to PC: what goes out is checksum-valid, in order and at most once per read; what
      is marked to go out is the latest read. */
  lemma {:induction false} SendsAreReads(inputs: seq<Input>)
    ensures OriginsFit(Origins(inputs), SentToPc(inputs), ReadFromDspic(inputs))
    ensures MarkedIsLatest(Run(inputs), Origins(inputs), ReadFromDspic(inputs))
  {
    if inputs == [] {
    } else {
      hide Run, Step, Reads, SentToPc, ReadFromDspic, Origins, OriginsFit, MarkedIsLatest;
      SendsAreReads(AllButLast(inputs));
      UsbLogs(inputs);
      UsbStepFits(Run(AllButLast(inputs)), LastInput(inputs), Origins(AllButLast(inputs)), SentToPc(AllButLast(inputs)), ReadFromDspic(AllButLast(inputs)));
    }
  }

  lemma UsbLogs(inputs: seq<Input>)
    requires inputs != []
    ensures var s, i := Run(AllButLast(inputs)), LastInput(inputs);
            && Run(inputs) == Step(s, i).0
            && ReadFromDspic(inputs) == ReadFromDspic(AllButLast(inputs)) + WhenTrue(Reads(s, i), i.miso)
            && SentToPc(inputs) == SentToPc(AllButLast(inputs)) + WhenPresent(Step(s, i).1.usb)
            && Origins(inputs) == Origins(AllButLast(inputs)) + WhenTrue(Step(s, i).1.usb.Some?, |ReadFromDspic(inputs)|)
  {
    hide Step, Reads;
  }

  /** With a pin that holds still, the bridge reads the dsPIC in exactly the calls in which
      the pin is high. */
  lemma {:induction false} ReadsWhenAsked(inputs: seq<Input>)
    requires SampledOnce(inputs)
    ensures ReadFromDspic(inputs) == AskedFor(inputs)
  {
    hide Step, SpiPhase;
    if inputs == [] {
    } else {
      ReadsWhenAsked(AllButLast(inputs));
    }
  }

  /** What the dsPIC shifts out in the calls in which the pin is high. */
  function AskedFor(inputs: seq<Input>): seq<Packet> {
    if inputs == [] then []
    else AskedFor(AllButLast(inputs)) + if LastInput(inputs).pinFirst then [LastInput(inputs).miso] else []
  }

  /** And every accepted packet goes to the dsPIC in the very next call. */
  lemma SentInTheNextCall(inputs: seq<Input>)
    requires inputs != [] && SampledOnce(inputs)
    ensures SentToDspic(inputs) == AcceptedFromPc(AllButLast(inputs))
  {
    hide Run, SentToDspic, AcceptedFromPc, IsData;
    var init := AllButLast(inputs);
    NothingFromPcIsLost(init);
    StepLogs(inputs);
    if Run(init).toSendSpi {
      PendingIsData(init);
      DataStarts(Run(init).rx);
    }
    StillPinSends(Run(init), LastInput(inputs));
  }

  lemma DataStarts(p: Packet)
    requires IsData(p)
    ensures StartField(p) == HEADER_START
  {
  }

  lemma StillPinSends(s: State, i: Input)
    requires i.pinFirst == i.pinAgain && (s.toSendSpi ==> StartField(s.rx) == HEADER_START)
    ensures SentIn(s, i) == Pending(s)
  {
    hide Checksum, Overlay;
    assert StartField(Zeros()) != HEADER_START;
  }

  // ----------------------------------------------------------------- when a packet goes out

  datatype Verdict = Connects | Disconnects | Silent

  /** What a received packet says about the connection. */
  function VerdictOf(p: Packet): Verdict {
    if !Valid(p) || IsCommand(p, COMMAND_DISCONNECT) then Disconnects
    else if IsCommand(p, COMMAND_CONNECT) then Connects
    else Silent
  }

  function LatestVerdict(inputs: seq<Input>): Verdict {
    if inputs == [] then Silent
    else if LastInput(inputs).report == [] || VerdictOf(Image(inputs)) == Silent then LatestVerdict(AllButLast(inputs))
    else VerdictOf(Image(inputs))
  }

  /** The bridge counts as connected exactly when the latest packet with a say - a connect,
      a disconnect or a rejected one - was a connect; only then does it send to the PC. */
  lemma {:induction false} ConnectedIffLatestVerdict(inputs: seq<Input>)
    ensures Run(inputs).connected <==> LatestVerdict(inputs) == Connects
    ensures inputs != [] && LastOutput(inputs).usb.Some? ==> LatestVerdict(inputs) == Connects
  {
    hide Checksum, Overlay, SpiPhase;
    if inputs == [] {
    } else {
      ConnectedIffLatestVerdict(AllButLast(inputs));
      SpiKeepsConnection(Run(AllButLast(inputs)), LastInput(inputs));
    }
  }

  lemma SpiKeepsConnection(s: State, i: Input)
    ensures SpiPhase(s, i).connected == s.connected
  {
  }

  /** The latest read has a good checksum and has not been sent. */
  predicate LatestIsUnsent(o: seq<nat>, read: seq<Packet>) {
    read != [] && ChecksumOk(read[|read| - 1]) && (o == [] || o[|o| - 1] < |read|)
  }

  /** No report, or a valid one that is neither data nor an acknowledgement. */
  predicate LetsThrough(report: Report, image: Packet) {
    report == [] || (Valid(image) && TypeField(image) != HEADER_DATA && TypeField(image) != HEADER_ACK)
  }

  /** When a call sends to the PC, and what stays marked. */
  lemma UsbStepExactly(s: State, i: Input)
    ensures var (s', o) := Step(s, i);
            var marked := if Reads(s, i) then ChecksumOk(i.miso) else s.toSendUsb;
            && (o.usb.Some? <==> s'.connected && marked && LetsThrough(i.report, Overlay(SpiPhase(s, i).rx, i.report)))
            && (s'.toSendUsb <==> marked && o.usb == None)
  {
    hide Checksum, Overlay;
  }

  lemma MarkedStep(o: seq<nat>, read: seq<Packet>, fetched: bool, p: Packet, sent: bool)
    requires forall k :: 0 <= k < |o| ==> o[k] <= |read|
    ensures var read' := read + WhenTrue(fetched, p);
            && (LatestIsUnsent(o, read') <==> if fetched then ChecksumOk(p) else LatestIsUnsent(o, read))
            && (sent ==> !LatestIsUnsent(o + WhenTrue(sent, |read'|), read'))
            && o + WhenTrue(false, |read'|) == o
  {
    hide ChecksumOk;
    assert !fetched ==> read + WhenTrue(fetched, p) == read;
  }

  /** A packet is marked for the PC exactly while the latest read is good and not sent. */
  lemma {:induction false} MarkedIffLatestIsUnsent(inputs: seq<Input>)
    ensures Run(inputs).toSendUsb <==> LatestIsUnsent(Origins(inputs), ReadFromDspic(inputs))
  {
    if inputs == [] {
    } else {
      hide Run, Step, Reads, SentToPc, ReadFromDspic, Origins, LatestIsUnsent, ChecksumOk;
      var init := AllButLast(inputs);
      var s, i := Run(init), LastInput(inputs);
      MarkedIffLatestIsUnsent(init);
      SendsAreReads(init);
      UsbLogs(inputs);
      UsbStepExactly(s, i);
      MarkedStep(Origins(init), ReadFromDspic(init), Reads(s, i), i.miso, Step(s, i).1.usb.Some?);
    }
  }

  /** A call sends to the PC if and only if the bridge is connected, the latest read is good
      and not sent yet, and no report ends the call early. */
  lemma SendsIff(inputs: seq<Input>)
    requires inputs != []
    ensures LastOutput(inputs).usb.Some?
       <==> LatestVerdict(inputs) == Connects
            && LatestIsUnsent(Origins(AllButLast(inputs)), ReadFromDspic(inputs))
            && LetsThrough(LastInput(inputs).report, Image(inputs))
  {
    hide Run, Step, Reads, SentToPc, ReadFromDspic, Origins, LatestIsUnsent, ChecksumOk, LatestVerdict, LetsThrough;
    var init := AllButLast(inputs);
    var s, i := Run(init), LastInput(inputs);
    MarkedIffLatestIsUnsent(init);
    SendsAreReads(init);
    UsbLogs(inputs);
    UsbStepExactly(s, i);
    ConnectedIffLatestVerdict(inputs);
    MarkedStep(Origins(init), ReadFromDspic(init), Reads(s, i), i.miso, false);
  }

  /** From reset on, a connect report and then a read: the packet read goes to the PC. */
  lemma ConnectThenReadSends(x: Byte, inputs: seq<Input>)
    requires inputs == [Input(false, false, Zeros(), CommandPacket(COMMAND_CONNECT)), Input(true, true, DataPacket(x), [])]
    ensures LastOutput(inputs).usb == Some(DataPacket(x))
  {
    hide DataPacket, CommandPacket, IsCommand, Checksum;
    var p := CommandPacket(COMMAND_CONNECT);
    CommandPacketIsCommand(COMMAND_CONNECT);
    assert AllButLast(inputs) == inputs[..1] && AllButLast(inputs[..1]) == [];
    assert Overlay(RESET.rx, p) == p;
    assert Run(inputs[..1]).connected && !Run(inputs[..1]).toSendSpi by {
      assert Valid(p) && TypeField(p) == HEADER_COMMAND by {
        CommandIsValid(p);
      }
    }
    DataIsValid(DataPacket(x));
    NoReport(SpiPhase(Run(inputs[..1]), inputs[1]));
  }

  lemma CommandIsValid(p: Packet)
    requires IsCommand(p, COMMAND_CONNECT)
    ensures Valid(p) && TypeField(p) == HEADER_COMMAND
  {
  }

  lemma DataIsValid(p: Packet)
    requires IsData(p)
    ensures ChecksumOk(p)
  {
  }
}
