/** The frame-cycle counters of the Scicos-to-USB library, and the UDP gateway's main loop on
    top of them. Samples are opaque 32-bit patterns. */
module UsbScicos {
  import opened Basics

  type Sample = int

  const CHANNELS := 15
  const WRITE_BLOCK := 0
  const READ_BLOCK := 1

  type Frame = f: seq<Sample> | |f| == CHANNELS witness seq(CHANNELS, _ => 0)
  type Arrival = f: seq<Sample> | |f| <= CHANNELS witness []

  datatype Reader = Reader(blocks: nat, expected: nat, frame: Frame)

  /** The writing side of the library. */
  datatype Session = Session(initialized: bool, blocks: nat, expected: nat, frame: Frame)

  datatype ReadCall = ReadCall(channel: nat, arrived: Arrival)

  /** The calls that matter to the writing side. `startup` is what setting up the USB library
      and the threads returns, should it still have to be done; a negative value refuses. */
  datatype Event = Register(blockType: nat, startup: int) | Write(channel: nat, value: Sample)

  const NEW_SESSION := Session(false, 0, 0, seq(CHANNELS, _ => 0))

  /** One read call: a new frame is fetched when the counter stands at zero, overwriting as
      much of the old one as has arrived. */
  function ReadStep(r: Reader, call: ReadCall): (Reader, Sample)
    requires r.blocks > 0
  {
    if call.channel >= CHANNELS then (r, 0)
    else
      var f := if r.expected == 0 then Overlay(r.frame, call.arrived) else r.frame;
      (Reader(r.blocks, (r.expected + 1) % r.blocks, f), f[call.channel])
  }

  predicate Refused(s: Session, e: Event) {
    e.Register? && !s.initialized && e.startup < 0
  }

  predicate RegistersWriter(s: Session, e: Event) {
    e.Register? && !Refused(s, e) && e.blockType == WRITE_BLOCK
  }

  predicate CountedWrite(s: Session, e: Event) {
    e.Write? && e.channel < CHANNELS && s.initialized
  }

  /** One call: a write sends the frame when the counter reaches the number of blocks; a
      registration leaves counter and frame alone. */
  function Step(s: Session, e: Event): (Session, Option<Frame>) {
    if e.Register? then
      if Refused(s, e) then (s, None)
      else (s.(initialized := true, blocks := s.blocks + if RegistersWriter(s, e) then 1 else 0), None)
    else if CountedWrite(s, e) then
      var f := s.frame[e.channel := e.value];
      if s.expected + 1 == s.blocks then (s.(expected := 0, frame := f), Some(f))
      else (s.(expected := s.expected + 1, frame := f), None)
    else (s, None)
  }

  /** How many starts fail before the first one that succeeds. */
  function Failures(startups: seq<int>): (n: nat)
    ensures n <= |startups| && forall k :: 0 <= k < n ==> startups[k] < 0
    ensures n < |startups| ==> startups[n] >= 0
  {
    if startups == [] || startups[0] >= 0 then 0 else 1 + Failures(startups[1..])
  }

  class Library {
    var initialized: bool
    var readBlocks: nat
    var writeBlocks: nat
    var readExpected: nat
    var writeExpected: nat
    const rx: array<Sample>
    const tx: array<Sample>

    ghost predicate Valid()
      reads this
    {
      rx.Length == tx.Length == CHANNELS && rx != tx && (!initialized ==> readBlocks == writeBlocks == 0)
    }

    ghost function AsReader(): Reader
      requires Valid()
      reads this, rx
    {
      Reader(readBlocks, readExpected, rx[..])
    }

    ghost function AsSession(): Session
      requires Valid()
      reads this, tx
    {
      Session(initialized, writeBlocks, writeExpected, tx[..])
    }

    constructor ()
      ensures Valid() && fresh(rx) && fresh(tx)
      ensures AsReader() == Reader(0, 0, seq(CHANNELS, _ => 0)) && AsSession() == NEW_SESSION
    {
      initialized, readBlocks, writeBlocks, readExpected, writeExpected := false, 0, 0, 0, 0;
      rx := new Sample[CHANNELS](_ => 0);
      tx := new Sample[CHANNELS](_ => 0);
    }

    /** Registers a block, unless this is the first time and starting up fails. The counters
        keep running. */
    method Init(blockType: nat, startup: int) returns (ret: int)
      requires Valid()
      modifies this`initialized, this`readBlocks, this`writeBlocks
      ensures Valid() && AsSession() == Step(old(AsSession()), Register(blockType, startup)).0
      ensures AsReader() == old(AsReader()).(blocks := old(readBlocks) + if initialized && blockType == READ_BLOCK then 1 else 0)
      ensures ret == if old(initialized) then 1 else if startup < 0 then startup else 0
    {
      if !initialized && startup < 0 {
        return startup;
      }
      ret := if initialized then 1 else 0;
      initialized := true;
      if blockType == WRITE_BLOCK {
        writeBlocks := writeBlocks + 1;
      } else if blockType == READ_BLOCK {
        readBlocks := readBlocks + 1;
      }
    }

    /** With no read block registered an in-range read divides by zero. */
    method Read(channel: nat, arrived: Arrival) returns (val: Sample)
      requires Valid() && (initialized ==> readBlocks > 0)
      modifies this`readExpected, rx
      ensures !initialized ==> val == 0 && AsReader() == old(AsReader())
      ensures initialized ==> (AsReader(), val) == ReadStep(old(AsReader()), ReadCall(channel, arrived))
    {
      val := 0;
      if channel < CHANNELS && initialized {
        if readExpected == 0 {
          forall k | 0 <= k < |arrived| {
            rx[k] := arrived[k];
          }
          assert rx[..] == Overlay(old(rx[..]), arrived);
        }
        readExpected := (readExpected + 1) % readBlocks;
        val := rx[channel];
      }
    }

    method Write(channel: nat, value: Sample) returns (usb: Option<Frame>)
      requires Valid()
      modifies this`writeExpected, tx
      ensures (AsSession(), usb) == Step(old(AsSession()), Event.Write(channel, value))
    {
      usb := None;
      if channel < CHANNELS && initialized {
        tx[channel] := value;
        writeExpected := writeExpected + 1;
        if writeExpected == writeBlocks {
          usb := Some(tx[..]);
          writeExpected := 0;
        }
      }
    }

    /** The gateway's thirty registrations: only those before the first start that succeeds
        are refused, and only the last result is looked at. */
    method Open(startups: seq<int>) returns (ret: int)
      requires Valid() && !initialized && |startups| == 2 * CHANNELS
      modifies this`initialized, this`readBlocks, this`writeBlocks
      ensures Valid() && (initialized <==> Failures(startups) < |startups|)
      ensures readBlocks == if Failures(startups) < CHANNELS then CHANNELS - Failures(startups) else 0
      ensures writeBlocks == if Failures(startups) < CHANNELS then CHANNELS else 2 * CHANNELS - Failures(startups)
      ensures readExpected == old(readExpected) && rx[..] == old(rx[..])
      ensures ret < 0 <==> !initialized
    {
      ret := 0;
      ghost var first := Failures(startups);
      for i := 0 to CHANNELS
        invariant Valid() && (initialized <==> first < i) && (i > 0 ==> (ret < 0 <==> !initialized))
        invariant writeBlocks == 0 && readBlocks == if first < i then i - first else 0
      {
        ret := Init(READ_BLOCK, startups[i]);
      }
      for i := CHANNELS to 2 * CHANNELS
        invariant Valid() && (initialized <==> first < i) && (ret < 0 <==> !initialized)
        invariant readBlocks == if first < CHANNELS then CHANNELS - first else 0
        invariant writeBlocks == if first < CHANNELS then i - CHANNELS else if first < i then i - first else 0
      {
        ret := Init(WRITE_BLOCK, startups[i]);
      }
    }

    /** Reads channels 0..14 in order: the datagram is one whole device frame. */
    method FillDatagram(arrived: Arrival) returns (datagram: Frame)
      requires Valid() && initialized && readBlocks == CHANNELS && readExpected == 0
      modifies this`readExpected, rx
      ensures readExpected == 0 && datagram == rx[..] == Overlay(old(rx[..]), arrived)
    {
      ghost var f: Frame := Overlay(rx[..], arrived);
      var buffer: seq<Sample> := [];
      for i := 0 to CHANNELS
        invariant |buffer| == i && readExpected == if i == CHANNELS then 0 else i
        invariant i == 0 ==> rx[..] == old(rx[..])
        invariant i > 0 ==> rx[..] == f
        invariant forall k :: 0 <= k < i ==> buffer[k] == f[k]
      {
        var val := Read(i, arrived);
        assert rx[..] == f;
        buffer := buffer + [val];
      }
      datagram := buffer;
    }

    /** Writes channels 0..14 in order: the frame goes out whole in one USB write. */
    method SendFrame(received: Frame) returns (usb: seq<Frame>)
      requires Valid() && initialized && writeBlocks == CHANNELS && writeExpected == 0
      modifies this`writeExpected, tx
      ensures writeExpected == 0 && usb == [received] && tx[..] == received
    {
      usb := [];
      for i := 0 to CHANNELS
        invariant writeExpected == if i == CHANNELS then 0 else i
        invariant forall k :: 0 <= k < i ==> tx[k] == received[k]
        invariant i < CHANNELS ==> usb == []
        invariant i == CHANNELS ==> usb == [tx[..]]
      {
        ghost var before := tx[..];
        var out := Write(i, received[i]);
        assert tx[..] == before[i := received[i]];
        if out.Some? {
          usb := usb + [out.value];
        }
      }
      assert tx[..] == received;
    }

    /** One turn of the gateway's loop with 15 blocks each way. */
    method Forward(arrived: Arrival, received: Frame) returns (datagram: Frame, usb: seq<Frame>)
      requires Valid() && initialized && readBlocks == writeBlocks == CHANNELS && readExpected == writeExpected == 0
      modifies this`readExpected, this`writeExpected, rx, tx
      ensures readExpected == writeExpected == 0
      ensures datagram == rx[..] == Overlay(old(rx[..]), arrived)
      ensures usb == [received] && tx[..] == received
    {
      datagram := FillDatagram(arrived);
      usb := SendFrame(received);
    }
  }

  // --------------------------------------------------------------------- reading passes

  function ReaderAfter(r: Reader, calls: seq<ReadCall>, k: nat): (after: Reader)
    requires r.blocks > 0 && k <= |calls|
    ensures after.blocks == r.blocks
  {
    if k == 0 then r else ReadStep(ReaderAfter(r, calls, k - 1), calls[k - 1]).0
  }

  function ValueOf(r: Reader, calls: seq<ReadCall>, k: nat): Sample
    requires r.blocks > 0 && k < |calls|
  {
    ReadStep(ReaderAfter(r, calls, k), calls[k]).1
  }

  /** How many of the first `k` calls name an existing channel. */
  function InRange(calls: seq<ReadCall>, k: nat): nat
    requires k <= |calls|
  {
    if k == 0 then 0 else InRange(calls, k - 1) + if calls[k - 1].channel < CHANNELS then 1 else 0
  }

  /** The frame after the fetches at the start of every pass of `n` in-range calls begun
      within the first `k` calls. */
  function Fetched(frame: Frame, calls: seq<ReadCall>, n: nat, k: nat): Frame
    requires n > 0 && k <= |calls|
  {
    if k == 0 then frame
    else if calls[k - 1].channel < CHANNELS && InRange(calls, k - 1) % n == 0
    then Overlay(Fetched(frame, calls, n, k - 1), calls[k - 1].arrived)
    else Fetched(frame, calls, n, k - 1)
  }

  /** Counting one more: the next pass begins exactly when this one is full. */
  lemma NextMod(k: nat, n: nat)
    requires n > 0
    ensures (k % n + 1) % n == (k + 1) % n
    ensures k % n + 1 == n ==> (k + 1) % n == 0 && (k + 1) / n == k / n + 1
    ensures k % n + 1 != n ==> (k + 1) % n == k % n + 1 && (k + 1) / n == k / n
  {
    var q, r := k / n, k % n;
    assert k + 1 == q * n + (r + 1);
    if r + 1 == n {
      assert k + 1 == (q + 1) * n + 0;
      DivModUnique(k + 1, q + 1, 0, n);
      DivModUnique(n, 1, 0, n);
    } else {
      DivModUnique(k + 1, q, r + 1, n);
      DivModUnique(r + 1, 0, r + 1, n);
    }
  }

  /** Within a pass that has begun, no count stands at its beginning. */
  lemma WithinPass(a: nat, b: nat, c: nat, n: nat)
    requires n > 0 && a <= b <= c && a / n == c / n && a % n != 0
    ensures a / n == b / n && b % n != 0 && c % n != 0
  {
    DivMono(a, b, n);
    DivMono(b, c, n);
    var q := a / n;
    assert a == q * n + a % n && b == q * n + b % n && c == q * n + c % n;
  }

  /** One count on within a pass, the pass has begun. */
  lemma PassBegun(a: nat, b: nat, n: nat)
    requires n > 0 && a + 1 <= b && a / n == b / n
    ensures (a + 1) / n == b / n && (a + 1) % n != 0
  {
    DivMono(a, a + 1, n);
    DivMono(a + 1, b, n);
    NextMod(a, n);
  }

  lemma FirstCounter(n: nat)
    requires n > 0
    ensures 0 % n == 0
  {
  }

  /** The counter stays below the number of blocks and counts in-range calls; the frame only
      changes at the first call of a pass. */
  lemma {:induction false} CounterCountsCalls(r: Reader, calls: seq<ReadCall>, k: nat)
    requires r.blocks > 0 && r.expected == 0 && k <= |calls|
    ensures ReaderAfter(r, calls, k) == Reader(r.blocks, InRange(calls, k) % r.blocks, Fetched(r.frame, calls, r.blocks, k))
  {
    hide Overlay;
    if k == 0 {
      FirstCounter(r.blocks);
    } else {
      CounterCountsCalls(r, calls, k - 1);
      NextMod(InRange(calls, k - 1), r.blocks);
    }
  }

  lemma {:induction false} SamePassSameFrame(frame: Frame, calls: seq<ReadCall>, n: nat, j: nat, k: nat)
    requires n > 0 && j <= k <= |calls|
    requires InRange(calls, j) % n != 0 && InRange(calls, j) / n == InRange(calls, k) / n
    ensures InRange(calls, k) % n != 0
    ensures Fetched(frame, calls, n, j) == Fetched(frame, calls, n, k)
    decreases k
  {
    if j == k {
    } else {
      InRangeMono(calls, j, k - 1);
      WithinPass(InRange(calls, j), InRange(calls, k - 1), InRange(calls, k), n);
      SamePassSameFrame(frame, calls, n, j, k - 1);
    }
  }

  lemma {:induction false} InRangeMono(calls: seq<ReadCall>, j: nat, k: nat)
    requires j <= k <= |calls|
    ensures InRange(calls, j) <= InRange(calls, k)
    decreases k
  {
    if j == k {
    } else {
      InRangeMono(calls, j, k - 1);
    }
  }

  lemma DivMono(a: nat, b: nat, n: nat)
    requires a <= b && n > 0
    ensures a / n <= b / n
  {
    if b / n < a / n {
      MulMono(b / n + 1, a / n, n);
    }
  }

  /** All in-range reads of one pass see one and the same frame. */
  lemma OnePassOneFrame(r: Reader, calls: seq<ReadCall>, j: nat, k: nat)
    requires r.blocks > 0 && r.expected == 0 && j <= k < |calls|
    requires calls[j].channel < CHANNELS && calls[k].channel < CHANNELS
    requires InRange(calls, j) / r.blocks == InRange(calls, k) / r.blocks
    ensures ValueOf(r, calls, j) == Fetched(r.frame, calls, r.blocks, j + 1)[calls[j].channel]
    ensures ValueOf(r, calls, k) == Fetched(r.frame, calls, r.blocks, j + 1)[calls[k].channel]
  {
    var n := r.blocks;
    CounterCountsCalls(r, calls, j);
    CounterCountsCalls(r, calls, k);
    if j < k {
      InRangeMono(calls, j + 1, k);
      PassBegun(InRange(calls, j), InRange(calls, k), n);
      SamePassSameFrame(r.frame, calls, n, j + 1, k);
    }
  }

  // ------------------------------------------------------------------- whole datagrams

  /** The gateway reads channels 0..14 over and over. */
  ghost predicate Cyclic(calls: seq<ReadCall>) {
    forall k :: 0 <= k < |calls| ==> calls[k].channel == k % CHANNELS
  }

  /** The values of datagram `t`. */
  function Datagram(r: Reader, calls: seq<ReadCall>, t: nat): seq<Sample>
    requires r.blocks > 0 && CHANNELS * t + CHANNELS <= |calls|
  {
    seq(CHANNELS, c requires 0 <= c < CHANNELS && r.blocks > 0 && CHANNELS * t + CHANNELS <= |calls| =>
      ValueOf(r, calls, CHANNELS * t + c))
  }

  /** Datagram `t`, when there are calls enough for it, is the frame that its first read saw. */
  ghost predicate WholeDatagram(r: Reader, calls: seq<ReadCall>, t: nat)
    requires r.blocks > 0
  {
    CHANNELS * t + CHANNELS <= |calls| ==> Datagram(r, calls, t) == ReaderAfter(r, calls, CHANNELS * t + 1).frame
  }

  ghost predicate AlwaysWhole(r: Reader)
    requires r.blocks > 0
  {
    forall calls, t: nat :: Cyclic(calls) ==> WholeDatagram(r, calls, t)
  }

  lemma {:induction false} AllInRange(calls: seq<ReadCall>, k: nat)
    requires Cyclic(calls) && k <= |calls|
    ensures InRange(calls, k) == k
  {
    if k == 0 {
    } else {
      AllInRange(calls, k - 1);
    }
  }

  /** Call `k` sees the frame as it is after the call, which is a new one when `k` begins a pass. */
  lemma CyclicRead(r: Reader, calls: seq<ReadCall>, k: nat)
    requires r.blocks > 0 && r.expected == 0 && Cyclic(calls) && k < |calls|
    ensures var after := ReaderAfter(r, calls, k + 1).frame;
            && ValueOf(r, calls, k) == after[k % CHANNELS]
            && after == if k % r.blocks == 0 then Overlay(ReaderAfter(r, calls, k).frame, calls[k].arrived)
                        else ReaderAfter(r, calls, k).frame
  {
    hide Overlay;
    AllInRange(calls, k);
    CounterCountsCalls(r, calls, k);
  }

  lemma MultipleOfMultiple(k: nat, n: nat)
    requires n > 0 && n % CHANNELS == 0 && k % n == 0
    ensures k % CHANNELS == 0
  {
    var m, q := n / CHANNELS, k / n;
    assert k == q * n && n == m * CHANNELS;
    assert q * (m * CHANNELS) == (q * m) * CHANNELS;
    DivModUnique(k, q * m, 0, CHANNELS);
  }

  lemma {:induction false} SameFrameThroughout(r: Reader, calls: seq<ReadCall>, t: nat, c: nat)
    requires r.blocks > 0 && r.expected == 0 && r.blocks % CHANNELS == 0 && Cyclic(calls)
    requires c < CHANNELS && CHANNELS * t + CHANNELS <= |calls|
    ensures ReaderAfter(r, calls, CHANNELS * t + c + 1).frame == ReaderAfter(r, calls, CHANNELS * t + 1).frame
  {
    hide ReaderAfter, ReadStep;
    if c == 0 {
    } else {
      SameFrameThroughout(r, calls, t, c - 1);
      var k := CHANNELS * t + c;
      CyclicRead(r, calls, k);
      DivModUnique(k, t, c, CHANNELS);
      if k % r.blocks == 0 {
        MultipleOfMultiple(k, r.blocks);
      }
    }
  }

  /** A run in which the second frame differs from the first. */
  function TwoFrames(n: nat, length: nat): (calls: seq<ReadCall>)
    ensures |calls| == length && Cyclic(calls)
  {
    seq(length, k requires 0 <= k < length => ReadCall(k % CHANNELS, seq(CHANNELS, _ => if k < n then 0 else 1)))
  }

  lemma {:induction false} FirstFrameStays(r: Reader, n: nat, length: nat, k: nat)
    requires r.blocks == n > 0 && r.expected == 0 && 0 < k <= n && k <= length
    ensures ReaderAfter(r, TwoFrames(n, length), k).frame == seq(CHANNELS, _ => 0)
  {
    hide ReaderAfter, ReadStep;
    var calls := TwoFrames(n, length);
    CyclicRead(r, calls, k - 1);
    DivModUnique(k - 1, 0, k - 1, n);
    if k == 1 {
    } else {
      FirstFrameStays(r, n, length, k - 1);
    }
  }

  lemma MultiplesAreWhole(r: Reader, calls: seq<ReadCall>, t: nat)
    requires r.blocks > 0 && r.expected == 0 && r.blocks % CHANNELS == 0 && Cyclic(calls)
    ensures WholeDatagram(r, calls, t)
  {
    hide ReaderAfter, ValueOf, Cyclic;
    if CHANNELS * t + CHANNELS <= |calls| {
      var frame := ReaderAfter(r, calls, CHANNELS * t + 1).frame;
      forall c | 0 <= c < CHANNELS
        ensures Datagram(r, calls, t)[c] == frame[c]
      {
        CyclicRead(r, calls, CHANNELS * t + c);
        SameFrameThroughout(r, calls, t, c);
        DivModUnique(CHANNELS * t + c, t, c, CHANNELS);
      }
    }
  }

  lemma SecondFrameArrives(r: Reader, length: nat)
    requires 0 < r.blocks < length && r.expected == 0
    ensures ValueOf(r, TwoFrames(r.blocks, length), r.blocks) == 1
  {
    hide ReaderAfter, ReadStep, ValueOf, Cyclic;
    CyclicRead(r, TwoFrames(r.blocks, length), r.blocks);
    DivModUnique(r.blocks, 1, 0, r.blocks);
  }

  lemma OthersAreTorn(r: Reader, t: nat, c: nat)
    requires r.blocks == CHANNELS * t + c && r.expected == 0 && 0 < c < CHANNELS
    ensures !WholeDatagram(r, TwoFrames(r.blocks, CHANNELS * t + CHANNELS), t)
  {
    hide ReaderAfter, ReadStep, ValueOf, Cyclic, TwoFrames;
    var n, length := r.blocks, CHANNELS * t + CHANNELS;
    FirstFrameStays(r, n, length, CHANNELS * t + 1);
    SecondFrameArrives(r, length);
    assert Datagram(r, TwoFrames(n, length), t)[c] == ValueOf(r, TwoFrames(n, length), n) == 1;
  }

  /** Every datagram of the gateway is of one frame if and only if the number of read blocks
      is a multiple of the number of channels. */
  lemma DatagramsAreWholeIff(r: Reader)
    requires r.blocks > 0 && r.expected == 0
    ensures AlwaysWhole(r) <==> r.blocks % CHANNELS == 0
  {
    hide Cyclic, WholeDatagram, TwoFrames;
    var n := r.blocks;
    if n % CHANNELS == 0 {
      forall calls, t: nat | Cyclic(calls)
        ensures WholeDatagram(r, calls, t)
      {
        MultiplesAreWhole(r, calls, t);
      }
    } else {
      var t, c := n / CHANNELS, n % CHANNELS;
      OthersAreTorn(r, t, c);
      assert Cyclic(TwoFrames(n, CHANNELS * t + CHANNELS));
    }
  }

  /** With the registrations of the gateway, that is when the very first one succeeds. */
  lemma FirstStartDecides(r: Reader, startups: seq<int>)
    requires |startups| == 2 * CHANNELS && Failures(startups) < CHANNELS
    requires r.blocks == CHANNELS - Failures(startups) && r.expected == 0
    ensures AlwaysWhole(r) <==> startups[0] >= 0
  {
    hide AlwaysWhole, Failures;
    DatagramsAreWholeIff(r);
    if r.blocks < CHANNELS {
      DivModUnique(r.blocks, 0, r.blocks, CHANNELS);
    }
  }

  // --------------------------------------------------------------------- whole sessions

  function After(s: Session, events: seq<Event>, k: nat): Session
    requires k <= |events|
  {
    if k == 0 then s else Step(After(s, events, k - 1), events[k - 1]).0
  }

  function SentAt(s: Session, events: seq<Event>, k: nat): Option<Frame>
    requires k < |events|
  {
    Step(After(s, events, k), events[k]).1
  }

  /** The frames written to USB during the first `k` calls. */
  function Sent(s: Session, events: seq<Event>, k: nat): seq<Frame>
    requires k <= |events|
  {
    if k == 0 then []
    else
      var out := SentAt(s, events, k - 1);
      Sent(s, events, k - 1) + if out.Some? then [out.value] else []
  }

  /** Has a registration been accepted, here or before? */
  predicate Started(s: Session, events: seq<Event>, k: nat)
    requires k <= |events|
  {
    s.initialized || exists j :: 0 <= j < k && events[j].Register? && events[j].startup >= 0
  }

  /** How many of the first `k` calls register a write block. */
  function Registered(s: Session, events: seq<Event>, k: nat): nat
    requires k <= |events|
  {
    if k == 0 then 0
    else
      var e := events[k - 1];
      Registered(s, events, k - 1)
      + if e.Register? && e.blockType == WRITE_BLOCK && (Started(s, events, k - 1) || e.startup >= 0) then 1 else 0
  }

  /** Is call `k` a write that the library takes? */
  predicate WritesAt(s: Session, events: seq<Event>, k: nat)
    requires k < |events|
  {
    events[k].Write? && events[k].channel < CHANNELS && Started(s, events, k)
  }

  /** How many of the first `k` calls are writes that the library takes. */
  function Written(s: Session, events: seq<Event>, k: nat): nat
    requires k <= |events|
  {
    if k == 0 then 0 else Written(s, events, k - 1) + if WritesAt(s, events, k - 1) then 1 else 0
  }

  /** The writes taken since the last frame was sent, or since the beginning. */
  function Unsent(s: Session, events: seq<Event>, k: nat): nat
    requires k <= |events|
  {
    if k == 0 then s.expected
    else if SentAt(s, events, k - 1).Some? then 0
    else Unsent(s, events, k - 1) + if WritesAt(s, events, k - 1) then 1 else 0
  }

  /** The latest value written to a channel in the first `k` calls, else the one before. */
  function Latest(s: Session, events: seq<Event>, k: nat, channel: nat): Sample
    requires k <= |events| && channel < CHANNELS
  {
    if k == 0 then s.frame[channel]
    else if WritesAt(s, events, k - 1) && events[k - 1].channel == channel then events[k - 1].value
    else Latest(s, events, k - 1, channel)
  }

  lemma StartedNext(s: Session, events: seq<Event>, k: nat)
    requires k < |events|
    ensures Started(s, events, k + 1) <==> Started(s, events, k) || (events[k].Register? && events[k].startup >= 0)
  {
  }

  /** The state of the library told by counting calls. */
  lemma {:induction false} StateCounts(s: Session, events: seq<Event>, k: nat)
    requires k <= |events|
    ensures var t := After(s, events, k);
            && t.initialized == Started(s, events, k)
            && t.blocks == s.blocks + Registered(s, events, k)
            && t.expected == Unsent(s, events, k)
            && forall c :: 0 <= c < CHANNELS ==> t.frame[c] == Latest(s, events, k, c)
  {
    hide Started;
    if k == 0 {
      assert Started(s, events, 0) == s.initialized by {
        StartedAtFirst(s, events);
      }
    } else {
      StateCounts(s, events, k - 1);
      StartedNext(s, events, k - 1);
    }
  }

  lemma StartedAtFirst(s: Session, events: seq<Event>)
    ensures Started(s, events, 0) == s.initialized
  {
  }

  /** From a new library on, with registrations and writes in any order: a write that the
      library takes sends a frame if and only if the writes since the last one, with this
      one, are as many as the blocks registered so far; it holds the latest value of every
      channel. */
  lemma SendsIff(events: seq<Event>, k: nat)
    requires k < |events|
    ensures SentAt(NEW_SESSION, events, k).Some?
       <==> WritesAt(NEW_SESSION, events, k) && Unsent(NEW_SESSION, events, k) + 1 == Registered(NEW_SESSION, events, k)
    ensures SentAt(NEW_SESSION, events, k).Some? ==>
              forall c :: 0 <= c < CHANNELS ==> SentAt(NEW_SESSION, events, k).value[c] == Latest(NEW_SESSION, events, k + 1, c)
  {
    hide Started;
    StateCounts(NEW_SESSION, events, k);
    StateCounts(NEW_SESSION, events, k + 1);
  }

  // ------------------------------------------------------------------------------ silence

  /** More blocks are registered than the counter stands at, had nothing been sent so far. */
  predicate Lifted(s: Session, events: seq<Event>, k: nat)
    requires k <= |events|
  {
    s.expected + Written(s, events, k) < s.blocks + Registered(s, events, k)
  }

  lemma {:induction false} QuietCount(s: Session, events: seq<Event>, k: nat)
    requires k <= |events| && Sent(s, events, k) == []
    ensures Unsent(s, events, k) == s.expected + Written(s, events, k)
  {
    hide Started, WritesAt;
    if k == 0 {
    } else {
      QuietCount(s, events, k - 1);
    }
  }

  /** A frame is sent only where the blocks exceed the counter. */
  lemma {:induction false} SentOnlyIfLifted(s: Session, events: seq<Event>, k: nat)
    requires k <= |events| && forall j :: 0 <= j <= k ==> !Lifted(s, events, j)
    ensures Sent(s, events, k) == []
  {
    hide Started;
    if k == 0 {
    } else {
      SentOnlyIfLifted(s, events, k - 1);
      QuietCount(s, events, k - 1);
      StateCounts(s, events, k - 1);
      assert !Lifted(s, events, k - 1);
    }
  }

  /** Until it sends a frame, the library stays as far lifted as it once was. */
  lemma {:induction false} LiftedStays(s: Session, events: seq<Event>, j: nat, k: nat)
    requires j <= k <= |events| && Lifted(s, events, j) && Sent(s, events, k) == []
    ensures Lifted(s, events, k)
    decreases k
  {
    hide Started;
    if j == k {
    } else {
      LiftedStays(s, events, j, k - 1);
      QuietCount(s, events, k - 1);
      StateCounts(s, events, k - 1);
    }
  }

  ghost predicate WritesOnly(events: seq<Event>) {
    forall k :: 0 <= k < |events| ==> events[k].Write?
  }

  /** Writes alone can make the library send. */
  ghost predicate CanSend(s: Session) {
    exists events :: WritesOnly(events) && Sent(s, events, |events|) != []
  }

  lemma {:induction false} NoRegistrations(s: Session, events: seq<Event>, k: nat)
    requires k <= |events| && WritesOnly(events)
    ensures Registered(s, events, k) == 0
  {
    if k == 0 {
    } else {
      NoRegistrations(s, events, k - 1);
    }
  }

  lemma {:induction false} CountsUp(s: Session, events: seq<Event>, k: nat)
    requires s.initialized && k <= |events| && s.expected + k < s.blocks
    requires forall i :: 0 <= i < |events| ==> events[i] == Event.Write(0, 0)
    ensures After(s, events, k).initialized
    ensures After(s, events, k).blocks == s.blocks && After(s, events, k).expected == s.expected + k
  {
    if k == 0 {
    } else {
      CountsUp(s, events, k - 1);
    }
  }

  /** Before the first accepted registration there is no block. */
  predicate Reachable(s: Session) {
    s.initialized || s.blocks == 0
  }

  lemma CanSendIff(s: Session)
    requires Reachable(s)
    ensures CanSend(s) <==> s.expected < s.blocks
  {
    if s.expected < s.blocks {
      var k := s.blocks - s.expected;
      var events := seq(k, _ => Event.Write(0, 0));
      CountsUp(s, events, k - 1);
      assert Sent(s, events, k) != [];
    } else {
      forall events | WritesOnly(events)
        ensures Sent(s, events, |events|) == []
      {
        forall j | 0 <= j <= |events|
          ensures !Lifted(s, events, j)
        {
          NoRegistrations(s, events, j);
        }
        SentOnlyIfLifted(s, events, |events|);
      }
    }
  }

  lemma {:induction false} NothingBeforeTheStart(s: Session, events: seq<Event>, k: nat)
    requires k <= |events| && !Started(s, events, k)
    ensures Registered(s, events, k) == 0
  {
    if k == 0 {
    } else {
      NothingBeforeTheStart(s, events, k - 1);
    }
  }

  /** A library, new or in any later state, sends nothing through all of `events` and any
      writes after them, if and only if no registration among them lifts the number of blocks
      above the counter. */
  lemma SilentIffNeverLifted(s: Session, events: seq<Event>)
    requires Reachable(s)
    ensures Sent(s, events, |events|) == [] && !CanSend(After(s, events, |events|))
       <==> forall j :: 0 <= j <= |events| ==> !Lifted(s, events, j)
  {
    var n := |events|;
    var t := After(s, events, n);
    StateCounts(s, events, n);
    if !Started(s, events, n) {
      NothingBeforeTheStart(s, events, n);
    }
    CanSendIff(t);
    if forall j :: 0 <= j <= n ==> !Lifted(s, events, j) {
      SentOnlyIfLifted(s, events, n);
      QuietCount(s, events, n);
      assert !Lifted(s, events, n);
    } else if Sent(s, events, n) == [] {
      var j :| 0 <= j <= n && Lifted(s, events, j);
      LiftedStays(s, events, j, n);
      QuietCount(s, events, n);
    }
  }

  /** A read block first, then a write before any write block: with one write block the
      library stays silent, and a second one makes it send again. */
  lemma EarlyWriteSilencesTheLibrary(v: Sample)
    ensures var events := [Register(READ_BLOCK, 0), Event.Write(0, v), Register(WRITE_BLOCK, 0)];
            && Sent(NEW_SESSION, events, 3) == [] && !CanSend(After(NEW_SESSION, events, 3))
            && CanSend(After(NEW_SESSION, events + [Register(WRITE_BLOCK, 0)], 4))
  {
    var events := [Register(READ_BLOCK, 0), Event.Write(0, v), Register(WRITE_BLOCK, 0)];
    var more := events + [Register(WRITE_BLOCK, 0)];
    var f := NEW_SESSION.frame[0 := v];
    forall run | run == events || run == more
      ensures After(NEW_SESSION, run, 3) == Session(true, 1, 1, f) && Sent(NEW_SESSION, run, 3) == []
    {
      assert After(NEW_SESSION, run, 1) == Session(true, 0, 0, NEW_SESSION.frame);
      assert Sent(NEW_SESSION, run, 1) == [];
      assert After(NEW_SESSION, run, 2) == Session(true, 0, 1, f);
      assert Sent(NEW_SESSION, run, 2) == [];
    }
    assert After(NEW_SESSION, more, 4) == Step(Session(true, 1, 1, f), more[3]).0;
    CanSendIff(Session(true, 1, 1, f));
    CanSendIff(Session(true, 2, 1, f));
  }

  // --------------------------------------------------------------------- writing passes

  /** With all blocks registered and a fresh pass, every `n` in-range writes send exactly one
      frame, at the last of them, holding the latest value of every channel. */
  lemma {:induction false} OnePassOneWrite(s: Session, events: seq<Event>, k: nat)
    requires s.initialized && s.blocks > 0 && s.expected == 0 && k <= |events| && WritesOnly(events)
    ensures After(s, events, k).expected == Written(s, events, k) % s.blocks
    ensures |Sent(s, events, k)| == Written(s, events, k) / s.blocks
    ensures k > 0 && WritesAt(s, events, k - 1) && Written(s, events, k) % s.blocks == 0 ==>
              && Written(s, events, k) > 0
              && Sent(s, events, k) == Sent(s, events, k - 1) + [After(s, events, k).frame]
              && forall c :: 0 <= c < CHANNELS ==> After(s, events, k).frame[c] == Latest(s, events, k, c)
  {
    hide Started, Latest;
    if k == 0 {
      DivModUnique(0, 0, 0, s.blocks);
    } else {
      OnePassOneWrite(s, events, k - 1);
      StateCounts(s, events, k - 1);
      StateCounts(s, events, k);
      NoRegistrations(s, events, k - 1);
      NextMod(Written(s, events, k - 1), s.blocks);
    }
  }
}
