/** One channel of the flex bus: a ring of message slots that drops its oldest message when
    it overflows. */
module FlexBusQueue {
  import opened Basics
  import opened Bytes

  const MESSAGE_SIZE := 32
  const DEFAULT_QUEUE_SIZE := 10

  /** A slot keeps its stale bytes past `length`. */
  type Slot = s: SlotRecord | |s.data| == MESSAGE_SIZE && s.length <= MESSAGE_SIZE
    witness SlotRecord(0, seq(MESSAGE_SIZE, _ => 0))
  datatype SlotRecord = SlotRecord(length: nat, data: Bytes)

  function Message(s: Slot): Bytes {
    s.data[..s.length]
  }

  function Prefix(m: Bytes, len: nat): (r: Bytes)
    ensures |r| == Min(len, |m|) && forall k :: 0 <= k < |r| ==> r[k] == m[k]
  {
    m[..Min(len, |m|)]
  }

  /** A message of at most 32 bytes comes out of an insert and a get whole if and only if the
      get asks for all of it. */
  lemma ComesOutWholeIff(m: Bytes, len: nat)
    requires |m| <= 32
    ensures Prefix(Prefix(m, MESSAGE_SIZE), len) == m <==> |m| <= len
  {
    if |m| <= len {
      assert Prefix(Prefix(m, MESSAGE_SIZE), len) == m;
    }
  }

  /** The bounded queue the ring stands for: append, and drop the oldest beyond `capacity`. */
  function Push<T>(q: seq<T>, m: T, capacity: nat): seq<T> {
    if |q| < capacity then q + [m] else (q + [m])[1..]
  }

  function Wrap(i: nat, size: nat): nat
    requires i < 2 * size
  {
    if i < size then i else i - size
  }

  function Next(i: nat, size: nat): (r: nat)
    requires i < size
    ensures r == Wrap(i + 1, size)
  {
    (i + 1) % size
  }

  /** The messages in `count` slots of the ring from `first` on, oldest first. */
  function Held(q: seq<Slot>, first: nat, count: nat): (r: seq<Bytes>)
    requires first < |q| && count <= |q|
    ensures |r| == count
  {
    seq(count, k requires 0 <= k < count && first < |q| && count <= |q| => Message(q[Wrap(first + k, |q|)]))
  }

  lemma HeldAt(q: seq<Slot>, first: nat, count: nat, k: nat)
    requires first < |q| && k < count <= |q|
    ensures Held(q, first, count)[k] == Message(q[Wrap(first + k, |q|)])
  {
  }

  lemma HeldAppend(q: seq<Slot>, first: nat, count: nat, slot: Slot)
    requires first < |q| && count < |q|
    ensures Held(q[Wrap(first + count, |q|) := slot], first, count + 1) == Held(q, first, count) + [Message(slot)]
  {
    var at := Wrap(first + count, |q|);
    var q' := q[at := slot];
    forall k | 0 <= k < count + 1
      ensures Held(q', first, count + 1)[k] == (Held(q, first, count) + [Message(slot)])[k]
    {
      if k < count {
        assert Wrap(first + k, |q|) != at;
      }
    }
  }

  lemma HeldTail(q: seq<Slot>, first: nat, count: nat)
    requires first < |q| && 0 < count <= |q|
    ensures Held(q, Wrap(first + 1, |q|), count - 1) == Held(q, first, count)[1..]
  {
    forall k | 0 <= k < count - 1
      ensures Held(q, Wrap(first + 1, |q|), count - 1)[k] == Held(q, first, count)[1..][k]
    {
      assert Wrap(Wrap(first + 1, |q|) + k, |q|) == Wrap(first + (k + 1), |q|);
    }
  }

  lemma HeldInit(q: seq<Slot>, first: nat, count: nat)
    requires first < |q| && 0 < count <= |q|
    ensures Held(q, first, count - 1) == Held(q, first, count)[..count - 1]
  {
  }

  /** memcpy of the first `n` bytes of `buf` into a slot. */
  function Fill(s: Slot, buf: Bytes, n: nat): Slot
    requires n <= |buf| && n <= MESSAGE_SIZE
  {
    SlotRecord(n, buf[..n] + s.data[n..])
  }

  lemma FillSetsMessage(s: Slot, buf: Bytes, len: nat)
    requires len <= |buf|
    ensures Message(Fill(s, buf, Min(len, MESSAGE_SIZE))) == Prefix(buf[..len], MESSAGE_SIZE)
  {
  }

  class Channel {
    const size: nat
    const queue: array<Slot>
    var first: int
    var last: int

    ghost predicate Valid()
      reads this
    {
      size > 0 && queue.Length == size && 0 <= first < size && 0 <= last < size
    }

    function Count(): nat
      requires Valid()
      reads this
    {
      if first <= last then last - first else last - first + size
    }

    ghost function Contents(): seq<Bytes>
      requires Valid()
      reads this, queue
    {
      Held(queue[..], first, Count())
    }

    constructor (queuesSize: nat)
      ensures Valid() && fresh(queue) && Contents() == []
      ensures size == if queuesSize == 0 then DEFAULT_QUEUE_SIZE else queuesSize
    {
      size := if queuesSize == 0 then DEFAULT_QUEUE_SIZE else queuesSize;
      queue := new Slot[if queuesSize == 0 then DEFAULT_QUEUE_SIZE else queuesSize](_ => SlotRecord(0, seq(MESSAGE_SIZE, _ => 0)));
      first, last := 0, 0;
    }

    /** `signalled` tells whether the condition variable was signalled. */
    method Insert(buf: Bytes, len: nat) returns (ret: int, signalled: bool)
      requires Valid() && len <= |buf|
      modifies this, queue
      ensures Valid()
      ensures len == 0 ==> ret == -1 && !signalled && Contents() == old(Contents())
      ensures len > 0 ==> ret == 0 && Contents() == Push(old(Contents()), Prefix(buf[..len], MESSAGE_SIZE), size - 1)
      ensures len > 0 ==> (signalled <==> |Contents()| == 1 || size == 1)
    {
      hide Held, Message, Prefix, Fill, Next;
      var n := Min(len, MESSAGE_SIZE);
      if n == 0 {
        return -1, false;
      }
      var slot := Fill(queue[last], buf, n);
      FillSetsMessage(queue[last], buf, len);
      HeldAppend(queue[..], first, Count(), slot);
      queue[last] := slot;
      assert queue[..] == old(queue[..])[last := slot];
      last := Next(last, size);
      if first == last {
        HeldTail(queue[..], first, size);
        first := Next(first, size);
      }
      signalled := Next(first, size) == last;
      ret := 0;
    }

    /** The part of a get after its wait for a message. */
    method Get(len: nat, lifo: bool) returns (buf: Bytes)
      requires Valid() && Contents() != []
      modifies this
      ensures Valid()
      ensures var q := old(Contents());
              if lifo then buf == Prefix(q[|q| - 1], len) && Contents() == q[..|q| - 1]
              else buf == Prefix(q[0], len) && Contents() == q[1..]
    {
      hide Held, Next;
      if lifo {
        HeldInit(queue[..], first, Count());
        HeldAt(queue[..], first, Count(), Count() - 1);
        last := last - 1;
        if last < 0 {
          last := last + size;
        }
        buf := queue[last].data[..Min(len, queue[last].length)];
      } else {
        HeldTail(queue[..], first, Count());
        HeldAt(queue[..], first, Count(), 0);
        buf := queue[first].data[..Min(len, queue[first].length)];
        first := Next(first, size);
      }
    }
  }

  // --------------------------------------------------------------------- whole runs

  /** A message is named by the number of messages inserted before it. An empty message is
      refused; a get on an empty queue waits and changes nothing. */
  datatype Op = Insert(message: Bytes) | Fifo | Lifo
  datatype Log = Log(inserted: seq<Bytes>, waiting: seq<nat>, delivered: seq<nat>, dropped: seq<nat>)

  const EMPTY_LOG := Log([], [], [], [])

  function Step(log: Log, op: Op, capacity: nat): Log {
    match op
    case Insert(m) =>
      var stored := log.inserted + [Prefix(m, MESSAGE_SIZE)];
      var all := log.waiting + [|log.inserted|];
      if m == [] then log
      else if |log.waiting| < capacity then log.(inserted := stored, waiting := all)
      else log.(inserted := stored, waiting := all[1..], dropped := log.dropped + [all[0]])
    case Fifo =>
      if log.waiting == [] then log
      else log.(waiting := log.waiting[1..], delivered := log.delivered + [log.waiting[0]])
    case Lifo =>
      if log.waiting == [] then log
      else
        var n := |log.waiting| - 1;
        log.(waiting := log.waiting[..n], delivered := log.delivered + [log.waiting[n]])
  }

  function Run(ops: seq<Op>, capacity: nat): Log {
    if ops == [] then EMPTY_LOG else Step(Run(ops[..|ops| - 1], capacity), ops[|ops| - 1], capacity)
  }

  ghost predicate Named(log: Log) {
    forall k :: 0 <= k < |log.waiting| ==> log.waiting[k] < |log.inserted|
  }

  /** The messages a log says are waiting. */
  function Messages(log: Log): seq<Bytes>
    requires Named(log)
  {
    seq(|log.waiting|, k requires 0 <= k < |log.waiting| && Named(log) => log.inserted[log.waiting[k]])
  }

  /** A step does to the waiting messages what the ring's operations do to its contents, and
      the number it puts down as delivered names the message the ring's get returns, cut to
      any length asked for. */
  lemma StepIsQueueOperation(log: Log, op: Op, capacity: nat, len: nat)
    requires Named(log)
    ensures Named(Step(log, op, capacity))
    ensures var q, log' := Messages(log), Step(log, op, capacity);
            match op
            case Insert(m) =>
              Messages(log') == if m == [] then q else Push(q, Prefix(m, MESSAGE_SIZE), capacity)
            case _ =>
              if q == [] then log' == log
              else
                var at := if op.Fifo? then 0 else |q| - 1;
                && Messages(log') == q[..at] + q[at + 1..] && log'.inserted == log.inserted
                && |log'.delivered| == |log.delivered| + 1
                && log'.delivered[|log.delivered|] < |log.inserted|
                && Prefix(log.inserted[log'.delivered[|log.delivered|]], len) == Prefix(q[at], len)
  {
    hide Prefix;
    var q, log' := Messages(log), Step(log, op, capacity);
    if op.Insert? && op.message != [] {
      assert Messages(log') == Push(q, Prefix(op.message, MESSAGE_SIZE), capacity);
    }
  }

  ghost predicate Ascending(s: seq<nat>) {
    forall i, j :: 0 <= i < j < |s| ==> s[i] < s[j]
  }

  lemma AscendingNext(s: seq<nat>, n: nat)
    requires Ascending(s + [n])
    ensures Ascending(s + [n] + [n + 1])
  {
    var t := s + [n];
    var u := t + [n + 1];
    forall i, j | 0 <= i < j < |u|
      ensures u[i] < u[j]
    {
      assert j == |t| ==> t[i] <= t[|t| - 1] == n;
    }
  }

  lemma AscendingRemove(a: seq<nat>, x: nat, b: seq<nat>)
    requires Ascending(a + [x] + b)
    ensures Ascending(a + b)
  {
    var s, t := a + [x] + b, a + b;
    forall i, j | 0 <= i < j < |t|
      ensures t[i] < t[j]
    {
      assert t[i] == s[if i < |a| then i else i + 1];
      assert t[j] == s[if j < |a| then j else j + 1];
    }
  }

  function Iota(n: nat): (r: seq<nat>)
    ensures |r| == n
  {
    seq(n, i => i)
  }

  /** Kept by every run: each inserted message is exactly one of waiting, delivered or dropped. */
  ghost predicate Conserved(log: Log) {
    multiset(log.waiting) + multiset(log.delivered) + multiset(log.dropped) == multiset(Iota(|log.inserted|))
  }

  /** Kept by every run: dropped, then waiting messages are in order of insertion. */
  ghost predicate Ordered(log: Log, capacity: nat) {
    |log.waiting| <= capacity && Ascending(log.dropped + log.waiting + [|log.inserted|])
  }

  lemma IotaNext(n: nat)
    ensures Iota(n + 1) == Iota(n) + [n]
  {
  }

  lemma Split(s: seq<nat>, t: seq<nat>)
    ensures multiset(s + t) == multiset(s) + multiset(t)
  {
  }

  lemma Shuffle(a: multiset<nat>, x: multiset<nat>, d: multiset<nat>, p: multiset<nat>)
    ensures a + d + (p + x) == (x + a) + d + p == a + (d + x) + p
    ensures (p + x) + d + a == (p + d + a) + x
  {
  }

  /** A new message joins the waiting ones. */
  lemma JoinConserves(log: Log, m: Bytes)
    requires Conserved(log)
    ensures Conserved(log.(inserted := log.inserted + [m], waiting := log.waiting + [|log.inserted|]))
  {
    hide Iota;
    var w, n := log.waiting, |log.inserted|;
    IotaNext(n);
    Split(Iota(n), [n]);
    Split(w, [n]);
    Shuffle(multiset(log.dropped), multiset([n]), multiset(log.delivered), multiset(w));
  }

  /** The oldest waiting message is dropped. */
  lemma DropConserves(log: Log)
    requires Conserved(log) && log.waiting != []
    ensures Conserved(log.(waiting := log.waiting[1..], dropped := log.dropped + [log.waiting[0]]))
  {
    hide Iota;
    var w := log.waiting;
    assert w == [w[0]] + w[1..];
    Split([w[0]], w[1..]);
    Split(log.dropped, [w[0]]);
    Shuffle(multiset(w[1..]), multiset([w[0]]), multiset(log.delivered), multiset(log.dropped));
  }

  lemma InsertConserves(log: Log, m: Bytes, capacity: nat)
    requires Conserved(log)
    ensures Conserved(Step(log, Insert(m), capacity))
  {
    hide Conserved, Prefix;
    if m != [] {
      var stored := Prefix(m, MESSAGE_SIZE);
      JoinConserves(log, stored);
      var joined := log.(inserted := log.inserted + [stored], waiting := log.waiting + [|log.inserted|]);
      if |log.waiting| >= capacity {
        DropConserves(joined);
      }
    }
  }

  /** Moving a message from the waiting to the delivered ones. */
  lemma MoveConserves(log: Log, x: nat, rest: seq<nat>)
    requires Conserved(log) && multiset(log.waiting) == multiset(rest) + multiset([x])
    ensures Conserved(log.(waiting := rest, delivered := log.delivered + [x]))
  {
    hide Iota;
    Split(log.delivered, [x]);
    Shuffle(multiset(rest), multiset([x]), multiset(log.delivered), multiset(log.dropped));
  }

  lemma FifoConserves(log: Log, capacity: nat)
    requires Conserved(log)
    ensures Conserved(Step(log, Fifo, capacity))
  {
    hide Conserved;
    var w := log.waiting;
    if w != [] {
      assert w == [w[0]] + w[1..];
      Split([w[0]], w[1..]);
      MoveConserves(log, w[0], w[1..]);
    }
  }

  lemma LifoConserves(log: Log, capacity: nat)
    requires Conserved(log)
    ensures Conserved(Step(log, Lifo, capacity))
  {
    hide Conserved;
    var w := log.waiting;
    if w != [] {
      var last := |w| - 1;
      assert w == w[..last] + [w[last]];
      Split(w[..last], [w[last]]);
      MoveConserves(log, w[last], w[..last]);
    }
  }

  lemma StepKeepsOrder(log: Log, op: Op, capacity: nat)
    requires Ordered(log, capacity)
    ensures Ordered(Step(log, op, capacity), capacity)
  {
    hide Ascending;
    var w, d, n := log.waiting, log.dropped, |log.inserted|;
    if op.Insert? && op.message == [] {
    } else if op.Insert? {
      AscendingNext(d + w, n);
      var all := w + [n];
      assert d + all == d + w + [n] == d + [all[0]] + all[1..];
    } else if op.Fifo? && w != [] {
      assert d + w + [n] == d + [w[0]] + (w[1..] + [n]);
      AscendingRemove(d, w[0], w[1..] + [n]);
      assert d + (w[1..] + [n]) == d + w[1..] + [n];
    } else if w != [] {
      var last := |w| - 1;
      assert d + w + [n] == (d + w[..last]) + [w[last]] + [n];
      AscendingRemove(d + w[..last], w[last], [n]);
    }
  }

  lemma {:induction false} RunsConserveMessages(ops: seq<Op>, capacity: nat)
    ensures Conserved(Run(ops, capacity)) && Ordered(Run(ops, capacity), capacity)
  {
    hide Step, Conserved, Ordered;
    if ops == [] {
      StartIsGood(capacity);
    } else {
      var init := ops[..|ops| - 1];
      RunsConserveMessages(init, capacity);
      match ops[|ops| - 1] {
        case Insert(m) => InsertConserves(Run(init, capacity), m, capacity);
        case Fifo => FifoConserves(Run(init, capacity), capacity);
        case Lifo => LifoConserves(Run(init, capacity), capacity);
      }
      StepKeepsOrder(Run(init, capacity), ops[|ops| - 1], capacity);
    }
  }

  lemma StartIsGood(capacity: nat)
    ensures Conserved(EMPTY_LOG) && Ordered(EMPTY_LOG, capacity)
  {
  }

  ghost predicate FifoOnly(ops: seq<Op>) {
    forall k :: 0 <= k < |ops| ==> !ops[k].Lifo?
  }

  /** The queue holds the latest messages without a gap, and the delivered ones are older
      and in order. */
  ghost predicate InOrder(log: Log) {
    && |log.waiting| <= |log.inserted|
    && log.waiting == Iota(|log.inserted|)[|log.inserted| - |log.waiting|..]
    && Ascending(log.delivered + log.waiting + [|log.inserted|])
  }

  lemma InsertKeepsInOrder(log: Log, m: Bytes, capacity: nat)
    requires InOrder(log)
    ensures InOrder(Step(log, Insert(m), capacity))
  {
    hide Ascending, Iota, Prefix;
    if m == [] {
    } else {
      var d, w, n := log.delivered, log.waiting, |log.inserted|;
      var all := w + [n];
      IotaNext(n);
      assert (Iota(n) + [n])[n - |w|..] == all;
      AscendingNext(d + w, n);
      ConcatAssoc(d, w, [n]);
      if |w| >= capacity {
        var later := all[1..] + [n + 1];
        assert all == [all[0]] + all[1..];
        ConcatAssoc(d, [all[0]], all[1..]);
        ConcatAssoc(d + [all[0]], all[1..], [n + 1]);
        AscendingRemove(d, all[0], later);
        ConcatAssoc(d, all[1..], [n + 1]);
        assert Iota(n + 1)[n - |w|..][1..] == Iota(n + 1)[n + 1 - |w|..];
      }
    }
  }

  lemma FifoKeepsInOrder(log: Log, capacity: nat)
    requires InOrder(log)
    ensures InOrder(Step(log, Fifo, capacity))
  {
    hide Ascending, Iota;
    var d, w, n := log.delivered, log.waiting, |log.inserted|;
    if w != [] {
      assert w == [w[0]] + w[1..];
      ConcatAssoc(d, [w[0]], w[1..]);
      assert Iota(n)[n - |w|..][1..] == Iota(n)[n - |w| + 1..];
    }
  }

  /** Read first-in first-out only, deliveries come in order of insertion, each at most
      once, and what waits is the latest messages without a gap. */
  lemma {:induction false} FifoRunsDeliverInOrder(ops: seq<Op>, capacity: nat)
    requires FifoOnly(ops)
    ensures InOrder(Run(ops, capacity))
  {
    hide Step, InOrder;
    if ops == [] {
      StartIsInOrder();
    } else {
      var init := ops[..|ops| - 1];
      FifoRunsDeliverInOrder(init, capacity);
      match ops[|ops| - 1] {
        case Insert(m) => InsertKeepsInOrder(Run(init, capacity), m, capacity);
        case Fifo => FifoKeepsInOrder(Run(init, capacity), capacity);
      }
    }
  }

  lemma StartIsInOrder()
    ensures InOrder(EMPTY_LOG)
  {
  }

  /** Inserts less gets that found a message, were the queue without a bound. */
  function Depth(ops: seq<Op>): nat {
    if ops == [] then 0
    else
      var before := Depth(ops[..|ops| - 1]);
      match ops[|ops| - 1]
      case Insert(m) => if m == [] then before else before + 1
      case _ => if before == 0 then 0 else before - 1
  }

  /** The calls never have more than `capacity` messages outstanding. */
  ghost predicate AlwaysRoom(ops: seq<Op>, capacity: nat) {
    forall k :: 0 <= k <= |ops| ==> Depth(ops[..k]) <= capacity
  }

  lemma AlwaysRoomStep(ops: seq<Op>, capacity: nat)
    requires ops != []
    ensures AlwaysRoom(ops, capacity) <==> AlwaysRoom(ops[..|ops| - 1], capacity) && Depth(ops) <= capacity
  {
    hide Depth;
    var init := ops[..|ops| - 1];
    assert ops[..|ops|] == ops;
    assert forall k :: 0 <= k <= |init| ==> ops[..k] == init[..k];
  }

  /** As long as nothing was dropped, as many messages wait as the calls alone tell. */
  lemma {:induction false} WaitingIsDepth(ops: seq<Op>, capacity: nat)
    ensures Run(ops, capacity).dropped == [] ==> |Run(ops, capacity).waiting| == Depth(ops) <= capacity
  {
    if ops == [] {
    } else {
      WaitingIsDepth(ops[..|ops| - 1], capacity);
    }
  }

  /** Whatever the order of inserts and gets of both kinds, nothing is dropped exactly when
      the calls never have more than `capacity` messages outstanding. */
  lemma {:induction false} NothingIsDroppedIff(ops: seq<Op>, capacity: nat)
    ensures Run(ops, capacity).dropped == [] <==> AlwaysRoom(ops, capacity)
  {
    hide Depth, AlwaysRoom;
    if ops == [] {
      EmptyRun(capacity);
    } else {
      NothingIsDroppedIff(ops[..|ops| - 1], capacity);
      WaitingIsDepth(ops[..|ops| - 1], capacity);
      WaitingIsDepth(ops, capacity);
      AlwaysRoomStep(ops, capacity);
      DepthStep(ops);
    }
  }

  lemma EmptyRun(capacity: nat)
    ensures Run([], capacity) == EMPTY_LOG && Depth([]) == 0 && AlwaysRoom([], capacity)
  {
  }

  lemma DepthStep(ops: seq<Op>)
    requires ops != []
    ensures var before, op := Depth(ops[..|ops| - 1]), ops[|ops| - 1];
            Depth(ops) == match op
                          case Insert(m) => if m == [] then before else before + 1
                          case _ => if before == 0 then 0 else before - 1
  {
  }

  /** First-in first-out and never too many outstanding, the ring is a channel: what was
      delivered, followed by what waits, is everything inserted, in order. */
  lemma {:induction false} LosslessFifo(ops: seq<Op>, capacity: nat)
    requires FifoOnly(ops) && AlwaysRoom(ops, capacity)
    ensures var log := Run(ops, capacity); log.delivered + log.waiting == Iota(|log.inserted|)
  {
    hide AlwaysRoom;
    NothingIsDroppedIff(ops, capacity);
    if ops == [] {
    } else {
      var init, op := ops[..|ops| - 1], ops[|ops| - 1];
      AlwaysRoomStep(ops, capacity);
      LosslessFifo(init, capacity);
      var log := Run(init, capacity);
      IotaNext(|log.inserted|);
      if op.Insert? && op.message != [] {
        assert log.delivered + (log.waiting + [|log.inserted|]) == (log.delivered + log.waiting) + [|log.inserted|];
      } else if !op.Insert? && log.waiting != [] {
        assert log.delivered + [log.waiting[0]] + log.waiting[1..] == log.delivered + log.waiting;
      }
    }
  }

  ghost predicate Delivers(capacity: nat) {
    exists ops :: Run(ops, capacity).delivered != []
  }

  /** A ring of one slot never delivers anything, whatever is called; any larger one can. */
  lemma DeliversIff(size: nat)
    requires size > 0
    ensures Delivers(size - 1) <==> size >= 2
  {
    if size == 1 {
      forall ops
        ensures Run(ops, 0).delivered == []
      {
        OneSlotDeliversNothing(ops);
      }
    } else {
      var ops := [Insert([0]), Fifo];
      assert ops[..1] == [Insert([0])] && ops[..1][..0] == [];
      assert Run(ops[..1], size - 1).waiting == [0];
      assert Run(ops, size - 1).delivered == [0];
    }
  }

  lemma {:induction false} OneSlotDeliversNothing(ops: seq<Op>)
    ensures Run(ops, 0).delivered == []
  {
    if ops == [] {
    } else {
      OneSlotDeliversNothing(ops[..|ops| - 1]);
      RunsConserveMessages(ops[..|ops| - 1], 0);
    }
  }
}
