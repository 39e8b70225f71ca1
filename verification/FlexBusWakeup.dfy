/** The condition variable of one flex bus channel: producers insert, consumers wait for a
    message. Every critical section under the channel's mutex is one step; any interleaving
    of steps is a run. */
module FlexBusWakeup {
  import opened Basics
  import FlexBusQueue

  /** Outside a get; blocked in the wait; or released from it and about to re-check. */
  datatype Phase = Idle | Blocked | Released

  datatype Monitor = Monitor(count: nat, consumers: seq<Phase>)

  datatype Event =
    | Insert(released: Option<nat>)  // with the consumer the signal releases, if any
    | Enter(consumer: nat)           // a get that takes the mutex
    | Resume(consumer: nat)          // a released consumer that takes it again
    | Spurious(consumer: nat)        // a wait that returns by itself

  function CountAfterInsert(count: nat, size: nat): nat
    requires size > 0
  {
    if count < size - 1 then count + 1 else count
  }

  /** The producer signals when exactly one message is present after its insert (in a ring
      of one slot that comparison always holds). */
  predicate Signals(count: nat, size: nat)
    requires size > 0
  {
    CountAfterInsert(count, size) == 1 || size == 1
  }

  /** Both are those of the ring: an insert into a queue in capacity counts like a push, and
      the signal condition of the ring is this one. */
  lemma CountsLikeTheRing<T>(q: seq<T>, m: T, size: nat)
    requires size > 0 && |q| <= size - 1
    ensures var q' := FlexBusQueue.Push(q, m, size - 1);
            && |q'| == CountAfterInsert(|q|, size) <= size - 1
            && (Signals(|q|, size) <==> |q'| == 1 || size == 1)
  {
  }

  predicate In(m: Monitor, i: nat, p: Phase) {
    i < |m.consumers| && m.consumers[i] == p
  }

  ghost predicate Enabled(m: Monitor, e: Event, size: nat)
    requires size > 0
  {
    match e
    case Insert(None) => Signals(m.count, size) ==> forall i :: 0 <= i < |m.consumers| ==> m.consumers[i] != Blocked
    case Insert(Some(i)) => Signals(m.count, size) && In(m, i, Blocked)
    case Enter(i) => In(m, i, Idle)
    case Resume(i) => In(m, i, Released)
    case Spurious(i) => In(m, i, Blocked)
  }

  /** The wait loop of a get: block on an empty queue, else take a message. */
  function Attempt(m: Monitor, i: nat): Monitor
    requires i < |m.consumers|
  {
    if m.count == 0 then Monitor(0, m.consumers[i := Blocked])
    else Monitor(m.count - 1, m.consumers[i := Idle])
  }

  function Next(m: Monitor, e: Event, size: nat): Monitor
    requires size > 0 && Enabled(m, e, size)
  {
    match e
    case Insert(None) => m.(count := CountAfterInsert(m.count, size))
    case Insert(Some(i)) => Monitor(CountAfterInsert(m.count, size), m.consumers[i := Released])
    case Enter(i) => Attempt(m, i)
    case Resume(i) => Attempt(m, i)
    case Spurious(i) => m.(consumers := m.consumers[i := Released])
  }

  ghost predicate IsRun(ms: seq<Monitor>, es: seq<Event>, n: nat, size: nat)
    requires size > 0
  {
    && |ms| == |es| + 1
    && ms[0] == Monitor(0, seq(n, _ => Idle))
    && forall k :: 0 <= k < |es| ==> Enabled(ms[k], es[k], size) && ms[k + 1] == Next(ms[k], es[k], size)
  }

  /** A wake-up is lost: messages are there, someone is blocked and nobody is coming. */
  ghost predicate Lost(m: Monitor) {
    && m.count > 0
    && (exists i :: In(m, i, Blocked))
    && forall i :: !In(m, i, Released)
  }

  ghost predicate NeverLost(n: nat, size: nat)
    requires size > 0
  {
    forall ms, es, k :: IsRun(ms, es, n, size) && 0 <= k < |ms| ==> !Lost(ms[k])
  }

  // ---------------------------------------------------------- where the policy suffices

  /** With one consumer: blocked only while the queue is empty. With at most one place in
      the ring: blocked beside a message only while someone else is released. */
  ghost predicate Inv(m: Monitor, n: nat, size: nat) {
    && |m.consumers| == n
    && (n == 1 && m.consumers[0] == Blocked ==> m.count == 0)
    && (size <= 2 ==> m.count < 2 && !Lost(m))
    && (size == 1 ==> m.count == 0)
  }

  lemma StepKeepsInv(m: Monitor, e: Event, n: nat, size: nat)
    requires size > 0 && (n <= 1 || size <= 2)
    requires Inv(m, n, size) && Enabled(m, e, size)
    ensures Inv(Next(m, e, size), n, size)
  {
    var m' := Next(m, e, size);
    if size == 2 && e.Insert? && e.released.Some? {
      assert In(m', e.released.value, Released);
    } else if size == 2 && e.Insert? {
      assert !Lost(m');
    } else if size == 2 && e.Spurious? {
      assert In(m', e.consumer, Released);
    } else if size == 2 {
      assert m'.count == 0;
    }
  }

  lemma {:induction false} RunKeepsInv(ms: seq<Monitor>, es: seq<Event>, k: nat, n: nat, size: nat)
    requires size > 0 && (n <= 1 || size <= 2)
    requires IsRun(ms, es, n, size) && k < |ms|
    ensures Inv(ms[k], n, size)
  {
    hide Inv, Enabled, Next;
    if k == 0 {
      StartKeepsInv(n, size);
    } else {
      RunKeepsInv(ms, es, k - 1, n, size);
      StepKeepsInv(ms[k - 1], es[k - 1], n, size);
      assert ms[k - 1 + 1] == Next(ms[k - 1], es[k - 1], size);
    }
  }

  lemma StartKeepsInv(n: nat, size: nat)
    ensures Inv(Monitor(0, seq(n, _ => Idle)), n, size)
  {
  }

  /** One consumer per channel, any number of producers, any interleaving, any spurious
      wake-ups: a consumer blocked without a pending signal means an empty queue. */
  lemma SingleConsumerNeverMissesAMessage(ms: seq<Monitor>, es: seq<Event>, k: nat, size: nat)
    requires size > 0 && IsRun(ms, es, 1, size) && k < |ms| && In(ms[k], 0, Blocked)
    ensures ms[k].count == 0
  {
    RunKeepsInv(ms, es, k, 1, size);
  }

  // ------------------------------------------------------------- where it does not

  /** Two consumers block, two messages arrive, the second without a signal. */
  lemma TwoConsumersCanMissAMessage(n: nat, size: nat)
    requires n >= 2 && size >= 3
    ensures !NeverLost(n, size)
  {
    var idle := seq(n, _ => Idle);
    var first := idle[0 := Blocked];
    var both := first[1 := Blocked];
    var woken := both[0 := Released];
    var served := woken[0 := Idle];
    var ms := [Monitor(0, idle), Monitor(0, first), Monitor(0, both), Monitor(1, woken), Monitor(2, woken),
               Monitor(1, served)];
    var es := [Enter(0), Enter(1), Insert(Some(0)), Insert(None), Resume(0)];
    assert IsRun(ms, es, n, size);
    assert In(ms[5], 1, Blocked);
    assert Lost(ms[5]);
  }

  /** The signalling policy never loses a wake-up exactly when there is at most one
      consumer, or the ring has room for at most one message. */
  lemma NeverLostIff(n: nat, size: nat)
    requires size > 0
    ensures NeverLost(n, size) <==> n <= 1 || size <= 2
  {
    if n <= 1 || size <= 2 {
      forall ms, es, k | IsRun(ms, es, n, size) && 0 <= k < |ms|
        ensures !Lost(ms[k])
      {
        RunKeepsInv(ms, es, k, n, size);
      }
    } else {
      TwoConsumersCanMissAMessage(n, size);
    }
  }
}
