/**
  The bounded queue of icm-1.1/icc/MessageQueue.cpp as a monitor: threads enter under the lock,
  block on one of two condition variables, and are woken one per signal.  A step is one stretch
  of a thread under the lock, or a wake-up that nobody asked for.
 */
module QueueMonitor {
  import opened Wrappers

  /** Where a thread is: outside, or blocked in an untimed wait with or without a wake-up under
      way.  The message a producer brings may be missing. */
  datatype Thread<T> = Away | Producer(woken: bool, item: Option<T>) | Consumer(woken: bool)

  datatype Kind = Idle | SleepingProducer | WokenProducer | SleepingConsumer | WokenConsumer

  /** `entered` and `left` are the messages put in and taken out so far. */
  datatype State<T> = State(high: nat, low: nat, queue: seq<T>, threads: seq<Thread<T>>, entered: seq<T>, left: seq<T>)

  /** `wake` is the thread a signal picks, when the step sends one and there is a sleeper. */
  datatype Step<T> =
    | Enqueue(t: nat, item: Option<T>, wake: nat)
    | Dequeue(t: nat, wake: nat)
    | Retry(t: nat, wake: nat)
    | Spurious(t: nat)

  function KindOf<T>(p: Thread<T>): Kind {
    match p
    case Away => Idle
    case Producer(woken, _) => if woken then WokenProducer else SleepingProducer
    case Consumer(woken) => if woken then WokenConsumer else SleepingConsumer
  }

  function Count<T>(threads: seq<Thread<T>>, k: Kind): nat {
    if |threads| == 0 then 0 else Count(threads[..|threads| - 1], k) + One(KindOf(threads[|threads| - 1]) == k)
  }

  lemma {:induction false} CountUpdate<T>(threads: seq<Thread<T>>, i: nat, p: Thread<T>, k: Kind)
    requires i < |threads|
    ensures Count(threads[i := p], k) == Count(threads, k) - One(KindOf(threads[i]) == k) + One(KindOf(p) == k)
  {
    var n := |threads| - 1;
    if i == n {
      assert threads[i := p][..n] == threads[..n];
    } else {
      assert threads[i := p][..n] == threads[..n][i := p];
      CountUpdate(threads[..n], i, p, k);
    }
  }

  lemma {:induction false} CountedIffThere<T>(threads: seq<Thread<T>>, k: Kind)
    ensures Count(threads, k) > 0 <==> exists i :: 0 <= i < |threads| && KindOf(threads[i]) == k
  {
    var n := |threads| - 1;
    if n >= 0 {
      CountedIffThere(threads[..n], k);
      if i :| 0 <= i < |threads| && KindOf(threads[i]) == k {
        assert i < n ==> KindOf(threads[..n][i]) == k;
      }
    }
  }

  /** A signal wakes the picked sleeper. */
  function Signalled<T>(threads: seq<Thread<T>>, k: Kind, wake: nat): seq<Thread<T>> {
    if wake < |threads| && KindOf(threads[wake]) == k && !threads[wake].Away?
    then threads[wake := threads[wake].(woken := true)]
    else threads
  }

  /** The choice of a signal: some sleeper, if there is one. */
  predicate CanPick<T>(threads: seq<Thread<T>>, k: Kind, wake: nat) {
    Count(threads, k) > 0 ==> wake < |threads| && KindOf(threads[wake]) == k
  }

  /** What the lock lets a thread do: wait, or leave the queue as it is now, with or without a
      signal to the other side. */
  datatype Pass<T> = Waits | Passes(queue: seq<T>, signals: bool)

  /** A producer waits while the queue is full, then puts its message in and signals a consumer;
      without a message it leaves at once. */
  function ProducerPass<T>(queue: seq<T>, item: Option<T>, high: nat): Pass<T> {
    if |queue| >= high then Waits
    else if item.None? then Passes(queue, false)
    else Passes(queue + [item.value], true)
  }

  /** A consumer waits while the queue is empty, then takes the head out and signals a producer
      if few enough messages are left. */
  function ConsumerPass<T>(queue: seq<T>, low: nat): Pass<T> {
    if |queue| == 0 then Waits else Passes(queue[1..], |queue| - 1 <= low)
  }

  /** A producer under the lock. */
  function Produced<T>(s: State<T>, t: nat, item: Option<T>, wake: nat): State<T>
    requires t < |s.threads|
  {
    match ProducerPass(s.queue, item, s.high)
    case Waits => s.(threads := s.threads[t := Producer(false, item)])
    case Passes(queue, signals) =>
      s.(queue := queue, entered := s.entered + queue[|s.queue|..],
         threads := if signals then Signalled(s.threads[t := Away], SleepingConsumer, wake) else s.threads[t := Away])
  }

  /** A consumer under the lock. */
  function Consumed<T>(s: State<T>, t: nat, wake: nat): State<T>
    requires t < |s.threads|
  {
    match ConsumerPass(s.queue, s.low)
    case Waits => s.(threads := s.threads[t := Consumer(false)])
    case Passes(queue, signals) =>
      s.(queue := queue, left := s.left + s.queue[..1],
         threads := if signals then Signalled(s.threads[t := Away], SleepingProducer, wake) else s.threads[t := Away])
  }

  predicate Enabled<T>(s: State<T>, step: Step<T>) {
    && step.t < |s.threads|
    && match step
       case Enqueue(t, _, wake) => s.threads[t].Away? && CanPick(s.threads, SleepingConsumer, wake)
       case Dequeue(t, wake) => s.threads[t].Away? && CanPick(s.threads, SleepingProducer, wake)
       case Retry(t, wake) =>
         && !s.threads[t].Away? && s.threads[t].woken
         && CanPick(s.threads, if s.threads[t].Producer? then SleepingConsumer else SleepingProducer, wake)
       case Spurious(t) => !s.threads[t].Away? && !s.threads[t].woken
  }

  function After<T>(s: State<T>, step: Step<T>): State<T>
    requires Enabled(s, step)
  {
    match step
    case Enqueue(t, item, wake) => Produced(s, t, item, wake)
    case Dequeue(t, wake) => Consumed(s, t, wake)
    case Retry(t, wake) =>
      if s.threads[t].Producer? then Produced(s, t, s.threads[t].item, wake) else Consumed(s, t, wake)
    case Spurious(t) => s.(threads := s.threads[t := s.threads[t].(woken := true)])
  }

  function Start<T>(high: nat, low: nat, n: nat): State<T> {
    State(high, low, [], seq(n, _ => Away), [], [])
  }

  // ---- What every step keeps ----------------------------------------------------

  /** The queue is a FIFO of bounded length: what went in is what came out and what is there. */
  ghost predicate Fifo<T>(s: State<T>) {
    s.entered == s.left + s.queue && |s.queue| <= s.high
  }

  /** A blocked consumer means that enough wake-ups for all messages are under way. */
  ghost predicate ConsumersServed<T>(s: State<T>) {
    Count(s.threads, SleepingConsumer) > 0 ==> Count(s.threads, WokenConsumer) >= |s.queue|
  }

  /** An empty queue with a blocked producer means that a producer's wake-up is under way. */
  ghost predicate ProducersServed<T>(s: State<T>) {
    |s.queue| == 0 && Count(s.threads, SleepingProducer) > 0 ==> Count(s.threads, WokenProducer) > 0
  }

  lemma FifoStep<T>(s: State<T>, step: Step<T>)
    requires Fifo(s) && Enabled(s, step)
    ensures Fifo(After(s, step))
  {
  }

  /** How the count of `j` changes when thread `t` becomes `p` and a signal for the sleepers
      of kind `k` picks `wake`. */
  lemma Moved<T>(threads: seq<Thread<T>>, t: nat, p: Thread<T>, k: Kind, wake: nat, j: Kind)
    requires t < |threads| && KindOf(threads[t]) != k && KindOf(p) != k && CanPick(threads, k, wake)
    requires k == SleepingProducer || k == SleepingConsumer
    ensures Count(threads[t := p], j) == Count(threads, j) - One(KindOf(threads[t]) == j) + One(KindOf(p) == j)
    ensures Count(Signalled(threads[t := p], k, wake), j)
         == Count(threads[t := p], j)
            + if Count(threads, k) == 0 then 0
              else One(j == if k == SleepingProducer then WokenProducer else WokenConsumer) - One(j == k)
  {
    var ts := threads[t := p];
    CountUpdate(threads, t, p, j);
    CountedIffThere(threads, k);
    if Count(threads, k) > 0 {
      CountUpdate(ts, wake, ts[wake].(woken := true), j);
    } else {
      assert Signalled(ts, k, wake) == ts;
    }
  }

  /** The count of `j` without thread `t` as it was, and with it as `p`. */
  ghost function Replaced<T>(threads: seq<Thread<T>>, t: nat, p: Thread<T>, j: Kind): int
    requires t < |threads|
  {
    Count(threads, j) - One(KindOf(threads[t]) == j) + One(KindOf(p) == j)
  }

  /** The count of `j` after thread `t` was under the lock as a producer, or as a consumer. */
  ghost function ProducedCount<T>(s: State<T>, t: nat, item: Option<T>, j: Kind): int
    requires t < |s.threads|
  {
    if |s.queue| >= s.high then Replaced(s.threads, t, Producer(false, item), j)
    else if item.None? || Count(s.threads, SleepingConsumer) == 0 then Replaced(s.threads, t, Away, j)
    else Replaced(s.threads, t, Away, j) + One(j == WokenConsumer) - One(j == SleepingConsumer)
  }

  ghost function ConsumedCount<T>(s: State<T>, t: nat, j: Kind): int
    requires t < |s.threads|
  {
    if |s.queue| == 0 then Replaced(s.threads, t, Consumer(false), j)
    else if |s.queue| - 1 > s.low || Count(s.threads, SleepingProducer) == 0 then Replaced(s.threads, t, Away, j)
    else Replaced(s.threads, t, Away, j) + One(j == WokenProducer) - One(j == SleepingProducer)
  }

  lemma ProducedCounts<T>(s: State<T>, t: nat, item: Option<T>, wake: nat, j: Kind)
    requires t < |s.threads| && KindOf(s.threads[t]) != SleepingConsumer && CanPick(s.threads, SleepingConsumer, wake)
    ensures Count(Produced(s, t, item, wake).threads, j) == ProducedCount(s, t, item, j)
  {
    if |s.queue| >= s.high {
      CountUpdate(s.threads, t, Producer(false, item), j);
    } else {
      Moved(s.threads, t, Away, SleepingConsumer, wake, j);
    }
  }

  lemma ConsumedCounts<T>(s: State<T>, t: nat, wake: nat, j: Kind)
    requires t < |s.threads| && KindOf(s.threads[t]) != SleepingProducer && CanPick(s.threads, SleepingProducer, wake)
    ensures Count(Consumed(s, t, wake).threads, j) == ConsumedCount(s, t, j)
  {
    if |s.queue| == 0 {
      CountUpdate(s.threads, t, Consumer(false), j);
    } else {
      Moved(s.threads, t, Away, SleepingProducer, wake, j);
    }
  }

  ghost function StepCount<T>(s: State<T>, step: Step<T>, j: Kind): int
    requires Enabled(s, step)
  {
    match step
    case Enqueue(t, item, _) => ProducedCount(s, t, item, j)
    case Dequeue(t, _) => ConsumedCount(s, t, j)
    case Retry(t, _) =>
      if s.threads[t].Producer? then ProducedCount(s, t, s.threads[t].item, j) else ConsumedCount(s, t, j)
    case Spurious(t) => Replaced(s.threads, t, s.threads[t].(woken := true), j)
  }

  /** The count of `j` after a step does not depend on which sleeper a signal picks. */
  lemma StepCounts<T>(s: State<T>, step: Step<T>, j: Kind)
    requires Enabled(s, step)
    ensures Count(After(s, step).threads, j) == StepCount(s, step, j)
  {
    match step
    case Enqueue(t, item, wake) => ProducedCounts(s, t, item, wake, j);
    case Dequeue(t, wake) => ConsumedCounts(s, t, wake, j);
    case Retry(t, wake) =>
      if s.threads[t].Producer? {
        ProducedCounts(s, t, s.threads[t].item, wake, j);
      } else {
        ConsumedCounts(s, t, wake, j);
      }
    case Spurious(t) => CountUpdate(s.threads, t, s.threads[t].(woken := true), j);
  }

  lemma ConsumersStep<T>(s: State<T>, step: Step<T>)
    requires ConsumersServed(s) && Enabled(s, step)
    ensures ConsumersServed(After(s, step))
  {
    StepCounts(s, step, SleepingConsumer);
    StepCounts(s, step, WokenConsumer);
  }

  /** The step that loses a wake-up: the last woken producer finds an empty queue, but has no
      message to put in, and leaves while others sleep. */
  ghost predicate LosesWakeUp<T>(s: State<T>, step: Step<T>) {
    && step.Retry? && step.t < |s.threads| && s.threads[step.t] == Producer(true, None)
    && |s.queue| == 0 && Count(s.threads, WokenProducer) == 1 && Count(s.threads, SleepingProducer) > 0
  }

  lemma ProducersStep<T>(s: State<T>, step: Step<T>)
    requires ProducersServed(s) && Enabled(s, step) && s.high >= 1
    ensures ProducersServed(After(s, step)) <==> !LosesWakeUp(s, step)
  {
    StepCounts(s, step, SleepingProducer);
    StepCounts(s, step, WokenProducer);
  }

  // ---- Runs ---------------------------------------------------------------------

  ghost predicate IsRun<T>(states: seq<State<T>>, steps: seq<Step<T>>) {
    && |states| == |steps| + 1
    && forall i :: 0 <= i < |steps| ==> Enabled(states[i], steps[i]) && states[i + 1] == After(states[i], steps[i])
  }

  /** Producers and consumers are blocked, and no wake-up is under way. */
  ghost predicate AllAsleep<T>(s: State<T>) {
    && Count(s.threads, SleepingProducer) > 0 && Count(s.threads, SleepingConsumer) > 0
    && Count(s.threads, WokenProducer) == 0 && Count(s.threads, WokenConsumer) == 0
  }

  /** In every interleaving the queue is a bounded FIFO and blocked consumers are served. */
  lemma {:induction false} EveryRunIsFifo<T>(states: seq<State<T>>, steps: seq<Step<T>>, high: nat, low: nat, n: nat,
                                             i: nat)
    requires IsRun(states, steps) && states[0] == Start(high, low, n) && i < |states|
    ensures Fifo(states[i]) && ConsumersServed(states[i]) && states[i].high == high
  {
    if i == 0 {
      NoSuch(states[0].threads, SleepingConsumer);
    } else {
      EveryRunIsFifo(states, steps, high, low, n, i - 1);
      FifoStep(states[i - 1], steps[i - 1]);
      ConsumersStep(states[i - 1], steps[i - 1]);
    }
  }

  /** Blocked producers are served as long as no step loses a wake-up. */
  lemma {:induction false} ServedUntilLoss<T>(states: seq<State<T>>, steps: seq<Step<T>>, high: nat, low: nat,
                                              n: nat, i: nat)
    requires IsRun(states, steps) && states[0] == Start(high, low, n) && i < |states| && high >= 1
    requires forall j :: 0 <= j < i ==> !LosesWakeUp(states[j], steps[j])
    ensures ProducersServed(states[i]) && states[i].high == high
  {
    if i == 0 {
      NoSuch(states[0].threads, SleepingProducer);
    } else {
      ServedUntilLoss(states, steps, high, low, n, i - 1);
      ProducersStep(states[i - 1], steps[i - 1]);
    }
  }

  /** In an interleaving blocked producers are served throughout exactly when no step of it
      loses a wake-up. */
  lemma RunServesProducersIff<T>(states: seq<State<T>>, steps: seq<Step<T>>, high: nat, low: nat, n: nat)
    requires IsRun(states, steps) && states[0] == Start(high, low, n) && high >= 1
    ensures (forall i :: 0 <= i < |states| ==> ProducersServed(states[i]))
       <==> (forall j :: 0 <= j < |steps| ==> !LosesWakeUp(states[j], steps[j]))
  {
    if forall j :: 0 <= j < |steps| ==> !LosesWakeUp(states[j], steps[j]) {
      forall i | 0 <= i < |states|
        ensures ProducersServed(states[i])
      {
        ServedUntilLoss(states, steps, high, low, n, i);
      }
    }
    if forall i :: 0 <= i < |states| ==> ProducersServed(states[i]) {
      forall j | 0 <= j < |steps|
        ensures !LosesWakeUp(states[j], steps[j])
      {
        EveryRunIsFifo(states, steps, high, low, n, j);
        ProducersStep(states[j], steps[j]);
        assert ProducersServed(states[j + 1]);
      }
    }
  }

  /** Hence producers and consumers are not all asleep together before a wake-up is lost. */
  lemma NeverAllAsleep<T>(states: seq<State<T>>, steps: seq<Step<T>>, high: nat, low: nat, n: nat, i: nat)
    requires IsRun(states, steps) && states[0] == Start(high, low, n) && i < |states| && high >= 1
    requires forall j :: 0 <= j < i ==> !LosesWakeUp(states[j], steps[j])
    ensures !AllAsleep(states[i])
  {
    EveryRunIsFifo(states, steps, high, low, n, i);
    ServedUntilLoss(states, steps, high, low, n, i);
  }

  ghost predicate BringsMessage<T>(step: Step<T>) {
    step.Enqueue? ==> step.item.Some?
  }

  ghost predicate AllBring<T>(s: State<T>) {
    forall i :: 0 <= i < |s.threads| && s.threads[i].Producer? ==> s.threads[i].item.Some?
  }

  lemma AllBringStep<T>(s: State<T>, step: Step<T>)
    requires AllBring(s) && Enabled(s, step) && BringsMessage(step)
    ensures AllBring(After(s, step))
  {
  }

  /** When every producer brings a message, no wake-up is ever lost. */
  lemma {:induction false} NothingLostWithMessages<T>(states: seq<State<T>>, steps: seq<Step<T>>, high: nat,
                                                      low: nat, n: nat, i: nat)
    requires IsRun(states, steps) && states[0] == Start(high, low, n) && i < |states|
    requires forall j :: 0 <= j < i ==> BringsMessage(steps[j])
    ensures AllBring(states[i]) && (i < |steps| ==> !LosesWakeUp(states[i], steps[i]))
  {
    if i > 0 {
      NothingLostWithMessages(states, steps, high, low, n, i - 1);
      AllBringStep(states[i - 1], steps[i - 1]);
    }
  }

  lemma NoSuch<T>(threads: seq<Thread<T>>, k: Kind)
    requires forall i :: 0 <= i < |threads| ==> KindOf(threads[i]) != k
    ensures Count(threads, k) == 0
  {
    CountedIffThere(threads, k);
  }

  /** One step of a run. */
  ghost predicate Leads<T>(s: State<T>, step: Step<T>, s': State<T>) {
    Enabled(s, step) && After(s, step) == s'
  }

  ghost function Stranding<T>(m: T, queue: seq<T>, left: seq<T>, one: Thread<T>, two: Thread<T>,
                              three: Thread<T>): State<T> {
    State(1, 0, queue, [Away, one, two, three], [m], left)
  }

  lemma StrandingFills<T>(m: T)
    ensures Leads(Start<T>(1, 0, 4), Enqueue(0, Some(m), 0), Stranding(m, [m], [], Away, Away, Away))
    ensures Leads(Stranding(m, [m], [], Away, Away, Away), Enqueue(1, None, 0),
                  Stranding(m, [m], [], Producer(false, None), Away, Away))
    ensures Leads(Stranding(m, [m], [], Producer(false, None), Away, Away), Enqueue(2, Some(m), 0),
                  Stranding(m, [m], [], Producer(false, None), Producer(false, Some(m)), Away))
  {
    var start := Start<T>(1, 0, 4);
    NoSuch(start.threads, SleepingConsumer);
    NoSuch<T>([Away, Away, Away, Away], SleepingConsumer);
    NoSuch<T>([Away, Producer(false, None), Away, Away], SleepingConsumer);
    assert start.threads == [Away, Away, Away, Away];
  }

  lemma StrandingDrains<T>(m: T)
    ensures Leads(Stranding(m, [m], [], Producer(false, None), Producer(false, Some(m)), Away), Dequeue(3, 1),
                  Stranding(m, [], [m], Producer(true, None), Producer(false, Some(m)), Away))
    ensures Leads(Stranding(m, [], [m], Producer(true, None), Producer(false, Some(m)), Away), Retry(1, 0),
                  Stranding(m, [], [m], Away, Producer(false, Some(m)), Away))
    ensures Leads(Stranding(m, [], [m], Away, Producer(false, Some(m)), Away), Dequeue(3, 2),
                  Stranding(m, [], [m], Away, Producer(false, Some(m)), Consumer(false)))
  {
    NoSuch([Away, Producer(true, None), Producer(false, Some(m)), Away], SleepingConsumer);
  }

  lemma StrandingEnds<T>(m: T)
    ensures AllAsleep(Stranding(m, [], [m], Away, Producer(false, Some(m)), Consumer(false)))
  {
    var last := [Away, Away, Producer(false, Some(m)), Consumer(false)];
    NoSuch(last, WokenProducer);
    NoSuch(last, WokenConsumer);
    CountedIffThere(last, SleepingProducer);
    CountedIffThere(last, SleepingConsumer);
    assert KindOf(last[2]) == SleepingProducer && KindOf(last[3]) == SleepingConsumer;
  }

  lemma RunGrows<T>(states: seq<State<T>>, steps: seq<Step<T>>, s: State<T>, step: Step<T>, s': State<T>)
    returns (states': seq<State<T>>, steps': seq<Step<T>>)
    requires IsRun(states, steps) && states[|steps|] == s && Leads(s, step, s')
    ensures IsRun(states', steps') && states'[0] == states[0] && states'[|steps'|] == s'
  {
    states', steps' := states + [s'], steps + [step];
  }

  /** A producer without a message takes a wake-up with it: a run after which a producer and a
      consumer are blocked for good. */
  lemma MissingMessageStrands<T>(m: T) returns (states: seq<State<T>>, steps: seq<Step<T>>)
    ensures IsRun(states, steps) && states[0] == Start(1, 0, 4) && AllAsleep(states[|steps|])
  {
    var one, two := Producer(false, None), Producer(false, Some(m));
    var a := Stranding(m, [m], [], Away, Away, Away);
    var b := Stranding(m, [m], [], one, Away, Away);
    var c := Stranding(m, [m], [], one, two, Away);
    var d := Stranding(m, [], [m], Producer(true, None), two, Away);
    var e := Stranding(m, [], [m], Away, two, Away);
    StrandingFills(m);
    StrandingDrains(m);
    StrandingEnds(m);
    states, steps := [Start(1, 0, 4)], [];
    states, steps := RunGrows(states, steps, Start(1, 0, 4), Enqueue(0, Some(m), 0), a);
    states, steps := RunGrows(states, steps, a, Enqueue(1, None, 0), b);
    states, steps := RunGrows(states, steps, b, Enqueue(2, Some(m), 0), c);
    states, steps := RunGrows(states, steps, c, Dequeue(3, 1), d);
    states, steps := RunGrows(states, steps, d, Retry(1, 0), e);
    states, steps := RunGrows(states, steps, e, Dequeue(3, 2), Stranding(m, [], [m], Away, two, Consumer(false)));
  }
}
