/**
  The AIOCB proactor of icm-1.1/icc/PosixProactor.cpp: two parallel arrays of control blocks
  and results, three counters and a queue of posted results.  The answers of the operating
  system come from an arbitrary oracle; its calls are numbered by `clock`.
 */
module PosixProactor {
  import opened Wrappers
  import opened AioSlots

  const EINPROGRESS: int := 115
  const ECANCELED: int := 125
  const AIO_CANCELED: int := 0

  /** What `aio_read` or `aio_write` answers: queued, EAGAIN, or another error. */
  datatype StartAnswer = Started | Again | Refused(errno: int)

  /** `read`, `write`, `error`, `bytes` and `cancel` are the answers of aio_read, aio_write,
      aio_error, aio_return and aio_cancel to the call at a given time about a given operation. */
  datatype Os = Os(read: (nat, AsynchResult) -> StartAnswer, write: (nat, AsynchResult) -> StartAnswer,
                   error: (nat, AsynchResult) -> int, bytes: (nat, AsynchResult) -> int,
                   cancel: (nat, AsynchResult) -> int) {
    /** The answer to starting an operation, by its operation code. */
    function Launch(t: nat, r: AsynchResult): StartAnswer {
      match r.opcode
      case LioRead => read(t, r)
      case LioWrite => write(t, r)
    }

    /** The operation is reported in progress at some time from `t` on, before `u`. */
    ghost predicate InProgress(t: nat, u: nat, r: AsynchResult) {
      exists w: nat {:trigger error(w, r)} :: t <= w < u && error(w, r) == EINPROGRESS
    }
  }

  /** `bytes` is reported for an operation whose error status is `error`: what aio_return answers
      at time `t`, and 0 when that fails, or is not asked since the operation was cancelled or
      its status is unknown. */
  ghost predicate BytesReported(os: Os, t: nat, r: AsynchResult, error: int, bytes: int) {
    && (error != ECANCELED && error != -1 && os.bytes(t, r) != -1 ==> bytes == os.bytes(t, r))
    && (error == ECANCELED || error == -1 || os.bytes(t, r) == -1 ==> bytes == 0)
  }

  /** Slot `j` is one of the `k` slots from `i` on, going round a wheel of `n` slots. */
  ghost predicate InWheel(j: int, i: nat, k: nat, n: nat) {
    0 <= j < n && (i <= j < i + k || j + n < i + k)
  }

  function OnWheel(i: int, n: int): int {
    if i >= n then i - n else i
  }

  /** No slot was looked at twice, and none outside those `k` slots. */
  ghost predicate LookedOnce(looked: seq<nat>, i: nat, k: nat, n: nat) {
    && (forall a :: 0 <= a < |looked| ==> InWheel(looked[a], i, k, n))
    && (forall a, b :: 0 <= a < b < |looked| ==> looked[a] != looked[b])
  }

  /** Every operation running in those slots was in progress at some time from `t` on, before `u`. */
  ghost predicate AllInProgress(os: Os, t: nat, u: nat, slots: seq<Slot>, i: nat, k: nat) {
    forall j :: InWheel(j, i, k, |slots|) && slots[j].Running? ==> os.InProgress(t, u, slots[j].result)
  }

  /** Every operation that was running in `slots` is in the log, unless the system reported it in
      progress from `t` on, before `u`: what had finished by `t` is delivered, whatever becomes
      of its address after that. */
  ghost predicate DeliveredOrBusy(os: Os, t: nat, u: nat, slots: seq<Slot>, log: seq<AsynchResult>) {
    forall j :: 0 <= j < |slots| && slots[j].Running? ==>
      slots[j].result in log || os.InProgress(t, u, slots[j].result)
  }

  /** This holds of the slots before `n`, and the others still have their operations. */
  ghost predicate Swept(os: Os, t: nat, u: nat, slots: seq<Slot>, now: seq<Slot>, n: nat, log: seq<AsynchResult>) {
    && n <= |slots| == |now| && DeliveredOrBusy(os, t, u, slots[..n], log)
    && forall j :: n <= j < |slots| && slots[j].Running? ==> now[j] == slots[j]
  }

  /** Finding the next finished operation, in slot `i`, at a time before `u'`. */
  lemma SweepOn(os: Os, t: nat, u: nat, slots: seq<Slot>, before: seq<Slot>, n: nat, log: seq<AsynchResult>,
                u': nat, i: nat, now: seq<Slot>)
    requires Swept(os, t, u, slots, before, n, log) && t <= u <= u' && n <= i < |slots| && before[i].Running?
    requires AllInProgress(os, u, u', before, n, i - n) && KeepsRunning(before[i := Free], now)
    ensures Swept(os, t, u', slots, now, i + 1, log + [before[i].result])
  {
    forall j | 0 <= j < i + 1 && slots[j].Running?
      ensures slots[j].result in log + [before[i].result] || os.InProgress(t, u', slots[j].result)
    {
      if j < n {
        assert slots[..n][j] == slots[j];
      } else if j < i {
        assert InWheel(j, n, i - n, |slots|);
      }
    }
  }

  /** Serving its callback. */
  lemma SweepServed(os: Os, t: nat, u: nat, slots: seq<Slot>, before: seq<Slot>, n: nat, log: seq<AsynchResult>,
                    u': nat, now: seq<Slot>)
    requires Swept(os, t, u, slots, before, n, log) && u <= u' && KeepsRunning(before, now)
    ensures Swept(os, t, u', slots, now, n, log)
  {
    StaysDelivered(os, t, u, u', slots[..n], log, log);
  }

  /** Running operations are where they were, or delivered. */
  ghost predicate Carried(slots: seq<Slot>, slots': seq<Slot>, log': seq<AsynchResult>) {
    |slots'| == |slots|
    && forall i :: 0 <= i < |slots| && slots[i].Running? ==> slots'[i] == slots[i] || slots[i].result in log'
  }

  /** The operation `r` was tried, at some time from `t` on, before `u`: started, it is running or
      delivered; refused, it is posted with the error. */
  ghost predicate Pursued(os: Os, t: nat, u: nat, r: AsynchResult, slots: seq<Slot>, log: seq<AsynchResult>,
                          queue: seq<Posted>) {
    exists w: nat {:trigger os.Launch(w, r)} ::
      && t <= w < u
      && match os.Launch(w, r)
         case Started => Slot.Running(r) in slots || r in log
         case Again => true
         case Refused(errno) => Posted(r, errno) in queue
  }

  /** A try of slot `d` pursues its operation. */
  lemma TriedIsPursued(os: Os, t: nat, u: nat, slots: seq<Slot>, queue: seq<Posted>, d: nat,
                       slots': seq<Slot>, queue': seq<Posted>, log: seq<AsynchResult>)
    requires d < |slots| && slots[d].Deferred? && Tried(os, t, u, slots, queue, d, slots', queue')
    ensures Pursued(os, t, u, slots[d].result, slots', log, queue')
  {
    var r := slots[d].result;
    var w: nat :| && t <= w < u && slots' == slots[d := Outcome(os, w, r)]
                  && queue' == queue + match os.Launch(w, r)
                                       case Refused(errno) => [Posted(r, errno)]
                                       case _ => [];
    assert slots'[d] == Outcome(os, w, r);
    if os.Launch(w, r).Refused? {
      assert queue'[|queue|] == Posted(r, os.Launch(w, r).errno);
    }
  }

  lemma StaysPursued(os: Os, t: nat, u: nat, r: AsynchResult, slots: seq<Slot>, log: seq<AsynchResult>,
                     queue: seq<Posted>, u': nat, slots': seq<Slot>, log': seq<AsynchResult>, queue': seq<Posted>)
    requires Pursued(os, t, u, r, slots, log, queue) && u <= u'
    requires Carried(slots, slots', log') && log <= log' && queue <= queue'
    ensures Pursued(os, t, u', r, slots', log', queue')
  {
    var w: nat :| && t <= w < u
                  && match os.Launch(w, r)
                     case Started => Slot.Running(r) in slots || r in log
                     case Again => true
                     case Refused(errno) => Posted(r, errno) in queue;
    if Slot.Running(r) in slots {
      var i :| 0 <= i < |slots| && slots[i] == Slot.Running(r);
      assert slots'[i] == slots[i] ==> slots[i] in slots';
    }
  }

  /** When no further one is found, it holds of all. */
  lemma SweepEnds(os: Os, t: nat, u: nat, slots: seq<Slot>, before: seq<Slot>, n: nat, log: seq<AsynchResult>, u': nat)
    requires Swept(os, t, u, slots, before, n, log) && t <= u <= u'
    requires AllInProgress(os, u, u', before, n, |slots| - n)
    ensures DeliveredOrBusy(os, t, u', slots, log)
  {
    forall j | 0 <= j < |slots| && slots[j].Running?
      ensures slots[j].result in log || os.InProgress(t, u', slots[j].result)
    {
      if j < n {
        assert slots[..n][j] == slots[j];
      } else {
        assert InWheel(j, n, |slots| - n, |slots|);
      }
    }
  }

  lemma StaysDelivered(os: Os, t: nat, u: nat, u': nat, slots: seq<Slot>, log: seq<AsynchResult>,
                       log': seq<AsynchResult>)
    requires DeliveredOrBusy(os, t, u, slots, log) && u <= u' && log <= log'
    ensures DeliveredOrBusy(os, t, u', slots, log')
  {
  }

  lemma LookFurther(looked: seq<nat>, more: seq<nat>, i: nat, k: nat, n: nat)
    requires i + k <= n && LookedOnce(looked, 0, i, n) && LookedOnce(more, i, k, n)
    ensures LookedOnce(looked + more, 0, i + k, n)
  {
  }

  /** What a callback asks of the proactor. */
  datatype Request =
    | Start(result: Option<AsynchResult>, op: int)
    | Cancel(handle: int)
    | Post(posted: Option<AsynchResult>, error: int)

  /** The results of a queue, in order. */
  function Results(queue: seq<Posted>): (rs: seq<AsynchResult>)
    ensures |rs| == |queue| && forall i :: 0 <= i < |rs| ==> rs[i] == queue[i].result
  {
    seq(|queue|, i requires 0 <= i < |queue| => queue[i].result)
  }

  /** Delivering the head leaves the order of what is delivered and queued. */
  lemma LineMoves(log: seq<AsynchResult>, queue: seq<Posted>, queue': seq<Posted>)
    requires |queue| > 0 && queue[1..] <= queue'
    ensures log + Results(queue) <= log + [queue[0].result] + Results(queue')
  {
    assert log + Results(queue) == log + [queue[0].result] + Results(queue[1..]);
    assert Results(queue[1..]) <= Results(queue');
  }

  ghost function SlotsOf(rs: seq<Option<AsynchResult>>, cbs: seq<Option<AsynchResult>>): (s: seq<Slot>)
    requires |rs| == |cbs|
    ensures |s| == |rs|
  {
    seq(|rs|, i requires 0 <= i < |rs| =>
      if rs[i].None? then Free else if cbs[i].None? then Slot.Deferred(rs[i].value) else Slot.Running(rs[i].value))
  }

  /** Slot 0 is for reads of the notify pipe, the other slots for everything else. */
  ghost predicate SlotZeroReserved(slots: seq<Slot>, notifyHandle: int) {
    forall i :: 0 <= i < |slots| && slots[i] != Free ==> (i == 0 <==> slots[i].result.fildes == notifyHandle)
  }

  /** The counters count the occupied, running and deferred slots. */
  ghost predicate Tallied(slots: seq<Slot>, curSize: int, numStarted: int, numDeferred: int) {
    numStarted == RunningCount(slots) && numDeferred == DeferredCount(slots) && curSize == numStarted + numDeferred
  }

  /** What the operations other than `find_completed_aio` keep: running slots stay put. */
  ghost predicate KeepsRunning(slots: seq<Slot>, slots': seq<Slot>) {
    |slots'| == |slots| && forall i :: 0 <= i < |slots| && slots[i].Running? ==> slots'[i] == slots[i]
  }

  /** The slot of an operation that is started at time `t`, and deferred if there is no room. */
  ghost function Begun(os: Os, t: nat, r: AsynchResult): Slot {
    if os.Launch(t, r).Started? then Slot.Running(r) else Slot.Deferred(r)
  }

  /** What starting it at time `t` makes of a deferred operation. */
  ghost function Outcome(os: Os, t: nat, r: AsynchResult): Slot {
    match os.Launch(t, r)
    case Started => Slot.Running(r)
    case Again => Slot.Deferred(r)
    case Refused(_) => Free
  }

  ghost predicate FirstDeferred(slots: seq<Slot>, d: int) {
    0 <= d < |slots| && slots[d].Deferred? && forall j :: 0 <= j < d ==> !slots[j].Deferred?
  }

  /** At some time from `t` on, before `u`, slot `d` was tried, and nothing else happened. */
  ghost predicate Tried(os: Os, t: nat, u: nat, slots: seq<Slot>, queue: seq<Posted>, d: nat,
                        slots': seq<Slot>, queue': seq<Posted>)
    requires d < |slots| && slots[d].Deferred?
  {
    exists w: nat {:trigger os.Launch(w, slots[d].result)} ::
      && t <= w < u && slots' == slots[d := Outcome(os, w, slots[d].result)]
      && queue' == queue + match os.Launch(w, slots[d].result)
                           case Refused(errno) => [Posted(slots[d].result, errno)]
                           case _ => []
  }

  /** The first deferred operation, if there is one, was tried, and nothing else happened. */
  ghost predicate TriedFirst(os: Os, t: nat, u: nat, slots: seq<Slot>, queue: seq<Posted>,
                             slots': seq<Slot>, queue': seq<Posted>) {
    && (forall d :: FirstDeferred(slots, d) ==> Tried(os, t, u, slots, queue, d, slots', queue'))
    && ((forall d :: !FirstDeferred(slots, d)) ==> slots' == slots && queue' == queue)
  }

  lemma TriedSooner(os: Os, t': nat, t: nat, u: nat, slots: seq<Slot>, queue: seq<Posted>,
                    slots': seq<Slot>, queue': seq<Posted>)
    requires TriedFirst(os, t, u, slots, queue, slots', queue') && t' <= t
    ensures TriedFirst(os, t', u, slots, queue, slots', queue')
  {
    forall d | FirstDeferred(slots, d)
      ensures Tried(os, t', u, slots, queue, d, slots', queue')
    {
      assert Tried(os, t, u, slots, queue, d, slots', queue');
    }
  }

  /** A slot this operation may use. */
  ghost predicate Eligible(slots: seq<Slot>, notifyHandle: int, r: AsynchResult, i: int) {
    0 <= i < |slots| && slots[i] == Free && (i == 0 <==> r.fildes == notifyHandle)
  }

  /** The first such slot, which is the one it gets. */
  ghost predicate FirstEligible(slots: seq<Slot>, notifyHandle: int, r: AsynchResult, i: int) {
    Eligible(slots, notifyHandle, r, i) && forall j :: 0 <= j < i ==> !Eligible(slots, notifyHandle, r, j)
  }

  /** The result with its operation code filled in. */
  function Coded(r: AsynchResult, op: int): AsynchResult {
    r.(opcode := if op == 0 then LioRead else LioWrite)
  }

  lemma SameEligible(slots: seq<Slot>, notifyHandle: int, r: AsynchResult, r': AsynchResult)
    requires r.fildes == r'.fildes
    ensures forall i :: Eligible(slots, notifyHandle, r, i) <==> Eligible(slots, notifyHandle, r', i)
    ensures forall i :: FirstEligible(slots, notifyHandle, r, i) <==> FirstEligible(slots, notifyHandle, r', i)
  {
    forall i
      ensures Eligible(slots, notifyHandle, r, i) <==> Eligible(slots, notifyHandle, r', i)
    {
    }
  }

  predicate OnHandle(s: Slot, handle: int) {
    s != Free && s.result.fildes == handle
  }

  /** The slots after `cancel_aio` has looked at the first `n`: deferred operations on the
      handle are out. */
  ghost function Cancelled(slots: seq<Slot>, handle: int, n: nat): (r: seq<Slot>)
    requires n <= |slots|
    ensures |r| == |slots|
  {
    seq(|slots|, i requires 0 <= i < |slots| =>
      if i < n && slots[i].Deferred? && OnHandle(slots[i], handle) then Free else slots[i])
  }

  /** What `cancel_aio` posts for them, in slot order. */
  ghost function Cancellations(slots: seq<Slot>, handle: int, n: nat): seq<Posted>
    requires n <= |slots|
  {
    if n == 0 then [] else
    Cancellations(slots, handle, n - 1) +
    if slots[n - 1].Deferred? && OnHandle(slots[n - 1], handle) then [Posted(slots[n - 1].result, ECANCELED)] else []
  }

  /** The deferred operation on the handle in slot `i` is posted as cancelled after those of the
      slots before it. */
  lemma {:induction false} CancellationPosted(slots: seq<Slot>, handle: int, i: nat, n: nat)
    requires i < n <= |slots| && slots[i].Deferred? && slots[i].result.fildes == handle
    ensures |Cancellations(slots, handle, i)| < |Cancellations(slots, handle, n)|
    ensures Cancellations(slots, handle, n)[|Cancellations(slots, handle, i)|] == Posted(slots[i].result, ECANCELED)
  {
    if i < n - 1 {
      CancellationPosted(slots, handle, i, n - 1);
    }
  }

  /** Nothing else is posted. */
  lemma {:induction false} CancellationOrigin(slots: seq<Slot>, handle: int, n: nat, p: Posted)
    requires n <= |slots| && p in Cancellations(slots, handle, n)
    ensures exists i :: 0 <= i < n && slots[i].Deferred? && slots[i].result.fildes == handle
                        && p == Posted(slots[i].result, ECANCELED)
  {
    var last := if slots[n - 1].Deferred? && OnHandle(slots[n - 1], handle)
                then [Posted(slots[n - 1].result, ECANCELED)] else [];
    assert Cancellations(slots, handle, n) == Cancellations(slots, handle, n - 1) + last;
    if p in Cancellations(slots, handle, n - 1) {
      CancellationOrigin(slots, handle, n - 1, p);
    }
  }

  /** What `cancel_aio` makes of the slots: an operation on another handle, or a running one, stays
      as it is; a deferred one on the handle is out and posted as cancelled. */
  ghost predicate CancelsHandle(slots: seq<Slot>, handle: int, slots': seq<Slot>, posted: seq<Posted>) {
    && |slots'| == |slots|
    && (forall i :: 0 <= i < |slots| && (slots[i] == Free || slots[i].Running? || slots[i].result.fildes != handle) ==>
          slots'[i] == slots[i])
    && (forall i :: 0 <= i < |slots| && slots[i].Deferred? && slots[i].result.fildes == handle ==>
          slots'[i] == Free && Posted(slots[i].result, ECANCELED) in posted)
    && (forall p :: p in posted ==>
          exists i :: 0 <= i < |slots| && slots[i].Deferred? && slots[i].result.fildes == handle
                      && p == Posted(slots[i].result, ECANCELED))
  }

  lemma CancelledIsRight(slots: seq<Slot>, handle: int)
    ensures CancelsHandle(slots, handle, Cancelled(slots, handle, |slots|), Cancellations(slots, handle, |slots|))
  {
    forall i | 0 <= i < |slots| && slots[i].Deferred? && slots[i].result.fildes == handle
      ensures Posted(slots[i].result, ECANCELED) in Cancellations(slots, handle, |slots|)
    {
      CancellationPosted(slots, handle, i, |slots|);
    }
    forall p | p in Cancellations(slots, handle, |slots|)
      ensures exists i :: 0 <= i < |slots| && slots[i].Deferred? && slots[i].result.fildes == handle
                          && p == Posted(slots[i].result, ECANCELED)
    {
      CancellationOrigin(slots, handle, |slots|, p);
    }
  }

  /** The calls of aio_cancel for the running operations on the handle, and how many of those
      calls, the first one made at `t`, do not answer that the operation is cancelled. */
  ghost function CancelCalls(slots: seq<Slot>, handle: int, n: nat): nat
    requires n <= |slots|
  {
    if n == 0 then 0 else
    CancelCalls(slots, handle, n - 1) + One(slots[n - 1].Running? && OnHandle(slots[n - 1], handle))
  }

  ghost function NotCancelled(os: Os, t: nat, slots: seq<Slot>, handle: int, n: nat): nat
    requires n <= |slots|
  {
    if n == 0 then 0 else
    NotCancelled(os, t, slots, handle, n - 1) +
    One(slots[n - 1].Running? && OnHandle(slots[n - 1], handle)
        && os.cancel(t + CancelCalls(slots, handle, n - 1), slots[n - 1].result) != AIO_CANCELED)
  }

  /** Some call does not answer that the operation is cancelled. */
  ghost predicate Resisted(os: Os, t: nat, slots: seq<Slot>, handle: int, i: nat)
    requires i < |slots|
  {
    && slots[i].Running? && slots[i].result.fildes == handle
    && os.cancel(t + CancelCalls(slots, handle, i), slots[i].result) != AIO_CANCELED
  }

  lemma {:induction false} NotCancelledIff(os: Os, t: nat, slots: seq<Slot>, handle: int, n: nat)
    requires n <= |slots|
    ensures NotCancelled(os, t, slots, handle, n) > 0 <==> exists i :: 0 <= i < n && Resisted(os, t, slots, handle, i)
  {
    if n > 0 {
      NotCancelledIff(os, t, slots, handle, n - 1);
      assert Resisted(os, t, slots, handle, n - 1)
        <==> NotCancelled(os, t, slots, handle, n) > NotCancelled(os, t, slots, handle, n - 1);
    }
  }

  /** No operation is on the handle. */
  ghost predicate NoneOn(slots: seq<Slot>, handle: int) {
    forall i :: 0 <= i < |slots| && slots[i] != Free ==> slots[i].result.fildes != handle
  }

  ghost predicate SomeResisted(os: Os, t: nat, slots: seq<Slot>, handle: int) {
    exists i :: 0 <= i < |slots| && Resisted(os, t, slots, handle, i)
  }

  /** A call is made for each running operation on the handle, in slot order. */
  lemma {:induction false} CancelCallsGrow(slots: seq<Slot>, handle: int, i: nat, n: nat)
    requires i < n <= |slots|
    ensures CancelCalls(slots, handle, i) <= CancelCalls(slots, handle, n)
    ensures slots[i].Running? && slots[i].result.fildes == handle ==>
              CancelCalls(slots, handle, i) < CancelCalls(slots, handle, n)
  {
    if i < n - 1 {
      CancelCallsGrow(slots, handle, i, n - 1);
    }
  }

  /** How far the loop of `cancel_aio` has got after `n` slots. */
  ghost predicate CancelProgress(os: Os, t: nat, before: Book, handle: int, n: nat,
                                 slots: seq<Slot>, queue: seq<Posted>, clock: nat, total: int, cancelled: int) {
    && n <= |before.slots|
    && slots == Cancelled(before.slots, handle, n)
    && queue == before.queue + Cancellations(before.slots, handle, n)
    && clock == t + CancelCalls(before.slots, handle, n)
    && 0 <= cancelled <= total && total - cancelled == NotCancelled(os, t, before.slots, handle, n)
    && (total == 0 <==> forall j :: 0 <= j < n ==> !OnHandle(before.slots[j], handle))
  }

  /** One turn of that loop, on the slot `s`. */
  lemma CancelProgressStep(os: Os, t: nat, before: Book, handle: int, n: nat,
                           slots: seq<Slot>, queue: seq<Posted>, clock: nat, total: int, cancelled: int,
                           s: Slot, done: bool)
    requires CancelProgress(os, t, before, handle, n, slots, queue, clock, total, cancelled)
    requires n < |slots| && s == slots[n]
    requires OnHandle(s, handle) ==> (done <==> s.Deferred? || os.cancel(clock, s.result) == AIO_CANCELED)
    ensures CancelProgress(os, t, before, handle, n + 1,
                           if s.Deferred? && OnHandle(s, handle) then slots[n := Free] else slots,
                           queue + if s.Deferred? && OnHandle(s, handle) then [Posted(s.result, ECANCELED)] else [],
                           clock + One(s.Running? && OnHandle(s, handle)),
                           total + One(OnHandle(s, handle)), cancelled + One(OnHandle(s, handle) && done))
  {
    assert s == before.slots[n];
    assert OnHandle(s, handle) ==> total + 1 > 0;
  }

  /** What the loop has done when it ends. */
  lemma CancelEnds(os: Os, t: nat, before: Book, handle: int,
                   slots: seq<Slot>, queue: seq<Posted>, clock: nat, total: int, cancelled: int)
    requires CancelProgress(os, t, before, handle, |before.slots|, slots, queue, clock, total, cancelled)
    ensures |queue| >= |before.queue| && CancelsHandle(before.slots, handle, slots, queue[|before.queue|..])
    ensures total == 0 <==> NoneOn(before.slots, handle)
    ensures total != cancelled <==> SomeResisted(os, t, before.slots, handle)
  {
    CancelledIsRight(before.slots, handle);
    NotCancelledIff(os, t, before.slots, handle, |before.slots|);
    assert queue[|before.queue|..] == Cancellations(before.slots, handle, |before.slots|);
    if i :| 0 <= i < |before.slots| && before.slots[i] != Free && before.slots[i].result.fildes == handle {
      assert OnHandle(before.slots[i], handle);
    }
  }

  /** Where an operation may go, there is a first such slot. */
  lemma {:induction false} SomeFirstEligible(slots: seq<Slot>, notifyHandle: int, r: AsynchResult, i: nat)
    requires Eligible(slots, notifyHandle, r, i)
    ensures exists j :: FirstEligible(slots, notifyHandle, r, j)
  {
    if j: nat :| j < i && Eligible(slots, notifyHandle, r, j) {
      SomeFirstEligible(slots, notifyHandle, r, j);
    } else {
      assert FirstEligible(slots, notifyHandle, r, i);
    }
  }

  /** What requests see and change. */
  datatype Core = Core(slots: seq<Slot>, queue: seq<Posted>, accepted: seq<AsynchResult>, clock: nat)

  /** The operation `r` was started with slot `i` for it. */
  ghost function Launched(os: Os, c: Core, r: AsynchResult, i: nat): Core
    requires i < |c.slots|
  {
    if os.Launch(c.clock, r).Refused? then c.(clock := c.clock + 1)
    else c.(slots := c.slots[i := Begun(os, c.clock, r)], accepted := c.accepted + [r], clock := c.clock + 1)
  }

  /** What a request does. */
  ghost predicate Answered(os: Os, notifyHandle: int, c: Core, q: Request, c': Core) {
    match q
    case Start(result, op) =>
      if result.Some? && op in {0, 1} && exists i :: Eligible(c.slots, notifyHandle, result.value, i)
      then exists i :: && FirstEligible(c.slots, notifyHandle, result.value, i)
                       && c' == Launched(os, c, Coded(result.value, op), i)
      else c' == c
    case Cancel(handle) =>
      c' == c.(slots := Cancelled(c.slots, handle, |c.slots|),
               clock := c.clock + CancelCalls(c.slots, handle, |c.slots|),
               queue := c.queue + Cancellations(c.slots, handle, |c.slots|))
    case Post(posted, error) =>
      c' == if posted.None? then c
            else c.(queue := c.queue + [Posted(posted.value, error)], accepted := c.accepted + [posted.value])
  }

  ghost predicate AnsweredAll(os: Os, notifyHandle: int, cores: seq<Core>, requests: seq<Request>) {
    && |cores| == |requests| + 1
    && forall k :: 0 <= k < |requests| ==> Answered(os, notifyHandle, cores[k], requests[k], cores[k + 1])
  }

  /** The operation is running or deferred. */
  ghost predicate Holds(slots: seq<Slot>, r: AsynchResult) {
    exists i :: 0 <= i < |slots| && slots[i] != Free && slots[i].result == r
  }

  /** What a callback gets for its requests: a posted result is in the queue, no deferred operation
      on a cancelled handle is left, and a new operation is running or deferred if there is a
      slot for it and the system does not refuse. */
  lemma AnswerMeans(os: Os, notifyHandle: int, c: Core, q: Request, c': Core)
    requires Answered(os, notifyHandle, c, q, c')
    ensures q.Post? && q.posted.Some? ==> Posted(q.posted.value, q.error) in c'.queue && c'.slots == c.slots
    ensures q.Cancel? ==>
              forall i :: 0 <= i < |c'.slots| && c'.slots[i].Deferred? ==> c'.slots[i].result.fildes != q.handle
    ensures q.Start? && q.result.Some? && q.op == 0 && (exists i :: Eligible(c.slots, notifyHandle, q.result.value, i))
            && !os.read(c.clock, q.result.value.(opcode := LioRead)).Refused? ==>
              Holds(c'.slots, q.result.value.(opcode := LioRead))
    ensures q.Start? && q.result.Some? && q.op == 1 && (exists i :: Eligible(c.slots, notifyHandle, q.result.value, i))
            && !os.write(c.clock, q.result.value.(opcode := LioWrite)).Refused? ==>
              Holds(c'.slots, q.result.value.(opcode := LioWrite))
  {
    match q
    case Post(posted, error) =>
      if posted.Some? {
        assert c'.queue[|c.queue|] == Posted(posted.value, error);
      }
    case Cancel(handle) =>
      CancelledIsRight(c.slots, handle);
    case Start(result, op) =>
      if result.Some? && op in {0, 1} && exists i :: Eligible(c.slots, notifyHandle, result.value, i) {
        var i :| FirstEligible(c.slots, notifyHandle, result.value, i)
                 && c' == Launched(os, c, Coded(result.value, op), i);
        assert !os.Launch(c.clock, Coded(result.value, op)).Refused? ==> c'.slots[i].result == Coded(result.value, op);
      }
  }

  /** The requests of the k-th callback. */
  function Asked(script: seq<seq<Request>>, k: nat): seq<Request> {
    if k < |script| then script[k] else []
  }

  function LastAccepted(cores: seq<Core>): seq<AsynchResult>
    requires |cores| > 0
  {
    cores[|cores| - 1].accepted
  }

  /** The callbacks were served, one after the other, and nothing else was accepted: `first` were
      accepted before them, `last` after. */
  ghost predicate CallbacksServed(os: Os, notifyHandle: int, served: seq<seq<Core>>, script: seq<seq<Request>>,
                                  first: seq<AsynchResult>, last: seq<AsynchResult>) {
    && (forall k :: 0 <= k < |served| ==> AnsweredAll(os, notifyHandle, served[k], Asked(script, k)))
    && (forall k :: 0 <= k < |served| ==>
          served[k][0].accepted == if k == 0 then first else LastAccepted(served[k - 1]))
    && last == if |served| == 0 then first else LastAccepted(served[|served| - 1])
  }

  lemma ServedOneMore(os: Os, notifyHandle: int, served: seq<seq<Core>>, script: seq<seq<Request>>,
                      first: seq<AsynchResult>, last: seq<AsynchResult>, cores: seq<Core>)
    requires CallbacksServed(os, notifyHandle, served, script, first, last)
    requires AnsweredAll(os, notifyHandle, cores, Asked(script, |served|)) && cores[0].accepted == last
    ensures CallbacksServed(os, notifyHandle, served + [cores], script, first, LastAccepted(cores))
  {
  }

  class AiocbProactor {
    const os: Os
    const notifyHandle: int
    const aiocbList: array<Option<AsynchResult>>
    const resultList: array<Option<AsynchResult>>
    var curSize: int
    var numStarted: int
    var numDeferred: int
    var resultQueue: seq<Posted>
    var clock: nat

    /** The results handed to the application, and those the proactor took on, in order. */
    ghost var delivered: seq<AsynchResult>
    ghost var accepted: seq<AsynchResult>

    ghost function Slots(): (s: seq<Slot>)
      requires aiocbList.Length == resultList.Length
      reads aiocbList, resultList
      ensures |s| == resultList.Length
    {
      SlotsOf(resultList[..], aiocbList[..])
    }

    ghost function TheBook(): Book
      requires aiocbList.Length == resultList.Length
      reads this, aiocbList, resultList
    {
      Book(Slots(), resultQueue, delivered)
    }

    /** A control block is only stored beside its own result. */
    ghost predicate Agree()
      reads aiocbList, resultList
    {
      && aiocbList != resultList && aiocbList.Length == resultList.Length
      && (forall i :: 0 <= i < aiocbList.Length && aiocbList[i].Some? ==> resultList[i] == aiocbList[i])
    }

    /** The arrays agree, and the counters count the occupied, running and deferred slots. */
    ghost predicate Counted()
      reads this, aiocbList, resultList
    {
      Agree() && Tallied(Slots(), curSize, numStarted, numDeferred) && SlotZeroReserved(Slots(), notifyHandle)
    }

    /** Every accepted result is somewhere in the book as often as it was accepted. */
    ghost predicate Valid()
      reads this, aiocbList, resultList
    {
      Counted() && Balanced(TheBook(), accepted)
    }

    constructor (os: Os, notifyHandle: int, maxSize: nat)
      ensures Valid() && fresh(aiocbList) && fresh(resultList) && resultList.Length == maxSize
      ensures this.os == os && this.notifyHandle == notifyHandle
      ensures resultQueue == [] && delivered == [] && accepted == []
      ensures forall i :: 0 <= i < maxSize ==> Slots()[i] == Free
    {
      this.os, this.notifyHandle := os, notifyHandle;
      aiocbList := new Option<AsynchResult>[maxSize](_ => None);
      resultList := new Option<AsynchResult>[maxSize](_ => None);
      curSize, numStarted, numDeferred, clock := 0, 0, 0, 0;
      resultQueue, delivered, accepted := [], [], [];
      new;
      forall r
        ensures Everywhere(TheBook(), r) == 0
      {
        AllFree(Slots(), r);
      }
      AllFree(Slots(), AsynchResult(0, 0, LioRead));
    }

    /** Starts an operation: 0 when it runs, 1 when the system has no room, -1 otherwise. */
    method StartAio(result: AsynchResult) returns (ret: int, errno: int)
      modifies this`numStarted, this`clock
      ensures clock == old(clock) + 1
      ensures ret == match os.Launch(old(clock), result) case Started => 0 case Again => 1 case Refused(_) => -1
      ensures ret == -1 ==> errno == os.Launch(old(clock), result).errno
      ensures numStarted == old(numStarted) + One(ret == 0)
    {
      errno := 0;
      var answer := match result.opcode case LioRead => os.read(clock, result) case LioWrite => os.write(clock, result);
      clock := clock + 1;
      match answer {
        case Started => ret := 0; numStarted := numStarted + 1;
        case Again => ret := 1;
        case Refused(e) => ret, errno := -1, e;
      }
    }

    method AllocateAioSlot(result: AsynchResult) returns (slot: int)
      requires Counted() && (result.fildes == notifyHandle ==> resultList.Length > 0)
      ensures slot == -1 <==> forall i :: !Eligible(Slots(), notifyHandle, result, i)
      ensures slot != -1 ==> FirstEligible(Slots(), notifyHandle, result, slot)
    {
      var i := 0;
      if notifyHandle == result.fildes {
        if resultList[i].Some? {
          assert Slots()[0] != Free;
          return -1;
        }
      } else {
        i := 1;
        while i < resultList.Length && resultList[i].Some?
          invariant 1 <= i && forall j :: 1 <= j < i && j < resultList.Length ==> resultList[j].Some?
        {
          i := i + 1;
        }
      }
      if i >= resultList.Length {
        assert forall j :: 1 <= j < |Slots()| ==> Slots()[j] != Free;
        return -1;
      }
      slot := i;
      assert Slots()[slot] == Free && forall j :: 1 <= j < slot ==> Slots()[j] != Free;
      assert Eligible(Slots(), notifyHandle, result, slot);
    }

    /** The operation gets as far as being started. */
    ghost predicate Startable(result: Option<AsynchResult>, op: int)
      requires aiocbList.Length == resultList.Length
      reads aiocbList, resultList
    {
      result.Some? && op in {0, 1} && exists i :: Eligible(Slots(), notifyHandle, result.value, i)
    }

    method Register(result: Option<AsynchResult>, op: int) returns (ret: int)
      requires Valid()
      modifies this`curSize, this`numStarted, this`numDeferred, this`clock, this`accepted, aiocbList, resultList
      ensures Valid() && KeepsRunning(old(Slots()), Slots()) && ret in {0, -1}
      ensures clock == old(clock) + One(old(Startable(result, op)))
      ensures result.None? ==> (ret == 0 <==> exists i :: 0 <= i < resultList.Length && Slots()[i] == Free)
      ensures result.None? || ret == -1 ==> Slots() == old(Slots()) && accepted == old(accepted)
      ensures result.Some? ==>
                (ret == 0 <==> && op in {0, 1}
                               && (exists i :: Eligible(old(Slots()), notifyHandle, result.value, i))
                               && (op == 0 ==> !os.read(old(clock), result.value.(opcode := LioRead)).Refused?)
                               && (op == 1 ==> !os.write(old(clock), result.value.(opcode := LioWrite)).Refused?))
      ensures result.Some? && ret == 0 ==>
                && accepted == old(accepted) + [Coded(result.value, op)]
                && exists i :: && FirstEligible(old(Slots()), notifyHandle, result.value, i)
                               && Slots() == old(Slots())[i := Begun(os, old(clock), Coded(result.value, op))]
      ensures result.Some? && ret == 0 ==>
                exists i :: && 0 <= i < resultList.Length && old(Slots())[i] == Free && Slots()[i] != Free
                            && Slots()[i].result.id == result.value.id
                            && Slots()[i].result.fildes == result.value.fildes
                            && (Slots()[i].Running? <==> if op == 0 then os.read(old(clock), Slots()[i].result).Started?
                                                         else os.write(old(clock), Slots()[i].result).Started?)
    {
      ret := if curSize >= resultList.Length then -1 else 0;
      FullIff();
      if result.None? {
        return;
      }
      if op != 0 && op != 1 {
        return -1;
      }
      if ret != 0 {
        return;
      }
      var coded := Coded(result.value, op);
      var slot := AllocateAioSlot(coded);
      SameEligible(Slots(), notifyHandle, result.value, coded);
      if slot < 0 {
        return -1;
      }
      ret := StoreAndStart(coded, slot);
    }

    /** The end of `register_and_start_aio`: take the slot, start, and give it back on refusal. */
    method StoreAndStart(result: AsynchResult, slot: nat) returns (ret: int)
      requires Valid() && Eligible(Slots(), notifyHandle, result, slot)
      modifies this`curSize, this`numStarted, this`numDeferred, this`clock, this`accepted, aiocbList, resultList
      ensures Valid() && clock == old(clock) + 1 && (ret == 0 || ret == -1)
              && (ret == -1 <==> os.Launch(old(clock), result).Refused?)
      ensures ret == -1 ==> Slots() == old(Slots()) && accepted == old(accepted)
      ensures ret == 0 ==>
                && accepted == old(accepted) + [result]
                && Slots() == old(Slots())[slot := Begun(os, old(clock), result)]
    {
      ghost var book := TheBook();
      ghost var final := Begun(os, clock, result);
      ChangeSlot(book.slots, slot, final);
      FillBalances(book, accepted, slot, final);
      Put(slot, Slot.Deferred(result));
      curSize := curSize + 1;
      var errno;
      ret, errno := StartAio(result);
      if ret == 0 {
        Put(slot, Slot.Running(result));
        accepted := accepted + [result];
        assert TheBook() == book.(slots := book.slots[slot := final]);
      } else if ret == 1 {
        numDeferred := numDeferred + 1;
        accepted := accepted + [result];
        ret := 0;
        assert TheBook() == book.(slots := book.slots[slot := final]);
      } else {
        Put(slot, Free);
        curSize := curSize - 1;
        assert TheBook() == book;
      }
    }

    /** The list is full exactly when no slot is free. */
    lemma FullIff()
      requires Counted()
      ensures curSize < resultList.Length <==> exists i :: 0 <= i < resultList.Length && Slots()[i] == Free
    {
      if i :| 0 <= i < resultList.Length && Slots()[i] == Free {
        OccupiedBound(Slots(), i);
      } else {
        AllOccupied(Slots());
      }
    }

    /** Puts a slot in the state `s`. */
    method Put(i: nat, s: Slot)
      requires Agree() && i < resultList.Length
      modifies resultList, aiocbList
      ensures Agree() && Slots() == old(Slots())[i := s]
    {
      resultList[i] := if s == Free then None else Some(s.result);
      aiocbList[i] := if s.Running? then Some(s.result) else None;
    }

    /** Tries to start the first deferred operation; one that is refused is posted. */
    method StartDeferredAio() returns (ret: int)
      requires Valid()
      modifies this`curSize, this`numStarted, this`numDeferred, this`clock, this`resultQueue, aiocbList, resultList
      ensures Valid() && KeepsRunning(old(Slots()), Slots()) && clock >= old(clock) && old(resultQueue) <= resultQueue
      ensures ret == 0 ||
              exists i :: && 0 <= i < |old(Slots())| && old(Slots())[i].Deferred?
                          && os.Launch(old(clock), old(Slots())[i].result).Refused?
      ensures old(DeferredCount(Slots())) == 0 ==> Slots() == old(Slots()) && ret == 0
      ensures old(DeferredCount(Slots())) > 0 ==>
                exists i :: && 0 <= i < |old(Slots())| && old(Slots())[i].Deferred?
                            && (forall j :: 0 <= j < i ==> !old(Slots())[j].Deferred?)
                            && Slots() == match os.Launch(old(clock), old(Slots())[i].result)
                                          case Started => old(Slots())[i := Slot.Running(old(Slots())[i].result)]
                                          case Again => old(Slots())
                                          case Refused(_) => old(Slots())[i := Free]
      ensures TriedFirst(os, old(clock), clock, old(Slots()), old(resultQueue), Slots(), resultQueue)
    {
      if numDeferred == 0 {
        NothingDeferred();
        return 0;
      }
      var i := 0;
      while i < resultList.Length && !(resultList[i].Some? && aiocbList[i].None?)
        invariant 0 <= i <= resultList.Length && forall j :: 0 <= j < i ==> !Slots()[j].Deferred?
      {
        i := i + 1;
      }
      ret := -1;
      if i == resultList.Length {
        NoneDeferred(Slots());
      }
      if i < resultList.Length {
        assert FirstDeferred(Slots(), i);
        ret := RetrySlot(i);
      }
    }

    lemma NothingDeferred()
      requires Counted() && numDeferred == 0
      ensures forall d :: !FirstDeferred(Slots(), d)
    {
      if d :| FirstDeferred(Slots(), d) {
        SomeDeferred(Slots(), d);
      }
    }

    method RetrySlot(i: nat) returns (ret: int)
      requires Valid() && i < resultList.Length && Slots()[i].Deferred?
      modifies this`curSize, this`numStarted, this`numDeferred, this`clock, this`resultQueue, aiocbList, resultList
      ensures Valid() && clock == old(clock) + 1
      ensures resultQueue == old(resultQueue) + match os.Launch(old(clock), old(Slots())[i].result)
                                                case Refused(errno) => [Posted(old(Slots())[i].result, errno)]
                                                case _ => []
      ensures ret == if os.Launch(old(clock), old(Slots())[i].result).Refused? then -1 else 0
      ensures Slots() == match os.Launch(old(clock), old(Slots())[i].result)
                         case Started => old(Slots())[i := Slot.Running(old(Slots())[i].result)]
                         case Again => old(Slots())
                         case Refused(_) => old(Slots())[i := Free]
    {
      ghost var book := TheBook();
      var result := resultList[i].value;
      ghost var answer := os.Launch(clock, result);
      ChangeSlot(book.slots, i, Slot.Running(result));
      ChangeSlot(book.slots, i, Free);
      StartBalances(book, accepted, i);
      EvictBalances(book, accepted, i, if answer.Refused? then answer.errno else 0);
      var errno;
      ret, errno := StartAio(result);
      if ret == 0 {
        Put(i, Slot.Running(result));
        numDeferred := numDeferred - 1;
      } else if ret == 1 {
        ret := 0;
      } else {
        Put(i, Free);
        curSize := curSize - 1;
        numDeferred := numDeferred - 1;
        resultQueue := resultQueue + [Posted(result, errno)];
      }
    }

    /** Posts a result from outside; a missing result is refused. */
    method PostCompletion(result: Option<AsynchResult>, error: int) returns (ret: int)
      requires Valid()
      modifies this`resultQueue, this`accepted
      ensures Valid()
      ensures result.None? ==> ret == -1 && resultQueue == old(resultQueue) && accepted == old(accepted)
      ensures result.Some? ==>
                && ret == 0 && resultQueue == old(resultQueue) + [Posted(result.value, error)]
                && accepted == old(accepted) + [result.value]
    {
      if result.None? {
        return -1;
      }
      PostBalances(TheBook(), accepted, Posted(result.value, error));
      resultQueue := resultQueue + [Posted(result.value, error)];
      accepted := accepted + [result.value];
      ret := 0;
    }

    /** Moves a deferred operation to the queue as cancelled. */
    method CancelDeferred(i: nat)
      requires Valid() && i < resultList.Length && Slots()[i].Deferred?
      modifies this`curSize, this`numDeferred, this`resultQueue, aiocbList, resultList
      ensures Valid() && Slots() == old(Slots())[i := Free]
      ensures resultQueue == old(resultQueue) + [Posted(old(Slots())[i].result, ECANCELED)]
    {
      ghost var book := TheBook();
      ChangeSlot(book.slots, i, Free);
      EvictBalances(book, accepted, i, ECANCELED);
      var result := resultList[i].value;
      numDeferred := numDeferred - 1;
      Put(i, Free);
      curSize := curSize - 1;
      resultQueue := resultQueue + [Posted(result, ECANCELED)];
    }

    /** One turn of the loop in `cancel_aio`. */
    method CancelSlot(i: nat, handle: int, ghost s: Slot) returns (mine: bool, cancelled: bool)
      requires Valid() && i < resultList.Length && Slots()[i] == s
      modifies this`curSize, this`numDeferred, this`resultQueue, this`clock, aiocbList, resultList
      ensures Valid() && (mine <==> OnHandle(s, handle))
      ensures clock == old(clock) + One(s.Running? && OnHandle(s, handle))
      ensures Slots() == if s.Deferred? && OnHandle(s, handle) then old(Slots())[i := Free] else old(Slots())
      ensures resultQueue
           == old(resultQueue) + if s.Deferred? && OnHandle(s, handle) then [Posted(s.result, ECANCELED)] else []
      ensures mine ==> (cancelled <==> s.Deferred? || os.cancel(old(clock), s.result) == AIO_CANCELED)
    {
      mine, cancelled := false, false;
      if resultList[i].Some? && resultList[i].value.fildes == handle {
        mine := true;
        if aiocbList[i].None? {
          cancelled := true;
          CancelDeferred(i);
        } else {
          var rc := os.cancel(clock, resultList[i].value);
          clock := clock + 1;
          cancelled := rc == AIO_CANCELED;
        }
      }
    }

    /** The loop of `cancel_aio`, over the slots in order. */
    method CancelSlots(handle: int) returns (numTotal: int, numCancelled: int)
      requires Valid()
      modifies this`curSize, this`numDeferred, this`resultQueue, this`clock, aiocbList, resultList
      ensures Valid()
      ensures CancelProgress(os, old(clock), old(TheBook()), handle, resultList.Length, Slots(), resultQueue, clock,
                             numTotal, numCancelled)
    {
      ghost var before := TheBook();
      numTotal, numCancelled := 0, 0;
      var i := 0;
      while i < resultList.Length
        invariant Valid() && 0 <= i <= resultList.Length
        invariant CancelProgress(os, old(clock), before, handle, i, Slots(), resultQueue, clock, numTotal, numCancelled)
      {
        ghost var slots, queue, t := Slots(), resultQueue, clock;
        var mine, cancelled := CancelSlot(i, handle, slots[i]);
        CancelProgressStep(os, old(clock), before, handle, i, slots, queue, t, numTotal, numCancelled, slots[i],
                           cancelled);
        numTotal, numCancelled := numTotal + One(mine), numCancelled + One(mine && cancelled);
        i := i + 1;
      }
    }

    /** Cancels the operations on a handle: deferred ones are posted as cancelled, running ones
        are left to the operating system.  The result says whether there were none (1),
        all are cancelled (0), or some are not (2). */
    method CancelAio(handle: int) returns (ret: int)
      requires Valid()
      modifies this`curSize, this`numDeferred, this`resultQueue, this`clock, aiocbList, resultList
      ensures Valid() && ret in {0, 1, 2} && clock == old(clock) + CancelCalls(old(Slots()), handle, resultList.Length)
      ensures Slots() == Cancelled(old(Slots()), handle, resultList.Length)
      ensures resultQueue == old(resultQueue) + Cancellations(old(Slots()), handle, resultList.Length)
      ensures CancelsHandle(old(Slots()), handle, Slots(), resultQueue[|old(resultQueue)|..])
      ensures ret == 1 <==> NoneOn(old(Slots()), handle)
      ensures ret == 2 <==> SomeResisted(os, old(clock), old(Slots()), handle)
    {
      ghost var before, t := TheBook(), clock;
      var numTotal, numCancelled := CancelSlots(handle);
      CancelEnds(os, t, before, handle, Slots(), resultQueue, clock, numTotal, numCancelled);
      ret := if numTotal == 0 then 1 else if numCancelled == numTotal then 0 else 2;
    }

    /** The scan: stops at the first running slot that is not in progress. */
    method Scan(index0: nat, count0: nat) returns (index: nat, count: nat, errorStatus: int, ghost looked: seq<nat>)
      requires Valid() && index0 <= resultList.Length && resultList.Length > 0
      modifies this`clock
      ensures count <= count0 && clock >= old(clock)
      ensures AllInProgress(os, old(clock), clock, Slots(), index0, count0 - count)
      ensures count0 <= resultList.Length ==>
                LookedOnce(looked, index0, count0 - count + One(count > 0), resultList.Length)
      ensures count > 0 ==>
                && index < resultList.Length
                && (count0 <= resultList.Length ==> index == OnWheel(index0 + count0 - count, resultList.Length))
                && Slots()[index].Running? && clock > old(clock)
                && errorStatus == os.error(clock - 1, Slots()[index].result) != EINPROGRESS
    {
      index, count, errorStatus, looked := index0, count0, 0, [];
      while count > 0
        invariant count <= count0 && clock >= old(clock)
        invariant index <= resultList.Length
        invariant AllInProgress(os, old(clock), clock, Slots(), index0, count0 - count)
        invariant count0 - count <= resultList.Length ==>
                    && (index == index0 + count0 - count || index + resultList.Length == index0 + count0 - count)
                    && LookedOnce(looked, index0, count0 - count, resultList.Length)
        decreases count
      {
        if index >= resultList.Length {
          index := 0;
        }
        if aiocbList[index].Some? {
          errorStatus := os.error(clock, aiocbList[index].value);
          clock := clock + 1;
          looked := looked + [index];
          assert Slots()[index] == Slot.Running(aiocbList[index].value);
          if errorStatus == -1 || errorStatus != EINPROGRESS {
            break;
          }
          assert os.InProgress(old(clock), clock, aiocbList[index].value);
        }
        index := index + 1;
        count := count - 1;
      }
    }

    /** Looks for a finished operation over `count0` slots from slot `index0` on, round the list as
        on a wheel; the one found leaves its slot for the application, and a deferred operation
        may start. */
    method FindCompletedAio(index0: nat, count0: nat)
      returns (found: Option<AsynchResult>, errorStatus: int, returnStatus: int, index: nat, count: nat,
               ghost looked: seq<nat>)
      requires Valid() && index0 <= resultList.Length
      modifies this`curSize, this`numStarted, this`numDeferred, this`resultQueue, this`clock, this`delivered,
               aiocbList, resultList
      ensures Valid() && count <= count0 && clock >= old(clock) && old(resultQueue) <= resultQueue
      ensures count0 <= resultList.Length ==> LookedOnce(looked, index0, count0 - count, resultList.Length)
      ensures found.None? ==>
                && Slots() == old(Slots()) && delivered == old(delivered) && resultQueue == old(resultQueue)
                && AllInProgress(os, old(clock), clock, Slots(), index0, count0)
      ensures found.Some? ==>
                && count < count0 && 0 < index <= resultList.Length
                && (count0 <= resultList.Length ==>
                      index == index0 + count0 - count || index + resultList.Length == index0 + count0 - count)
                && old(Slots())[index - 1] == Slot.Running(found.value)
                && delivered == old(delivered) + [found.value]
                && KeepsRunning(old(Slots())[index - 1 := Free], Slots())
                && AllInProgress(os, old(clock), clock, old(Slots()), index0, count0 - count - 1)
                && errorStatus != EINPROGRESS
                && (exists t: nat :: && old(clock) <= t < clock && os.error(t, found.value) == errorStatus
                                     && BytesReported(os, t + 1, found.value, errorStatus, returnStatus))
                && TriedFirst(os, old(clock), clock, old(Slots())[index - 1 := Free], old(resultQueue),
                              Slots(), resultQueue)
    {
      found, errorStatus, returnStatus, index, count, looked := None, 0, 0, index0, count0, [];
      if numStarted == 0 {
        NothingRuns(index0, count0);
        return;
      }
      index, count, errorStatus, looked := Scan(index0, count0);
      if count == 0 {
        return;
      }
      found := Some(resultList[index].value);
      ghost var t: nat := clock - 1;
      assert os.error(t, found.value) == errorStatus;
      ghost var slots, queue := Slots(), resultQueue;
      returnStatus := Settle(index, errorStatus);
      TriedSooner(os, old(clock), t + 1, clock, slots[index := Free], queue, Slots(), resultQueue);
      index := index + 1;
      count := count - 1;
    }

    /** The end of `find_completed_aio`: the finished operation in slot `i` is handed over. */
    method Settle(i: nat, errorStatus: int) returns (returnStatus: int)
      requires Valid() && i < resultList.Length && Slots()[i].Running?
      modifies this`curSize, this`numStarted, this`numDeferred, this`resultQueue, this`clock, this`delivered,
               aiocbList, resultList
      ensures Valid() && KeepsRunning(old(Slots())[i := Free], Slots())
      ensures clock >= old(clock) && old(resultQueue) <= resultQueue
      ensures delivered == old(delivered) + [old(Slots())[i].result]
      ensures BytesReported(os, old(clock), old(Slots())[i].result, errorStatus, returnStatus)
      ensures TriedFirst(os, old(clock), clock, old(Slots())[i := Free], old(resultQueue), Slots(), resultQueue)
    {
      returnStatus := 0;
      if errorStatus != ECANCELED && errorStatus != -1 {
        returnStatus := os.bytes(clock, aiocbList[i].value);
        clock := clock + 1;
      }
      if returnStatus == -1 {
        returnStatus := 0;
      }
      TakeFinished(i);
      ghost var t := clock;
      var ret := StartDeferredAio();
      TriedSooner(os, old(clock), t, clock, old(Slots())[i := Free], old(resultQueue), Slots(), resultQueue);
    }

    /** The shortcut for no started operation agrees with the scan. */
    lemma NothingRuns(index: nat, count: nat)
      requires Counted() && numStarted == 0
      ensures AllInProgress(os, clock, clock, Slots(), index, count)
    {
      forall j | InWheel(j, index, count, |Slots()|) && Slots()[j].Running?
        ensures false
      {
        SomeRunning(Slots(), j);
      }
    }

    /** Empties the slot of a finished operation. */
    method TakeFinished(i: nat)
      requires Valid() && i < resultList.Length && Slots()[i].Running?
      modifies this`curSize, this`numStarted, this`delivered, aiocbList, resultList
      ensures Valid() && Slots() == old(Slots())[i := Free] && delivered == old(delivered) + [old(Slots())[i].result]
    {
      ghost var book := TheBook();
      ChangeSlot(book.slots, i, Free);
      DeliverSlotBalances(book, accepted, i);
      delivered := delivered + [book.slots[i].result];
      Put(i, Free);
      curSize := curSize - 1;
      numStarted := numStarted - 1;
    }

    ghost function TheCore(): Core
      requires aiocbList.Length == resultList.Length
      reads this, aiocbList, resultList
    {
      Core(Slots(), resultQueue, accepted, clock)
    }

    /** One request of a callback. */
    method ServeOne(request: Request)
      requires Valid()
      modifies this`curSize, this`numStarted, this`numDeferred, this`resultQueue, this`clock, this`accepted,
               aiocbList, resultList
      ensures Valid() && KeepsRunning(old(Slots()), Slots())
      ensures clock >= old(clock) && old(resultQueue) <= resultQueue && old(accepted) <= accepted
      ensures Answered(os, notifyHandle, old(TheCore()), request, TheCore())
    {
      var ret;
      match request {
        case Start(result, op) =>
          if i :| result.Some? && Eligible(Slots(), notifyHandle, result.value, i) {
            SomeFirstEligible(Slots(), notifyHandle, result.value, i);
          }
          ret := Register(result, op);
        case Cancel(handle) => ret := CancelAio(handle);
        case Post(result, error) => ret := PostCompletion(result, error);
      }
    }

    /** A callback's requests, in order. */
    method Serve(requests: seq<Request>) returns (ghost cores: seq<Core>)
      requires Valid()
      modifies this`curSize, this`numStarted, this`numDeferred, this`resultQueue, this`clock, this`accepted,
               aiocbList, resultList
      ensures Valid() && KeepsRunning(old(Slots()), Slots())
      ensures clock >= old(clock) && old(resultQueue) <= resultQueue && old(accepted) <= accepted
      ensures AnsweredAll(os, notifyHandle, cores, requests)
      ensures cores[0] == old(TheCore()) && cores[|requests|] == TheCore()
    {
      cores := [TheCore()];
      for k := 0 to |requests|
        invariant Valid() && KeepsRunning(old(Slots()), Slots())
        invariant clock >= old(clock) && old(resultQueue) <= resultQueue && old(accepted) <= accepted
        invariant AnsweredAll(os, notifyHandle, cores, requests[..k])
        invariant cores[0] == old(TheCore()) && cores[k] == TheCore()
      {
        ServeOne(requests[k]);
        cores := cores + [TheCore()];
        assert requests[..k + 1] == requests[..k] + [requests[k]];
      }
      assert requests[..|requests|] == requests;
    }

    /** The first deferred operation of `slots`, if there is one, was tried since time `t`. */
    ghost predicate FirstPursued(t: nat, slots: seq<Slot>, from: nat)
      requires aiocbList.Length == resultList.Length && from <= |delivered|
      reads this, aiocbList, resultList
    {
      forall d :: FirstDeferred(slots, d) ==>
        Pursued(os, t, clock, slots[d].result, Slots(), delivered[from..], resultQueue)
    }

    /** `find_completed_aio` as the scanning loop of `handle_events` calls it.  Since time `t`, when
        the slots were `slots`, the slots before `index0` were swept, with the deliveries from
        the `from`-th on. */
    method FindNext(index0: nat, count0: nat, ghost t: nat, ghost slots: seq<Slot>, ghost from: nat,
                    ghost looked0: seq<nat>)
      returns (found: bool, index: nat, count: nat, ghost looked: seq<nat>)
      requires Valid() && index0 + count0 == resultList.Length && t <= clock && from <= |delivered|
      requires LookedOnce(looked0, 0, index0, resultList.Length)
      requires Swept(os, t, clock, slots, Slots(), index0, delivered[from..])
      modifies this`curSize, this`numStarted, this`numDeferred, this`resultQueue, this`clock, this`delivered,
               aiocbList, resultList
      ensures Valid() && clock >= old(clock) && old(resultQueue) <= resultQueue && old(delivered) <= delivered
      ensures Carried(old(Slots()), Slots(), delivered[from..])
      ensures found ==>
                && index0 < index && index + count == resultList.Length && |delivered| == |old(delivered)| + 1
                && LookedOnce(looked, 0, index, resultList.Length)
                && Swept(os, t, clock, slots, Slots(), index, delivered[from..])
                && FirstPursued(old(clock), old(Slots()), from)
      ensures !found ==>
                && delivered == old(delivered) && LookedOnce(looked, 0, resultList.Length, resultList.Length)
                && DeliveredOrBusy(os, t, clock, slots, delivered[from..])
    {
      ghost var before, u, out, queue := Slots(), clock, delivered[from..], resultQueue;
      var result, error, bytes;
      result, error, bytes, index, count, looked := FindCompletedAio(index0, count0);
      LookFurther(looked0, looked, index0, count0 - count, resultList.Length);
      looked := looked0 + looked;
      found := result.Some?;
      if found {
        SweepOn(os, t, u, slots, before, index0, out, clock, index - 1, Slots());
        assert delivered[from..] == out + [result.value];
        PursueFirst(u, before, queue, index - 1, from);
      } else {
        SweepEnds(os, t, u, slots, before, index0, out, clock);
      }
    }

    lemma PursueFirst(u: nat, before: seq<Slot>, queue: seq<Posted>, i: nat, from: nat)
      requires aiocbList.Length == resultList.Length && from <= |delivered| && i < |before| && before[i].Running?
      requires TriedFirst(os, u, clock, before[i := Free], queue, Slots(), resultQueue)
      ensures FirstPursued(u, before, from)
    {
      forall d | FirstDeferred(before, d)
        ensures Pursued(os, u, clock, before[d].result, Slots(), delivered[from..], resultQueue)
      {
        assert FirstDeferred(before[i := Free], d);
        TriedIsPursued(os, u, clock, before[i := Free], queue, d, Slots(), resultQueue, delivered[from..]);
      }
    }

    /** One turn of the scanning loop: the callback of a delivery makes the requests. */
    method DeliverOne(requests: seq<Request>, index0: nat, count0: nat,
                      ghost t: nat, ghost slots: seq<Slot>, ghost from: nat, ghost looked0: seq<nat>)
      returns (found: bool, index: nat, count: nat, ghost looked: seq<nat>, ghost cores: seq<Core>)
      requires Valid() && index0 + count0 == resultList.Length && t <= clock && from <= |delivered|
      requires LookedOnce(looked0, 0, index0, resultList.Length)
      requires Swept(os, t, clock, slots, Slots(), index0, delivered[from..])
      modifies this
      modifies aiocbList, resultList
      ensures Valid() && clock >= old(clock) && old(resultQueue) <= resultQueue && old(accepted) <= accepted
      ensures old(delivered) <= delivered && Carried(old(Slots()), Slots(), delivered[from..])
      ensures found ==>
                && index0 < index && index + count == resultList.Length && |delivered| == |old(delivered)| + 1
                && LookedOnce(looked, 0, index, resultList.Length)
                && Swept(os, t, clock, slots, Slots(), index, delivered[from..])
                && FirstPursued(old(clock), old(Slots()), from)
                && AnsweredAll(os, notifyHandle, cores, requests)
                && cores[0].accepted == old(accepted) && cores[|requests|] == TheCore()
      ensures !found ==>
                && delivered == old(delivered) && accepted == old(accepted)
                && LookedOnce(looked, 0, resultList.Length, resultList.Length)
                && DeliveredOrBusy(os, t, clock, slots, delivered[from..])
    {
      cores := [];
      found, index, count, looked := FindNext(index0, count0, t, slots, from, looked0);
      if found {
        ghost var u, now, log, queue := clock, Slots(), delivered[from..], resultQueue;
        cores := Serve(requests);
        SweepServed(os, t, u, slots, now, index, log, clock, Slots());
        ServedPursued(old(clock), old(Slots()), u, now, log, queue, from);
      }
    }

    lemma ServedPursued(t: nat, slots: seq<Slot>, u: nat, now: seq<Slot>, log: seq<AsynchResult>, queue: seq<Posted>,
                        from: nat)
      requires aiocbList.Length == resultList.Length && from <= |delivered| && log <= delivered[from..]
      requires u <= clock && queue <= resultQueue && Carried(now, Slots(), delivered[from..])
      requires forall d :: FirstDeferred(slots, d) ==> Pursued(os, t, u, slots[d].result, now, log, queue)
      ensures FirstPursued(t, slots, from)
    {
      forall d | FirstDeferred(slots, d)
        ensures Pursued(os, t, clock, slots[d].result, Slots(), delivered[from..], resultQueue)
      {
        StaysPursued(os, t, u, slots[d].result, now, log, queue, clock, Slots(), delivered[from..], resultQueue);
      }
    }

    /** The scanning loop of `handle_events`: the callback of the k-th delivery makes the
        requests `script[k]`, which may refill slots. */
    method ScanPass(script: seq<seq<Request>>)
      returns (retval: nat, ghost looked: seq<nat>, ghost served: seq<seq<Core>>)
      requires Valid()
      modifies this
      modifies aiocbList, resultList
      ensures Valid() && clock >= old(clock) && LookedOnce(looked, 0, resultList.Length, resultList.Length)
      ensures old(delivered) <= delivered && |delivered| == |old(delivered)| + retval && retval <= resultList.Length
      ensures old(resultQueue) <= resultQueue && old(accepted) <= accepted
      ensures DeliveredOrBusy(os, old(clock), clock, old(Slots()), delivered[|old(delivered)|..])
      ensures retval > 0 ==> FirstPursued(old(clock), old(Slots()), |old(delivered)|)
      ensures |served| == retval && CallbacksServed(os, notifyHandle, served, script, old(accepted), accepted)
    {
      ghost var slots, t, from := Slots(), clock, |delivered|;
      retval, looked, served := 0, [], [];
      var index: nat, count: nat, found := 0, resultList.Length, true;
      while found
        invariant Valid() && clock >= t && old(resultQueue) <= resultQueue && old(accepted) <= accepted
        invariant old(delivered) <= delivered && |delivered| == from + retval && retval <= resultList.Length
        invariant retval == 0 && found ==> Slots() == slots && clock == t
        invariant retval > 0 ==> FirstPursued(t, slots, from)
        invariant |served| == retval && CallbacksServed(os, notifyHandle, served, script, old(accepted), accepted)
        invariant found ==>
                    && index + count == resultList.Length && retval <= index
                    && LookedOnce(looked, 0, index, resultList.Length)
                    && Swept(os, t, clock, slots, Slots(), index, delivered[from..])
        invariant !found ==>
                    && LookedOnce(looked, 0, resultList.Length, resultList.Length)
                    && DeliveredOrBusy(os, t, clock, slots, delivered[from..])
        decreases found, count
      {
        ghost var u, now, log, queue, acc := clock, Slots(), delivered[from..], resultQueue, accepted;
        ghost var cores;
        found, index, count, looked, cores := DeliverOne(Asked(script, retval), index, count, t, slots, from, looked);
        if retval > 0 {
          ServedPursued(t, slots, u, now, log, queue, from);
        }
        if found {
          ServedOneMore(os, notifyHandle, served, script, old(accepted), acc, cores);
          served := served + [cores];
          retval := retval + 1;
        }
      }
    }

    /** Hands the head of the queue to the application; its callback makes the requests. */
    method DeliverHead(requests: seq<Request>) returns (ghost cores: seq<Core>)
      requires Valid() && resultQueue != []
      modifies this
      modifies aiocbList, resultList
      ensures Valid() && KeepsRunning(old(Slots()), Slots()) && clock >= old(clock) && old(accepted) <= accepted
      ensures delivered == old(delivered) + [old(resultQueue)[0].result]
      ensures old(resultQueue)[1..] <= resultQueue && (requests == [] ==> resultQueue == old(resultQueue)[1..])
      ensures AnsweredAll(os, notifyHandle, cores, requests)
      ensures cores[0].accepted == old(accepted) && cores[|requests|] == TheCore()
    {
      DeliverHeadBalances(TheBook(), accepted);
      delivered := delivered + [resultQueue[0].result];
      resultQueue := resultQueue[1..];
      cores := Serve(requests);
    }

    /** Hands the posted results to the application; the callback of the k-th one makes the
        requests `script[k]`, which may post more. */
    method ProcessResultQueue(script: seq<seq<Request>>) returns (retval: nat, ghost served: seq<seq<Core>>)
      requires Valid()
      modifies this
      modifies aiocbList, resultList
      ensures Valid() && resultQueue == [] && old(accepted) <= accepted && clock >= old(clock)
      ensures old(delivered + Results(resultQueue)) <= delivered && |delivered| == |old(delivered)| + retval
      ensures KeepsRunning(old(Slots()), Slots())
      ensures |served| == retval && CallbacksServed(os, notifyHandle, served, script, old(accepted), accepted)
    {
      retval, served := 0, [];
      while resultQueue != []
        invariant Valid() && old(accepted) <= accepted && clock >= old(clock)
        invariant |delivered| == |old(delivered)| + retval && KeepsRunning(old(Slots()), Slots())
        invariant |served| == retval && CallbacksServed(os, notifyHandle, served, script, old(accepted), accepted)
        invariant old(delivered + Results(resultQueue)) <= delivered + Results(resultQueue)
        decreases if retval < |script| then |script| - retval else 0, |resultQueue|
      {
        ghost var log, queue, acc := delivered, resultQueue, accepted;
        ghost var cores := DeliverHead(Asked(script, retval));
        LineMoves(log, queue, resultQueue);
        ServedOneMore(os, notifyHandle, served, script, old(accepted), acc, cores);
        served := served + [cores];
        retval := retval + 1;
      }
    }

    /** One call of `handle_events`; `waited` says that aio_suspend did not fail. */
    method HandleEvents(waited: bool, scan: seq<seq<Request>>, drain: seq<seq<Request>>) returns (ret: int)
      requires Valid()
      modifies this
      modifies aiocbList, resultList
      ensures Valid() && resultQueue == [] && old(accepted) <= accepted && old(delivered) <= delivered
      ensures ret == if |delivered| > |old(delivered)| then 1 else 0
      ensures forall k :: 0 <= k < |old(resultQueue)| ==> old(resultQueue)[k].result in delivered[|old(delivered)|..]
      ensures waited ==> DeliveredOrBusy(os, old(clock), clock, old(Slots()), delivered[|old(delivered)|..])
      ensures !waited ==> KeepsRunning(old(Slots()), Slots()) && old(delivered + Results(resultQueue)) <= delivered
    {
      var retval := 0;
      if waited {
        ghost var looked, served;
        retval, looked, served := ScanPass(scan);
      }
      ghost var log, queue, u := delivered, resultQueue, clock;
      var posted; ghost var served;
      posted, served := ProcessResultQueue(drain);
      if waited {
        StaysDelivered(os, old(clock), u, clock, old(Slots()), log[|old(delivered)|..], delivered[|old(delivered)|..]);
      }
      forall k | 0 <= k < |old(resultQueue)|
        ensures old(resultQueue)[k].result in delivered[|old(delivered)|..]
      {
        assert delivered[|old(delivered)|..][|log| - |old(delivered)| + k] == (log + Results(queue))[|log| + k];
      }
      retval := retval + posted;
      ret := if retval > 0 then 1 else 0;
    }
  }
}
