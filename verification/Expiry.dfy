/**
  What `TimerQueueT::expire` (icm-1.1/icc/TimerQueue.cpp) makes of a set of timers, on plain
  maps from timer id to timer: when an interval timer is due next, and the effect of a whole
  expiry pass for every way the handlers may answer.
 */
module Expiry {
  import opened TimeValues
  import opened HeapOrder
  import opened Wrappers

  predicate Recurring(t: Timer) {
    Total(t.interval) > 0
  }

  /** The first instant of `start + interval, start + 2 * interval, ...` after `now`, as the
      loop in `dispatchInfoI` finds it. */
  ghost function NextDue(start: int, interval: int, now: int): int
    requires interval > 0
    decreases if start <= now then now - start + 1 else 0
  {
    if start + interval > now then start + interval else NextDue(start + interval, interval, now)
  }

  /** The number of intervals skipped. */
  ghost function Steps(start: int, interval: int, now: int): (k: nat)
    requires interval > 0
    ensures k >= 1
    decreases if start <= now then now - start + 1 else 0
  {
    if start + interval > now then 1 else 1 + Steps(start + interval, interval, now)
  }

  /** The loop stops at the least `start + k * interval`, k >= 1, that is after `now`. */
  lemma {:induction false} NextDueIsLeast(start: int, interval: int, now: int)
    requires interval > 0
    ensures NextDue(start, interval, now) == start + Steps(start, interval, now) * interval
    ensures NextDue(start, interval, now) > now
    ensures forall j :: 1 <= j < Steps(start, interval, now) ==> start + j * interval <= now
    decreases if start <= now then now - start + 1 else 0
  {
    if start + interval <= now {
      NextDueIsLeast(start + interval, interval, now);
      var k := Steps(start, interval, now);
      forall j | 1 <= j < k
        ensures start + j * interval <= now
      {
        assert start + j * interval == (start + interval) + (j - 1) * interval;
        if j > 1 {
          assert 1 <= j - 1 < Steps(start + interval, interval, now);
        }
      }
    }
  }

  /** The timer put back after it fired. */
  ghost function Renewed(t: Timer, now: int): Timer
    requires Recurring(t)
  {
    t.(expiry := OfTotal(NextDue(Due(t), Total(t.interval), now)))
  }

  /** The timers after `dispatchInfoI` has fired `id`. */
  ghost function Fired(ts: map<int, Timer>, id: int, now: int): map<int, Timer>
    requires id in ts
  {
    if Recurring(ts[id]) then ts[id := Renewed(ts[id], now)] else ts - {id}
  }

  /** `ts'` is what an upcall leaves of `ts` when the handler answers `status`: on -1 the
      timers of the handler are cancelled. */
  ghost predicate AfterUpcall(ts: map<int, Timer>, h: Handler, status: int, ts': map<int, Timer>) {
    if status != -1 then ts' == ts else
    && (forall k :: k in ts' <==> k in ts && ts[k].handler != h)
    && (forall k :: k in ts' ==> ts'[k] == ts[k])
  }

  /** Handler `h` answered -1 to one of the upcalls in `log`; `status(i)` is the answer to the
      i-th upcall. */
  ghost predicate Cancelled(ts: map<int, Timer>, log: seq<int>, status: nat -> int, h: Handler) {
    exists i :: 0 <= i < |log| && log[i] in ts && ts[log[i]].handler == h && status(i) == -1
  }

  /** The pass so far: `ts0` are the timers at entry, `log` the ids fired, `ts` what is left. */
  ghost predicate Progress(ts0: map<int, Timer>, log: seq<int>, status: nat -> int, now: int, ts: map<int, Timer>) {
    FiredRight(ts0, log, status, now) && Remain(ts0, log, status, now, ts)
  }

  /** The timers fired so far. */
  ghost predicate FiredRight(ts0: map<int, Timer>, log: seq<int>, status: nat -> int, now: int) {
    FiredOnce(ts0, log, now) && InOrder(ts0, log) && StopsAfterRefusal(ts0, log, status)
  }

  /** The timers that remain. */
  ghost predicate Remain(ts0: map<int, Timer>, log: seq<int>, status: nat -> int, now: int, ts: map<int, Timer>)
    requires forall i :: 0 <= i < |log| ==> log[i] in ts0
  {
    && (forall k :: k in ts ==> k in ts0 && !Cancelled(ts0, log, status, ts0[k].handler))
    && (forall k :: k in ts && k in log ==> Recurring(ts0[k]) && ts[k] == Renewed(ts0[k], now))
    && (forall k :: k in ts && k !in log ==> ts[k] == ts0[k])
    && (forall k :: k in ts0 && k !in ts ==>
          (k in log && !Recurring(ts0[k])) || Cancelled(ts0, log, status, ts0[k].handler))
    && (forall k, j :: k in ts && k !in log && 0 <= j < |log| ==> Due(ts0[log[j]]) <= Due(ts0[k]))
  }

  /** Every fired timer was due at entry, and none fired twice. */
  ghost predicate FiredOnce(ts0: map<int, Timer>, log: seq<int>, now: int) {
    && (forall i :: 0 <= i < |log| ==> log[i] in ts0 && Due(ts0[log[i]]) <= now)
    && (forall i, j :: 0 <= i < j < |log| ==> log[i] != log[j])
  }

  /** Timers fire in order of expiry. */
  ghost predicate InOrder(ts0: map<int, Timer>, log: seq<int>)
    requires forall i :: 0 <= i < |log| ==> log[i] in ts0
  {
    forall i, j :: 0 <= i < j < |log| ==> Due(ts0[log[i]]) <= Due(ts0[log[j]])
  }

  /** Once a handler has answered -1, none of its timers fires again. */
  ghost predicate StopsAfterRefusal(ts0: map<int, Timer>, log: seq<int>, status: nat -> int)
    requires forall i :: 0 <= i < |log| ==> log[i] in ts0
  {
    forall i, j :: 0 <= i < j < |log| && ts0[log[i]].handler == ts0[log[j]].handler ==> status(i) != -1
  }

  lemma ProgressStart(ts0: map<int, Timer>, status: nat -> int, now: int)
    ensures Progress(ts0, [], status, now, ts0)
  {
  }

  lemma RenewedIsLater(t: Timer, now: int)
    requires Recurring(t)
    ensures Due(Renewed(t, now)) > now
  {
    NextDueIsLeast(Due(t), Total(t.interval), now);
  }

  /** The answers to earlier upcalls stay. */
  lemma CancelledGrows(ts0: map<int, Timer>, log: seq<int>, status: nat -> int, id: int, h: Handler)
    requires id in ts0
    ensures Cancelled(ts0, log + [id], status, h)
       <==> Cancelled(ts0, log, status, h) || (ts0[id].handler == h && status(|log|) == -1)
  {
    var log' := log + [id];
    if Cancelled(ts0, log, status, h) {
      var i :| 0 <= i < |log| && log[i] in ts0 && ts0[log[i]].handler == h && status(i) == -1;
      assert log'[i] == log[i];
    }
    if ts0[id].handler == h && status(|log|) == -1 {
      assert log'[|log|] == id;
    }
    if Cancelled(ts0, log', status, h) {
      var i :| 0 <= i < |log'| && log'[i] in ts0 && ts0[log'[i]].handler == h && status(i) == -1;
      if i < |log| {
        assert log[i] == log'[i];
      }
    }
  }

  /** An earliest timer, due, is fired: `ts` were left before. */
  ghost predicate FiresNow(ts0: map<int, Timer>, log: seq<int>, status: nat -> int, now: int, ts: map<int, Timer>,
                           id: int) {
    && Progress(ts0, log, status, now, ts)
    && id in ts && Due(ts[id]) <= now && forall k :: k in ts ==> Due(ts[id]) <= Due(ts[k])
  }

  lemma FiresAnew(ts0: map<int, Timer>, log: seq<int>, status: nat -> int, now: int, ts: map<int, Timer>, id: int)
    requires FiresNow(ts0, log, status, now, ts, id)
    ensures id in ts0 && id !in log && ts[id] == ts0[id]
  {
    if id in log {
      RenewedIsLater(ts0[id], now);
      assert false;
    }
  }

  lemma FiredRightStep(ts0: map<int, Timer>, log: seq<int>, status: nat -> int, now: int, ts: map<int, Timer>, id: int)
    requires FiresNow(ts0, log, status, now, ts, id)
    ensures FiredRight(ts0, log + [id], status, now)
  {
    FiresAnew(ts0, log, status, now, ts, id);
  }

  lemma RemainStep(ts0: map<int, Timer>, log: seq<int>, status: nat -> int, now: int, ts: map<int, Timer>, id: int,
                   ts': map<int, Timer>)
    requires FiresNow(ts0, log, status, now, ts, id) && FiredOnce(ts0, log + [id], now)
    requires AfterUpcall(Fired(ts, id, now), ts[id].handler, status(|log|), ts')
    ensures Remain(ts0, log + [id], status, now, ts')
  {
    FiresAnew(ts0, log, status, now, ts, id);
    var log' := log + [id];
    var h := ts[id].handler;
    forall g: Handler
      ensures Cancelled(ts0, log', status, g) <==> Cancelled(ts0, log, status, g) || (h == g && status(|log|) == -1)
    {
      CancelledGrows(ts0, log, status, id, g);
    }
    assert forall k :: k in log' <==> k in log || k == id;
  }

  /** One turn of the loop: an earliest timer, due, fires, and its handler's timers go when it
      answers -1. */
  lemma ProgressStep(ts0: map<int, Timer>, log: seq<int>, status: nat -> int, now: int, ts: map<int, Timer>, id: int,
                     ts': map<int, Timer>)
    requires FiresNow(ts0, log, status, now, ts, id)
    requires AfterUpcall(Fired(ts, id, now), ts[id].handler, status(|log|), ts')
    ensures id in ts0 && id !in log
    ensures Progress(ts0, log + [id], status, now, ts')
  {
    FiresAnew(ts0, log, status, now, ts, id);
    FiredRightStep(ts0, log, status, now, ts, id);
    RemainStep(ts0, log, status, now, ts, id, ts');
  }

  ghost predicate Survives(ts0: map<int, Timer>, log: seq<int>, status: nat -> int, now: int, k: int)
    requires k in ts0
  {
    (Due(ts0[k]) <= now ==> Recurring(ts0[k])) && !Cancelled(ts0, log, status, ts0[k].handler)
  }

  /** What a whole pass does.  A due timer whose handler never answered -1 fired exactly once,
      and a handler that did is not called again.  Timers of cancelling handlers are gone, due
      one-shot timers are gone, due interval timers are renewed under their old id, and other
      timers are as they were. */
  ghost predicate Settled(ts0: map<int, Timer>, log: seq<int>, status: nat -> int, now: int, ts: map<int, Timer>) {
    && FiredOnce(ts0, log, now) && InOrder(ts0, log) && StopsAfterRefusal(ts0, log, status)
    && (forall k :: k in ts0 && Due(ts0[k]) <= now && !Cancelled(ts0, log, status, ts0[k].handler) ==> k in log)
    && (forall k :: k in ts <==> k in ts0 && Survives(ts0, log, status, now, k))
    && (forall k :: k in ts ==> ts[k] == if Due(ts0[k]) <= now then Renewed(ts0[k], now) else ts0[k])
    && (forall k :: k in ts ==> Due(ts[k]) > now)
  }

  /** The loop ends settled. */
  lemma ProgressEnd(ts0: map<int, Timer>, log: seq<int>, status: nat -> int, now: int, ts: map<int, Timer>)
    requires Progress(ts0, log, status, now, ts)
    requires forall k :: k in ts ==> Due(ts[k]) > now
    ensures Settled(ts0, log, status, now, ts)
  {
    forall k | k in log
      ensures k in ts0 && Due(ts0[k]) <= now
    {
      var i :| 0 <= i < |log| && log[i] == k;
    }
  }
}
