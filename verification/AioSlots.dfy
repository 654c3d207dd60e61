/**
  The bookkeeping of the AIOCB proactor of icm-1.1/icc/PosixProactor.cpp on plain values: the
  slot table that the two parallel arrays encode, the queue of posted results, and the
  results handed to the application, with what each place holds and how a change moves it.
 */
module AioSlots {
  import opened Wrappers

  datatype Opcode = LioRead | LioWrite

  /** An asynchronous operation: `id` stands for the address of the result object. */
  datatype AsynchResult = AsynchResult(id: nat, fildes: int, opcode: Opcode)

  /** A posted result with the error it will be reported with. */
  datatype Posted = Posted(result: AsynchResult, error: int)

  /** Running: stored in both arrays.  Deferred: only in the result list, to be started later. */
  datatype Slot = Free | Deferred(result: AsynchResult) | Running(result: AsynchResult)

  /** Everything the proactor holds on to or has handed out. */
  datatype Book = Book(slots: seq<Slot>, queue: seq<Posted>, delivered: seq<AsynchResult>)

  function RunningCount(slots: seq<Slot>): nat {
    if |slots| == 0 then 0 else RunningCount(slots[..|slots| - 1]) + One(slots[|slots| - 1].Running?)
  }

  function DeferredCount(slots: seq<Slot>): nat {
    if |slots| == 0 then 0 else DeferredCount(slots[..|slots| - 1]) + One(slots[|slots| - 1].Deferred?)
  }

  /** How often `r` is in a running slot, in a deferred slot, in the queue, in a log. */
  function InRunning(slots: seq<Slot>, r: AsynchResult): nat {
    if |slots| == 0 then 0 else InRunning(slots[..|slots| - 1], r) + One(slots[|slots| - 1] == Slot.Running(r))
  }

  function InDeferred(slots: seq<Slot>, r: AsynchResult): nat {
    if |slots| == 0 then 0 else InDeferred(slots[..|slots| - 1], r) + One(slots[|slots| - 1] == Slot.Deferred(r))
  }

  function InQueue(queue: seq<Posted>, r: AsynchResult): nat {
    if |queue| == 0 then 0 else InQueue(queue[1..], r) + One(queue[0].result == r)
  }

  function InLog(log: seq<AsynchResult>, r: AsynchResult): nat {
    if |log| == 0 then 0 else InLog(log[..|log| - 1], r) + One(log[|log| - 1] == r)
  }

  /** How often `r` is anywhere in the book. */
  function Everywhere(b: Book, r: AsynchResult): nat {
    InRunning(b.slots, r) + InDeferred(b.slots, r) + InQueue(b.queue, r) + InLog(b.delivered, r)
  }

  /** Changing one slot changes the counts by that slot. */
  lemma {:induction false} ChangeSlot(slots: seq<Slot>, i: nat, s: Slot)
    requires i < |slots|
    ensures RunningCount(slots[i := s]) == RunningCount(slots) - One(slots[i].Running?) + One(s.Running?)
    ensures DeferredCount(slots[i := s]) == DeferredCount(slots) - One(slots[i].Deferred?) + One(s.Deferred?)
  {
    var n := |slots| - 1;
    if i == n {
      assert slots[i := s][..n] == slots[..n];
    } else {
      assert slots[i := s][..n] == slots[..n][i := s];
      ChangeSlot(slots[..n], i, s);
    }
  }

  lemma {:induction false} ChangeSlotOf(slots: seq<Slot>, i: nat, s: Slot, r: AsynchResult)
    requires i < |slots|
    ensures InRunning(slots[i := s], r)
            == InRunning(slots, r) - One(slots[i] == Slot.Running(r)) + One(s == Slot.Running(r))
    ensures InDeferred(slots[i := s], r)
            == InDeferred(slots, r) - One(slots[i] == Slot.Deferred(r)) + One(s == Slot.Deferred(r))
  {
    var n := |slots| - 1;
    if i == n {
      assert slots[i := s][..n] == slots[..n];
    } else {
      assert slots[i := s][..n] == slots[..n][i := s];
      ChangeSlotOf(slots[..n], i, s, r);
    }
  }

  lemma {:induction false} Enqueued(queue: seq<Posted>, p: Posted, r: AsynchResult)
    ensures InQueue(queue + [p], r) == InQueue(queue, r) + One(p.result == r)
  {
    if |queue| == 0 {
      assert queue + [p] == [p];
    } else {
      assert (queue + [p])[1..] == queue[1..] + [p];
      Enqueued(queue[1..], p, r);
    }
  }

  lemma Logged(log: seq<AsynchResult>, x: AsynchResult, r: AsynchResult)
    ensures InLog(log + [x], r) == InLog(log, r) + One(x == r)
  {
    assert (log + [x])[..|log|] == log;
  }

  lemma {:induction false} SomeRunning(slots: seq<Slot>, i: nat)
    requires i < |slots| && slots[i].Running?
    ensures RunningCount(slots) > 0
  {
    if i < |slots| - 1 {
      SomeRunning(slots[..|slots| - 1], i);
    }
  }

  lemma {:induction false} NoneDeferred(slots: seq<Slot>)
    requires forall i :: 0 <= i < |slots| ==> !slots[i].Deferred?
    ensures DeferredCount(slots) == 0
  {
    if |slots| > 0 {
      NoneDeferred(slots[..|slots| - 1]);
    }
  }

  lemma {:induction false} SomeDeferred(slots: seq<Slot>, i: nat)
    requires i < |slots| && slots[i].Deferred?
    ensures DeferredCount(slots) > 0
  {
    if i < |slots| - 1 {
      SomeDeferred(slots[..|slots| - 1], i);
    }
  }

  lemma {:induction false} AllFree(slots: seq<Slot>, r: AsynchResult)
    requires forall i :: 0 <= i < |slots| ==> slots[i] == Free
    ensures RunningCount(slots) == DeferredCount(slots) == InRunning(slots, r) == InDeferred(slots, r) == 0
  {
    if |slots| > 0 {
      AllFree(slots[..|slots| - 1], r);
    }
  }

  /** No more slots are occupied than there are, and fewer when one is free. */
  lemma {:induction false} OccupiedBound(slots: seq<Slot>, i: nat)
    ensures RunningCount(slots) + DeferredCount(slots) <= |slots|
    ensures i < |slots| && slots[i] == Free ==> RunningCount(slots) + DeferredCount(slots) < |slots|
  {
    if |slots| > 0 {
      OccupiedBound(slots[..|slots| - 1], i);
    }
  }

  /** When no slot is free, all are counted. */
  lemma {:induction false} AllOccupied(slots: seq<Slot>)
    requires forall i :: 0 <= i < |slots| ==> slots[i] != Free
    ensures RunningCount(slots) + DeferredCount(slots) == |slots|
  {
    if |slots| > 0 {
      AllOccupied(slots[..|slots| - 1]);
    }
  }

  // ---- Moves: what the operations do to the book --------------------------------

  /** Every result is in the book as often as it was accepted. */
  ghost predicate Balanced(b: Book, accepted: seq<AsynchResult>) {
    forall r :: Everywhere(b, r) == InLog(accepted, r)
  }

  /** A slot is filled with an accepted result. */
  lemma FillBalances(b: Book, accepted: seq<AsynchResult>, i: nat, s: Slot)
    requires Balanced(b, accepted) && i < |b.slots| && b.slots[i] == Free && s != Free
    ensures Balanced(b.(slots := b.slots[i := s]), accepted + [s.result])
  {
    forall r
      ensures Everywhere(b.(slots := b.slots[i := s]), r) == InLog(accepted + [s.result], r)
    {
      ChangeSlotOf(b.slots, i, s, r);
      Logged(accepted, s.result, r);
    }
  }

  /** A deferred operation starts to run. */
  lemma StartBalances(b: Book, accepted: seq<AsynchResult>, i: nat)
    requires Balanced(b, accepted) && i < |b.slots| && b.slots[i].Deferred?
    ensures Balanced(b.(slots := b.slots[i := Slot.Running(b.slots[i].result)]), accepted)
  {
    var s := Slot.Running(b.slots[i].result);
    forall r
      ensures Everywhere(b.(slots := b.slots[i := s]), r) == InLog(accepted, r)
    {
      ChangeSlotOf(b.slots, i, s, r);
    }
  }

  /** A result is put in the queue from outside. */
  lemma PostBalances(b: Book, accepted: seq<AsynchResult>, p: Posted)
    requires Balanced(b, accepted)
    ensures Balanced(b.(queue := b.queue + [p]), accepted + [p.result])
  {
    forall r
      ensures Everywhere(b.(queue := b.queue + [p]), r) == InLog(accepted + [p.result], r)
    {
      Enqueued(b.queue, p, r);
      Logged(accepted, p.result, r);
    }
  }

  /** An occupied slot is emptied into the queue. */
  lemma EvictBalances(b: Book, accepted: seq<AsynchResult>, i: nat, error: int)
    requires Balanced(b, accepted) && i < |b.slots| && b.slots[i] != Free
    ensures Balanced(b.(slots := b.slots[i := Free], queue := b.queue + [Posted(b.slots[i].result, error)]), accepted)
  {
    var p := Posted(b.slots[i].result, error);
    forall r
      ensures Everywhere(b.(slots := b.slots[i := Free], queue := b.queue + [p]), r) == InLog(accepted, r)
    {
      ChangeSlotOf(b.slots, i, Free, r);
      Enqueued(b.queue, p, r);
    }
  }

  /** A running slot is emptied into the hands of the application. */
  lemma DeliverSlotBalances(b: Book, accepted: seq<AsynchResult>, i: nat)
    requires Balanced(b, accepted) && i < |b.slots| && b.slots[i].Running?
    ensures Balanced(b.(slots := b.slots[i := Free], delivered := b.delivered + [b.slots[i].result]), accepted)
  {
    var x := b.slots[i].result;
    forall r
      ensures Everywhere(b.(slots := b.slots[i := Free], delivered := b.delivered + [x]), r) == InLog(accepted, r)
    {
      ChangeSlotOf(b.slots, i, Free, r);
      Logged(b.delivered, x, r);
    }
  }

  /** The head of the queue is handed to the application. */
  lemma DeliverHeadBalances(b: Book, accepted: seq<AsynchResult>)
    requires Balanced(b, accepted) && |b.queue| > 0
    ensures Balanced(b.(queue := b.queue[1..], delivered := b.delivered + [b.queue[0].result]), accepted)
  {
    forall r
      ensures Everywhere(b.(queue := b.queue[1..], delivered := b.delivered + [b.queue[0].result]), r)
              == InLog(accepted, r)
    {
      Logged(b.delivered, b.queue[0].result, r);
    }
  }

  lemma {:induction false} TwiceInLog(log: seq<AsynchResult>, r: AsynchResult, i: nat, j: nat)
    requires i < |log| && log[i] == r
    ensures InLog(log, r) >= 1
    ensures i < j < |log| && log[j] == r ==> InLog(log, r) >= 2
  {
    var n := |log| - 1;
    if i < n {
      TwiceInLog(log[..n], r, i, if j < n then j else 0);
    }
  }

  /** In a balanced book, a result that was accepted once is in exactly one of the running
      slots, the deferred slots, the queue and the hands of the application, and is delivered
      at most once; a result never accepted is nowhere. */
  lemma AcceptedIsInOnePlace(b: Book, accepted: seq<AsynchResult>, r: AsynchResult)
    requires Balanced(b, accepted)
    ensures InLog(accepted, r) == 1 ==>
              && One(InRunning(b.slots, r) > 0) + One(InDeferred(b.slots, r) > 0) + One(InQueue(b.queue, r) > 0)
                 + One(r in b.delivered) == 1
              && forall i, j :: 0 <= i < j < |b.delivered| && b.delivered[i] == r ==> b.delivered[j] != r
    ensures r !in accepted ==>
              InRunning(b.slots, r) == InDeferred(b.slots, r) == InQueue(b.queue, r) == 0 && r !in b.delivered
  {
    assert Everywhere(b, r) == InLog(accepted, r);
    if InLog(accepted, r) == 1 {
      forall i, j | 0 <= i < j < |b.delivered| && b.delivered[i] == r
        ensures b.delivered[j] != r
      {
        TwiceInLog(b.delivered, r, i, j);
      }
    }
    InLogIff(b.delivered, r);
    InLogIff(accepted, r);
  }

  lemma {:induction false} InLogIff(log: seq<AsynchResult>, r: AsynchResult)
    ensures InLog(log, r) > 0 <==> r in log
  {
    if |log| > 0 {
      var n := |log| - 1;
      InLogIff(log[..n], r);
      assert log == log[..n] + [log[n]];
    }
  }
}
