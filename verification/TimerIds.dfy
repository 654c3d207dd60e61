/**
  The timer-id allocator of icm-1.1/icc/TimerHeap.cpp: `popFreelist`, `pushFreelist` and
  the id part of `growHeap`, as a state machine over the set of ids in use.

  An id is in use when it is active (in the heap) or in limbo (removed from the heap, not
  yet freed or rescheduled).  The allocator marches `curr` upwards to the next free id; at
  the end of the table it restarts from `minFree`, the hint kept by `pushFreelist`.
  Growth forgets the hint, so a free id behind the cursor can be lost to it.  The claim of
  the source, that a free id is always found, rests on two counts proved here: at most one
  free id is ever lost, and at least two ids are free whenever one is wanted.
 */
module TimerIds {
  datatype Alloc = Alloc(used: set<int>, max: nat, curr: nat, minFree: nat) {

    predicate Free(f: int) {
      0 <= f < max && f !in used
    }

    /** A free id the cursor has passed and a restart at `minFree` would not see. */
    predicate Lost(f: int) {
      Free(f) && f <= curr && f < minFree
    }

    /** All but the counts: the shape of the cursor and the hint. */
    ghost predicate Shape() {
      && curr < max
      && minFree <= max
      && (forall f <- used :: 0 <= f < max)
      && (minFree < max ==> minFree <= curr && Free(minFree))
      && (forall f, g :: Lost(f) && Lost(g) ==> f == g)
    }

    ghost predicate Inv() {
      Shape() && |used| + 2 <= max
    }

    /** Where the upward march from `c` stops: the first free id, or `max`. */
    function NextFree(c: nat): (r: nat)
      requires c <= max
      ensures c <= r <= max
      ensures r < max ==> Free(r)
      ensures forall f :: c <= f < r ==> !Free(f)
      decreases max - c
    {
      if c < max && !Free(c) then NextFree(c + 1) else c
    }

    /** `popFreelist`: the id handed out is the new `curr`. */
    function Pop(): Alloc
      requires curr < max
    {
      var c := NextFree(curr + 1);
      if c == max then this.(curr := minFree, minFree := max) else this.(curr := c)
    }

    /** `growHeap`, as seen by the allocator. */
    function Grow(): Alloc {
      this.(max := 2 * max, minFree := 2 * max)
    }

    /** The growth test of `insert`. */
    function Room(): Alloc {
      if |used| + 2 >= max then Grow() else this
    }

    /** `insert`: make room, then record `id` as in use. */
    function Take(id: int): Alloc {
      Room().(used := used + {id})
    }

    /** `pushFreelist`. */
    function Push(id: int): Alloc
      requires id in used && 0 <= id
    {
      var a := this.(used := used - {id});
      if id < minFree && id <= curr then a.(minFree := id) else a
    }
  }

  function Initial(size: nat): Alloc {
    Alloc({}, size, 0, 0)
  }

  /** The ids 0..n-1. */
  ghost function Range(n: nat): (r: set<int>)
    ensures |r| == n
    ensures forall i :: i in r <==> 0 <= i < n
  {
    if n == 0 then {} else Range(n - 1) + {n - 1}
  }

  ghost function FreeSet(a: Alloc): set<int> {
    set f: int | 0 <= f < a.max && f !in a.used
  }

  /** Free and used ids partition the table. */
  lemma FreeCount(a: Alloc)
    requires forall f <- a.used :: 0 <= f < a.max
    ensures |FreeSet(a)| == a.max - |a.used|
  {
    assert Range(a.max) == FreeSet(a) + a.used;
  }

  lemma SomeMember<T>(s: set<T>) returns (y: T)
    requires |s| >= 1
    ensures y in s
  {
    y :| y in s;
  }

  /** A set of two or more elements has a member other than `x`. */
  lemma AnotherMember(s: set<int>, x: int) returns (y: int)
    requires |s| >= 2
    ensures y in s && y != x
  {
    assert s == s - {x} || s == (s - {x}) + {x};
    y := SomeMember(s - {x});
  }

  /** The wrap of `popFreelist` always has a recorded hint: with every free id behind the
      cursor, two of them free and at most one lost, one is at or above `minFree`. */
  lemma HintIsRecordedAtWrap(a: Alloc)
    requires a.Inv()
    requires a.NextFree(a.curr + 1) == a.max
    ensures a.minFree < a.max
  {
    FreeCount(a);
    var x := AnotherMember(FreeSet(a), -1);
    var y := AnotherMember(FreeSet(a), x);
    assert a.Free(x) && a.Free(y);
    assert x <= a.curr && y <= a.curr;
    assert !(a.Lost(x) && a.Lost(y));
  }

  /** `popFreelist` returns an id in range that is neither active nor in limbo; no other
      free id becomes lost. */
  lemma PopFindsFreeId(a: Alloc)
    requires a.Inv()
    ensures a.Pop().curr < a.max && a.Free(a.Pop().curr)
    ensures a.Pop().used == a.used && a.Pop().max == a.max
    ensures a.Pop().minFree <= a.max
    ensures a.Pop().minFree < a.max ==> a.Pop().minFree < a.Pop().curr && a.Free(a.Pop().minFree)
    ensures forall f :: a.Pop().Lost(f) && f != a.Pop().curr ==> a.Lost(f)
  {
    if a.NextFree(a.curr + 1) == a.max {
      HintIsRecordedAtWrap(a);
    }
    var b := a.Pop();
    forall f | b.Lost(f) && f != b.curr
      ensures a.Lost(f)
    {
      assert a.Free(f);
    }
  }

  /** No id above `curr` and before `id` is free, and none above `curr` at all when `id` is not. */
  ghost predicate NoneSkipped(used: set<int>, max: int, curr: int, id: int) {
    forall f :: curr < f < max && (f < id || id <= curr) ==> f in used
  }

  /** Which free id `popFreelist` hands out: the next one above the cursor, and when there is none
      the lowest one that is not lost. */
  lemma PopTakesNextFree(a: Alloc)
    requires a.Inv()
    ensures a.curr < a.Pop().curr ==> forall f :: a.curr < f < a.Pop().curr ==> !a.Free(f)
    ensures a.Pop().curr <= a.curr ==> forall f :: a.curr < f ==> !a.Free(f)
    ensures a.Pop().curr <= a.curr ==> forall f :: f < a.Pop().curr && a.Free(f) ==> a.Lost(f)
    ensures NoneSkipped(a.used, a.max, a.curr, a.Pop().curr)
  {
    if a.NextFree(a.curr + 1) == a.max {
      HintIsRecordedAtWrap(a);
    }
    forall f | a.curr < f < a.max && (f < a.Pop().curr || a.Pop().curr <= a.curr)
      ensures f in a.used
    {
      assert !a.Free(f);
    }
  }

  /** Scheduling: the popped id is fresh, and taking it, with or without growth, keeps the
      invariant.  When the table grows exactly two ids were free, one of them the popped
      one, so growth loses at most one. */
  lemma ScheduleKeepsInv(a: Alloc)
    requires a.Inv()
    ensures a.Pop().curr !in a.used && 0 <= a.Pop().curr < a.max
    ensures a.Pop().Take(a.Pop().curr).Inv()
    ensures a.Pop().Take(a.Pop().curr).used == a.used + {a.Pop().curr}
  {
    PopFindsFreeId(a);
    var b := a.Pop();
    var t := b.Take(b.curr);
    forall f, g | t.Lost(f) && t.Lost(g)
      ensures f == g
    {
      assert f != b.curr && g != b.curr;
      if |a.used| + 2 >= a.max {
        FreeCount(a);
        assert f in FreeSet(a) && g in FreeSet(a) && b.curr in FreeSet(a);
        if f != g {
          assert {f, g, b.curr} <= FreeSet(a);
          SubsetSize({f, g, b.curr}, FreeSet(a));
          assert false;
        }
      } else {
        assert b.Lost(f) && b.Lost(g);
        assert a.Lost(f) && a.Lost(g);
      }
    }
    assert |t.used| == |a.used| + 1;
  }

  lemma SubsetSize(s: set<int>, t: set<int>)
    requires s <= t
    ensures |s| <= |t|
  {
    assert t == s + (t - s);
  }

  /** Freeing an id in use keeps the invariant. */
  lemma PushKeepsInv(a: Alloc, id: int)
    requires a.Inv() && id in a.used
    ensures a.Push(id).Inv()
  {
    var b := a.Push(id);
    forall f, g | b.Lost(f) && b.Lost(g)
      ensures f == g
    {
      assert f != id ==> a.Lost(f);
      assert g != id ==> a.Lost(g);
    }
    assert a.minFree < a.max ==> a.Free(a.minFree);
  }

  /** Putting back an id in use never grows the table. */
  lemma TakeBack(a: Alloc, id: int)
    requires a.Inv() && id in a.used
    ensures a.(used := a.used - {id}).Take(id) == a
  {
    assert |a.used - {id}| == |a.used| - 1;
    assert (a.used - {id}) + {id} == a.used;
  }

  // ---- Whole runs -------------------------------------------------------------

  /** What clients can make the allocator do.  Moving an id between active and limbo
      (`removeFirst`, `reschedule`) leaves the ids in use as they are. */
  datatype Op = Schedule | Release(id: int) | Move

  ghost predicate Allowed(a: Alloc, op: Op) {
    op.Release? ==> op.id in a.used
  }

  function Step(a: Alloc, op: Op): Alloc
    requires a.curr < a.max
  {
    match op
    case Schedule => a.Pop().Take(a.Pop().curr)
    case Release(id) => if id in a.used && 0 <= id then a.Push(id) else a
    case Move => a
  }

  /** The states a run visits, as a sequence that starts at `Initial(size)`. */
  ghost predicate IsRun(size: nat, states: seq<Alloc>, ops: seq<Op>) {
    && |states| == |ops| + 1
    && states[0] == Initial(size)
    && forall i :: 0 <= i < |ops| ==>
         states[i].curr < states[i].max && Allowed(states[i], ops[i]) && states[i + 1] == Step(states[i], ops[i])
  }

  lemma {:induction false} RunKeepsInv(size: nat, states: seq<Alloc>, ops: seq<Op>, n: nat)
    requires size >= 2 && IsRun(size, states, ops) && n < |states|
    ensures states[n].Inv()
  {
    if n > 0 {
      RunKeepsInv(size, states, ops, n - 1);
      var a := states[n - 1];
      match ops[n - 1]
      case Schedule => ScheduleKeepsInv(a);
      case Release(id) => PushKeepsInv(a, id);
      case Move =>
    }
  }

  /** From any initial size of at least two, in every state of every run, `popFreelist`
      hands out an in-range id that is neither active nor in limbo, and `scheduleI` never
      finds the table full. */
  lemma EveryRunFindsFreeId(size: nat, states: seq<Alloc>, ops: seq<Op>, n: nat)
    requires size >= 2 && IsRun(size, states, ops) && n < |states|
    ensures |states[n].used| < states[n].max
    ensures states[n].curr < states[n].max
    ensures 0 <= states[n].Pop().curr < states[n].max
    ensures states[n].Pop().curr !in states[n].used
  {
    RunKeepsInv(size, states, ops, n);
    ScheduleKeepsInv(states[n]);
  }

  // ---- The first wrap -----------------------------------------------------------

  /** Scheduling in this state restarts the march at the hint. */
  ghost predicate Wraps(a: Alloc) {
    a.curr < a.max && a.NextFree(a.curr + 1) == a.max
  }

  /** None of the first `n` operations wraps. */
  ghost predicate NoWrapBefore(states: seq<Alloc>, ops: seq<Op>, n: nat) {
    forall i :: 0 <= i < n && i < |ops| && i < |states| && ops[i].Schedule? ==> !Wraps(states[i])
  }

  lemma ZeroRecordedStep(a: Alloc, op: Op)
    requires a.Inv() && Allowed(a, op) && (op.Schedule? ==> !Wraps(a)) && 0 !in a.used
    ensures 0 !in Step(a, op).used && Step(a, op).max >= a.max
    ensures Step(a, op).minFree == 0 <==> a.minFree == 0 && Step(a, op).max == a.max
  {
    if op.Schedule? {
      assert a.Pop() == a.(curr := a.NextFree(a.curr + 1));
    }
  }

  lemma ZeroLostStep(a: Alloc, op: Op)
    requires a.Inv() && Allowed(a, op) && 0 !in a.used && a.minFree > 0
    ensures 0 !in Step(a, op).used && Step(a, op).minFree > 0
  {
    if op.Schedule? {
      assert a.Pop().curr > 0 && a.Pop().used == a.used;
    }
  }

  /** Until the first wrap id 0 stays unused, and it is recorded exactly until the table grows. */
  lemma {:induction false} BeforeFirstWrap(size: nat, states: seq<Alloc>, ops: seq<Op>, n: nat)
    requires size >= 2 && IsRun(size, states, ops) && n < |states| && NoWrapBefore(states, ops, n)
    ensures 0 !in states[n].used && states[n].max >= size
    ensures if states[n].max == size then states[n].minFree == 0 else states[n].minFree > 0
  {
    if n > 0 {
      BeforeFirstWrap(size, states, ops, n - 1);
      RunKeepsInv(size, states, ops, n - 1);
      ZeroRecordedStep(states[n - 1], ops[n - 1]);
    }
  }

  /** An id 0 that is neither in use nor recorded is never in use again. */
  lemma {:induction false} ZeroStaysLost(size: nat, states: seq<Alloc>, ops: seq<Op>, n: nat, m: nat)
    requires size >= 2 && IsRun(size, states, ops) && n <= m < |states|
    requires 0 !in states[n].used && states[n].minFree > 0
    ensures 0 !in states[m].used && states[m].minFree > 0
    decreases m
  {
    if n < m {
      ZeroStaysLost(size, states, ops, n, m - 1);
      RunKeepsInv(size, states, ops, m - 1);
      ZeroLostStep(states[m - 1], ops[m - 1]);
    }
  }

  /** The comment above the constructor says that the id after a wrap is 0.  In every run this
      holds of the first wrap exactly when the table has not grown before it; once it has
      grown, 0 is handed out at no later point of the run. */
  lemma FirstWrapGivesZeroIff(size: nat, states: seq<Alloc>, ops: seq<Op>, n: nat)
    requires size >= 2 && IsRun(size, states, ops) && n < |states| && NoWrapBefore(states, ops, n)
    ensures Wraps(states[n]) ==> (states[n].Pop().curr == 0 <==> states[n].max == size)
    ensures states[n].max != size ==> forall m :: n <= m < |states| ==> 0 !in states[m].used
  {
    BeforeFirstWrap(size, states, ops, n);
    if states[n].max != size {
      forall m | n <= m < |states|
        ensures 0 !in states[m].used
      {
        ZeroStaysLost(size, states, ops, n, m);
      }
    }
  }

  lemma LosingSteps()
    ensures Step(Initial(2), Schedule) == Alloc({1}, 4, 1, 4)
    ensures Step(Alloc({1}, 4, 1, 4), Schedule) == Alloc({1, 2}, 4, 2, 4)
    ensures Step(Alloc({1, 2}, 4, 2, 4), Release(1)) == Alloc({2}, 4, 2, 1)
    ensures Step(Alloc({2}, 4, 2, 1), Schedule) == Alloc({2, 3}, 4, 3, 1)
  {
    assert Initial(2).NextFree(1) == 1 && Alloc({1}, 4, 1, 4).NextFree(2) == 2 && Alloc({2}, 4, 2, 1).NextFree(3) == 3;
    assert {} + {1} == {1} && {1} + {2} == {1, 2} && {1, 2} - {1} == {2} && {2} + {3} == {2, 3};
  }

  /** Such a run from size 2: the table grows at once, and at the wrap 1 is handed out although
      0 is free. */
  lemma GrowthCanLoseAnId() returns (states: seq<Alloc>, ops: seq<Op>)
    ensures |ops| == 4 && IsRun(2, states, ops) && NoWrapBefore(states, ops, 4)
    ensures Wraps(states[4]) && states[4].Free(0) && states[4].Pop().curr == 1
  {
    LosingSteps();
    ops := [Schedule, Schedule, Release(1), Schedule];
    states := [Initial(2), Alloc({1}, 4, 1, 4), Alloc({1, 2}, 4, 2, 4), Alloc({2}, 4, 2, 1), Alloc({2, 3}, 4, 3, 1)];
  }
}
