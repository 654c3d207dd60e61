/**
  The timer heap of icm-1.1/icc/TimerHeap.cpp: a binary heap of timer nodes kept in step
  with a table that maps each timer id to a heap slot, a limbo marker or a free marker; and
  the queue operations of icm-1.1/icc/TimerQueue.cpp that run on it.
 */
module TimerHeaps {
  import opened Wrappers
  import opened TimeValues
  import opened TimerIds
  import opened HeapOrder
  import opened TimerTables
  import opened Expiry

  class TimerNode {
    const handler: Handler
    const act: int
    const timerId: int
    var timerValue: Time
    var interval: Time

    constructor (handler: Handler, act: int, timerValue: Time, interval: Time, timerId: int)
      ensures this.handler == handler && this.act == act && this.timerId == timerId
      ensures this.timerValue == timerValue && this.interval == interval
    {
      this.handler, this.act, this.timerId := handler, act, timerId;
      this.timerValue, this.interval := timerValue, interval;
    }

    ghost function View(): Timer
      reads this
    {
      Timer(handler, act, timerValue, interval)
    }
  }

  /** What the upcall is told about a timer. */
  datatype DispatchInfo = DispatchInfo(handler: Handler, act: int, recurring: bool)

  /** The id in each heap slot. */
  ghost function Ids(h: seq<TimerNode?>): (s: seq<int>)
    ensures |s| == |h|
  {
    seq(|h|, i requires 0 <= i < |h| => if h[i] == null then -1 else h[i].timerId)
  }

  lemma SamePrefixIds(h: seq<TimerNode?>, h': seq<TimerNode?>)
    requires |h| <= |h'| && h'[..|h|] == h
    ensures Ids(h')[..|h|] == Ids(h)
  {
    assert forall i :: 0 <= i < |h| ==> h'[i] == h[i];
  }

  /** The new heap array of `growHeap`: a copy, with room. */
  method GrownHeap(heap: array<TimerNode?>, newSize: nat) returns (newHeap: array<TimerNode?>)
    requires newSize == 2 * heap.Length
    ensures fresh(newHeap) && newHeap.Length == newSize && newHeap[..heap.Length] == heap[..]
  {
    newHeap := new TimerNode?[newSize](_ => null);
    forall i | 0 <= i < heap.Length {
      newHeap[i] := heap[i];
    }
  }

  /** The new id table of `growHeap`: a copy, and a negative entry for each new id. */
  method GrownTable(timerIds: array<int>, newSize: nat) returns (newTimerIds: array<int>)
    requires newSize == 2 * timerIds.Length
    ensures fresh(newTimerIds) && newTimerIds[..] == GrownIds(timerIds[..])
  {
    var maxSize := timerIds.Length;
    newTimerIds := new int[newSize];
    forall i | 0 <= i < maxSize {
      newTimerIds[i] := timerIds[i];
    }
    for i := maxSize to newSize
      modifies newTimerIds
      invariant forall k :: 0 <= k < maxSize ==> newTimerIds[k] == timerIds[k]
      invariant forall k :: maxSize <= k < i ==> newTimerIds[k] == -(k + 1)
    {
      newTimerIds[i] := -(i + 1);
    }
  }

  lemma AddThenDrop(m: map<int, TimerNode>, k: int, t: TimerNode)
    requires k !in m
    ensures m[k := t] - {k} == m
  {
  }

  /** The ids in use when `k` goes into limbo, and when it is freed from there. */
  lemma KeysIntoLimbo(ts: map<int, Timer>, limbo: map<int, TimerNode>, k: int, t: TimerNode)
    requires k in ts
    ensures limbo[k := t].Keys == limbo.Keys + {k}
    ensures (ts - {k}).Keys + limbo[k := t].Keys == ts.Keys + limbo.Keys
  {
  }

  lemma KeysFreed(ts: map<int, Timer>, limbo: map<int, TimerNode>, k: int)
    requires k !in ts
    ensures (limbo - {k}).Keys == limbo.Keys - {k}
    ensures ts.Keys + (limbo - {k}).Keys == ts.Keys + limbo.Keys - {k}
  {
  }

  /** `count` timers, all of one handler, are gone and the others are as they were. */
  ghost predicate Purged(ts0: map<int, Timer>, ts: map<int, Timer>, gone: set<int>, handler: Handler, count: int) {
    && |gone| == count && ts == ts0 - gone
    && (forall k :: k in gone ==> k in ts0 && ts0[k].handler == handler)
  }

  lemma PurgeOne(ts0: map<int, Timer>, ts: map<int, Timer>, gone: set<int>, handler: Handler, count: int, id: int)
    requires Purged(ts0, ts, gone, handler, count) && id in ts && ts[id].handler == handler
    ensures Purged(ts0, ts - {id}, gone + {id}, handler, count + 1)
  {
    assert (ts0 - gone) - {id} == ts0 - (gone + {id});
  }

  /** No timer in the first `n` slots belongs to the handler. */
  ghost predicate NoneOf(h: seq<TimerNode?>, n: int, handler: Handler) {
    forall j :: 0 <= j < n <= |h| && h[j] != null ==> h[j].handler != handler
  }

  lemma NoneOfNext(h: seq<TimerNode?>, i: nat, handler: Handler)
    requires i < |h| && NoneOf(h, i, handler) && (h[i] != null ==> h[i].handler != handler)
    ensures NoneOf(h, i + 1, handler)
  {
  }

  /** Firing a timer is taking it out and, when it recurs, putting it back renewed. */
  lemma FiredByPutBack(ts: map<int, Timer>, id: int, now: int)
    requires id in ts
    ensures Fired(ts, id, now) == if Recurring(ts[id]) then (ts - {id})[id := Renewed(ts[id], now)] else ts - {id}
  {
    if Recurring(ts[id]) {
      assert (ts - {id})[id := Renewed(ts[id], now)] == ts[id := Renewed(ts[id], now)];
    }
  }

  /** The do-while loop that moves an interval timer past the current time. */
  method SkipPast(node: TimerNode, now: Time)
    requires Total(node.interval) > 0
    modifies node`timerValue
    ensures node.timerValue == OfTotal(NextDue(old(Total(node.timerValue)), Total(node.interval), Total(now)))
  {
    node.timerValue := Plus(node.timerValue, node.interval);
    ComparisonsAreOrderOfTotals(node.timerValue, now);
    ghost var goal := NextDue(old(Total(node.timerValue)), Total(node.interval), Total(now));
    while LessEq(node.timerValue, now)
      invariant LessEq(node.timerValue, now) <==> Total(node.timerValue) <= Total(now)
      invariant goal == if Total(node.timerValue) <= Total(now)
                        then NextDue(Total(node.timerValue), Total(node.interval), Total(now))
                        else Total(node.timerValue)
      decreases Total(now) - Total(node.timerValue)
    {
      node.timerValue := Plus(node.timerValue, node.interval);
      ComparisonsAreOrderOfTotals(node.timerValue, now);
    }
    CanonicalIsUnique(node.timerValue);
  }

  /** The timeout for a first expiry `left` microseconds away: the smaller of it and the
      caller's limit, and zero when it has passed. */
  ghost predicate IsTimeout(left: int, limit: Option<Time>, timeout: int) {
    timeout == if left <= 0 then 0 else if limit.Some? && Total(limit.value) < left then Total(limit.value) else left
  }

  class TimerHeap {
    var heap: array<TimerNode?>
    var timerIds: array<int>
    var maxSize: nat
    var curSize: nat
    var curLimbo: nat
    var timerIdsCurr: nat
    var timerIdsMinFree: nat

    /** The active timers as values, by id, and the nodes they live in. */
    ghost var timers: map<int, Timer>
    ghost var owned: set<TimerNode>

    /** The nodes in limbo, by id. */
    ghost var limbo: map<int, TimerNode>

    /** The first `n` slots, `hole` apart, hold nodes of active timers. */
    ghost predicate Backed(n: nat, hole: int)
      reads this`heap, this`timers, this`owned, heap, owned
    {
      && n <= heap.Length
      && (forall i :: 0 <= i < n && i != hole ==> heap[i] != null && heap[i] in owned)
      && (forall i :: 0 <= i < n && i != hole ==>
            heap[i].timerId in timers && timers[heap[i].timerId] == heap[i].View())
    }

    /** A node that stands for an active timer. */
    ghost predicate Active(node: TimerNode)
      reads this, node
    {
      && node in owned && node.timerId in timers && timers[node.timerId] == node.View()
      && 0 <= node.timerId < timerIds.Length
    }

    lemma KeyIsDue(n: nat, hole: int, i: nat)
      requires Backed(n, hole) && i < n && i != hole
      ensures Key(Ids(heap[..]), timers, i) == Due(heap[i].View())
    {
    }

    /** Fills slot `slot` of the first `n` and leaves `hole`, where `moved` came from, open. */
    method Copy(slot: nat, moved: TimerNode, ghost n: nat, ghost hole: int)
      requires slot < n && Backed(n, slot) && Active(moved)
      modifies heap, timerIds
      ensures Backed(n, hole)
      ensures Ids(heap[..]) == Ids(old(heap[..]))[slot := moved.timerId]
      ensures timerIds[..] == SetId(old(timerIds[..]), moved.timerId, slot)
    {
      heap[slot] := moved;
      timerIds[moved.timerId] := slot;
    }

    /** The active ids are indices of the table. */
    ghost predicate InTable()
      reads this`timers, this`timerIds
    {
      forall k :: k in timers ==> 0 <= k < timerIds.Length
    }

    method ReheapUp(moved: TimerNode, slot0: nat, parent0: nat, ghost n: nat)
      requires slot0 < n && parent0 == Parent(slot0) && Backed(n, slot0) && Active(moved) && InTable()
      modifies heap, timerIds
      ensures Backed(n, -1)
      ensures (Ids(heap[..]), timerIds[..])
           == SiftUp(Ids(old(heap[..])), old(timerIds[..]), timers, slot0, moved.timerId)
    {
      ghost var id := moved.timerId;
      ghost var goal := SiftUp(Ids(heap[..]), timerIds[..], timers, slot0, id);
      var slot: nat, parent: nat := slot0, parent0;
      while slot > 0
        invariant slot < n && parent == Parent(slot) && Backed(n, slot)
        invariant SiftUp(Ids(heap[..]), timerIds[..], timers, slot, id) == goal
      {
        ComparisonsAreOrderOfTotals(moved.timerValue, heap[parent].timerValue);
        KeyIsDue(n, slot, parent);
        if Less(moved.timerValue, heap[parent].timerValue) {
          SiftUpMoves(Ids(heap[..]), timerIds[..], timers, slot, id);
          Copy(slot, heap[parent], n, parent);
          slot := parent;
          parent := Parent(slot);
        } else {
          break;
        }
      }
      SiftUpStops(Ids(heap[..]), timerIds[..], timers, slot, id);
      Copy(slot, moved, n, -1);
    }

    method ChooseChild(ghost slot: nat, left: nat) returns (child: nat)
      requires left == LeftChild(slot) < curSize && Backed(curSize, slot)
      ensures child == SmallerChild(Ids(heap[..]), timers, curSize, slot)
    {
      child := left;
      KeyIsDue(curSize, slot, left);
      if left + 1 < curSize {
        KeyIsDue(curSize, slot, left + 1);
        ComparisonsAreOrderOfTotals(heap[left + 1].timerValue, heap[left].timerValue);
        if Less(heap[left + 1].timerValue, heap[left].timerValue) {
          child := left + 1;
        }
      }
    }

    method ReheapDown(moved: TimerNode, slot0: nat, child0: nat)
      requires slot0 < curSize && child0 == LeftChild(slot0) && Backed(curSize, slot0) && Active(moved) && InTable()
      modifies heap, timerIds
      ensures Backed(curSize, -1)
      ensures (Ids(heap[..]), timerIds[..])
           == SiftDown(Ids(old(heap[..])), old(timerIds[..]), timers, curSize, slot0, moved.timerId)
    {
      ghost var id := moved.timerId;
      ghost var goal := SiftDown(Ids(heap[..]), timerIds[..], timers, curSize, slot0, id);
      var slot: nat, child: nat := slot0, child0;
      while child < curSize
        invariant slot < curSize && child == LeftChild(slot) && Backed(curSize, slot)
        invariant SiftDown(Ids(heap[..]), timerIds[..], timers, curSize, slot, id) == goal
        decreases curSize - slot
      {
        child := ChooseChild(slot, child);
        ComparisonsAreOrderOfTotals(heap[child].timerValue, moved.timerValue);
        KeyIsDue(curSize, slot, child);
        if Less(heap[child].timerValue, moved.timerValue) {
          SiftDownMoves(Ids(heap[..]), timerIds[..], timers, curSize, slot, id);
          Copy(slot, heap[child], curSize, child);
          slot := child;
          child := LeftChild(child);
        } else {
          break;
        }
      }
      SiftDownStops(Ids(heap[..]), timerIds[..], timers, curSize, slot, id);
      Copy(slot, moved, curSize, -1);
    }

    /** The allocator state held in the fields. */
    ghost function Allocator(): Alloc
      reads this
    {
      Alloc(timers.Keys + limbo.Keys, maxSize, timerIdsCurr, timerIdsMinFree)
    }

    /** The fields are consistent; the marker of id `ex` is left open. */
    ghost predicate Tables(ex: int)
      reads this, heap, timerIds, owned
    {
      && heap.Length == timerIds.Length == maxSize && Backed(curSize, -1)
      && Consistent(Ids(heap[..]), timerIds[..], timers, limbo.Keys, curSize, curLimbo, ex)
    }

    ghost predicate Valid()
      reads this, heap, timerIds, owned
    {
      Tables(-1) && Allocator().Inv()
    }

    constructor (size: nat)
      ensures fresh(heap) && fresh(timerIds)
      ensures timers == map[] && limbo == map[] && maxSize == size && owned == {}
      ensures Tables(-1) && Allocator() == Initial(size)
      ensures Valid() <==> size >= 2
    {
      heap := new TimerNode?[size](_ => null);
      timerIds := new int[size];
      maxSize, curSize, curLimbo, timerIdsCurr, timerIdsMinFree := size, 0, 0, 0, 0;
      limbo, timers, owned := map[], map[], {};
      new;
      for i := 0 to size
        modifies timerIds
        invariant forall k :: 0 <= k < i ==> timerIds[k] == FREED
      {
        timerIds[i] := FREED;
      }
      EmptyIsConsistent(Ids(heap[..]), timerIds[..]);
      assert Allocator() == Initial(size);
    }

    /** The middle of `remove`: the last node takes the freed slot and is sifted. */
    method FillGap(slot: nat)
      requires slot <= curSize < heap.Length
      requires Backed(curSize + 1, slot) && InTable()
      modifies heap, timerIds
      ensures Backed(curSize, -1)
      ensures slot < curSize ==> Ids(old(heap[..]))[curSize] in timers
      ensures (Ids(heap[..]), timerIds[..]) == CloseGap(Ids(old(heap[..])), old(timerIds[..]), timers, curSize, slot)
    {
      if slot < curSize {
        var moved := heap[curSize];
        Copy(slot, moved, curSize, -1);
        var parent := Parent(slot);
        ComparisonsAreOrderOfTotals(moved.timerValue, heap[parent].timerValue);
        KeyIsDue(curSize, -1, parent);
        if GreaterEq(moved.timerValue, heap[parent].timerValue) {
          ReheapDown(moved, slot, LeftChild(slot));
        } else {
          ReheapUp(moved, slot, parent, curSize);
        }
      }
    }

    /** The nodes of the other slots do not carry the id of `slot`. */
    lemma GapBacked(slot: nat, id: int)
      requires Tables(-1) && slot < curSize && heap[slot].timerId == id
      ensures id in timers && 0 <= id < timerIds.Length && id !in limbo && Ids(heap[..])[slot] == id
      ensures forall i :: 0 <= i < curSize && i != slot ==> heap[i].timerId in timers - {id}
      ensures InTable()
    {
      var hs, ids := Ids(heap[..]), timerIds[..];
      assert forall i :: 0 <= i < curSize ==> hs[i] == heap[i].timerId && ids[hs[i]] == i;
    }

    /** The body of `remove`. */
    method TakeOut(slot: nat) returns (removed: TimerNode)
      requires slot < curSize <= heap.Length && heap[slot] != null && 0 <= heap[slot].timerId < timerIds.Length
      requires Backed(curSize, -1) && InTable()
      requires forall i :: 0 <= i < curSize && i != slot ==> heap[i].timerId in timers - {heap[slot].timerId}
      modifies this`curSize, this`curLimbo, this`limbo, this`timers, heap, timerIds
      ensures removed == old(heap[slot]) && curSize == old(curSize) - 1 && curLimbo == old(curLimbo) + 1
      ensures timers == old(timers) - {removed.timerId} && limbo == old(limbo)[removed.timerId := removed]
      ensures Backed(curSize, -1)
      ensures slot < curSize ==> Ids(old(heap[..]))[curSize] in timers
      ensures Ids(heap[..]) == CloseGap(Ids(old(heap[..])), old(timerIds[..]), timers, curSize, slot).0
      ensures timerIds[..]
              == SetId(CloseGap(Ids(old(heap[..])), old(timerIds[..]), timers, curSize, slot).1, removed.timerId,
                       IN_LIMBO)
    {
      removed := heap[slot];
      curSize := curSize - 1;
      timers := timers - {removed.timerId};
      FillGap(slot);
      timerIds[removed.timerId] := IN_LIMBO;
      curLimbo := curLimbo + 1;
      limbo := limbo[removed.timerId := removed];
    }

    /** `remove` as a function of the two arrays. */
    method RemoveRaw(slot: nat) returns (removed: TimerNode)
      requires Tables(-1) && slot < curSize
      modifies this`curSize, this`curLimbo, this`limbo, this`timers, heap, timerIds
      ensures Backed(curSize, -1) && removed == old(heap[slot]) && curSize == old(curSize) - 1
              && curLimbo == old(curLimbo) + 1
      ensures removed.timerId in old(timers) && removed.timerId !in old(limbo)
              && Ids(old(heap[..]))[slot] == removed.timerId
      ensures timers == old(timers) - {removed.timerId} && limbo == old(limbo)[removed.timerId := removed]
      ensures slot < curSize ==> Ids(old(heap[..]))[curSize] in timers
      ensures Ids(heap[..]) == CloseGap(Ids(old(heap[..])), old(timerIds[..]), timers, curSize, slot).0
      ensures timerIds[..]
              == SetId(CloseGap(Ids(old(heap[..])), old(timerIds[..]), timers, curSize, slot).1, removed.timerId,
                       IN_LIMBO)
    {
      GapBacked(slot, heap[slot].timerId);
      removed := TakeOut(slot);
    }

    /** `remove` as far as the heap array and the id table go. */
    method RemoveSlot(slot: nat) returns (removed: TimerNode)
      requires Tables(-1) && slot < curSize
      modifies this`curSize, this`curLimbo, this`limbo, this`timers, heap, timerIds
      ensures Backed(curSize, -1) && Consistent(Ids(heap[..]), timerIds[..], timers, limbo.Keys, curSize, curLimbo, -1)
      ensures removed == old(heap[slot]) && curSize == old(curSize) - 1
      ensures removed.timerId in old(timers) && removed.timerId !in old(limbo)
      ensures timers == old(timers) - {removed.timerId} && limbo == old(limbo)[removed.timerId := removed]
    {
      ghost var hs, ids := Ids(heap[..]), timerIds[..];
      removed := RemoveRaw(slot);
      RemoveKeepsConsistent(hs, ids, old(timers), old(limbo).Keys, curSize, old(curLimbo), slot, Ids(heap[..]),
                            timerIds[..]);
      KeysIntoLimbo(old(timers), old(limbo), removed.timerId, removed);
    }

    method Remove(slot: nat) returns (removed: TimerNode)
      requires Valid() && slot < curSize
      modifies this`curSize, this`curLimbo, this`limbo, this`timers, heap, timerIds
      ensures Valid() && removed == old(heap[slot]) && curSize == old(curSize) - 1
      ensures removed.timerId in old(timers) && old(timers)[removed.timerId] == removed.View()
      ensures removed in owned && removed.timerId !in old(limbo)
      ensures timers == old(timers) - {removed.timerId} && limbo == old(limbo)[removed.timerId := removed]
      ensures Allocator() == Step(old(Allocator()), Op.Move)
    {
      removed := RemoveSlot(slot);
      KeysIntoLimbo(old(timers), old(limbo), removed.timerId, removed);
      assert Allocator() == old(Allocator());
    }

    /** Scans for a free id from the one after the last given out, restarting at the
        lowest id known to be free when the scan runs off the table. */
    method PopFreelist() returns (id: int)
      requires timerIdsCurr < maxSize == timerIds.Length
      requires ShowsUse(timerIds[..], timers.Keys + limbo.Keys)
      modifies this`timerIdsCurr, this`timerIdsMinFree
      ensures Allocator() == old(Allocator()).Pop() && id == timerIdsCurr
      ensures forall f :: old(timerIdsCurr) < f < maxSize && (f < id || id <= old(timerIdsCurr)) ==>
                timerIds[f] >= 0 || timerIds[f] == IN_LIMBO
    {
      ghost var a := Allocator();
      timerIdsCurr := timerIdsCurr + 1;
      while timerIdsCurr < maxSize && (timerIds[timerIdsCurr] >= 0 || timerIds[timerIdsCurr] == IN_LIMBO)
        invariant timerIdsCurr <= maxSize && timerIdsMinFree == a.minFree
        invariant a.NextFree(timerIdsCurr) == a.NextFree(a.curr + 1)
        invariant forall f :: old(timerIdsCurr) < f < timerIdsCurr ==> timerIds[f] >= 0 || timerIds[f] == IN_LIMBO
      {
        assert timerIds[..][timerIdsCurr] == timerIds[timerIdsCurr];
        timerIdsCurr := timerIdsCurr + 1;
      }
      assert a.NextFree(timerIdsCurr) == timerIdsCurr by {
        if timerIdsCurr < maxSize {
          assert timerIds[..][timerIdsCurr] == timerIds[timerIdsCurr];
        }
      }
      if timerIdsCurr == maxSize {
        timerIdsCurr := timerIdsMinFree;
        timerIdsMinFree := maxSize;
      }
      id := timerIdsCurr;
    }

    method PushFreelist(oldId: nat)
      requires oldId < timerIds.Length
      requires if timerIds[oldId] == IN_LIMBO then curLimbo > 0 else curSize > 0
      modifies this`curLimbo, this`curSize, this`timerIdsMinFree, timerIds
      ensures timerIds[..] == old(timerIds[..])[oldId := FREED] && heap[..] == old(heap[..])
      ensures old(timerIds[oldId]) == IN_LIMBO ==> curLimbo == old(curLimbo) - 1 && curSize == old(curSize)
      ensures old(timerIds[oldId]) != IN_LIMBO ==> curSize == old(curSize) - 1 && curLimbo == old(curLimbo)
      ensures timerIdsMinFree == if oldId < old(timerIdsMinFree) && oldId <= timerIdsCurr then oldId
              else old(timerIdsMinFree)
    {
      if timerIds[oldId] == IN_LIMBO {
        curLimbo := curLimbo - 1;
      } else {
        curSize := curSize - 1;
      }
      timerIds[oldId] := FREED;
      if oldId < timerIdsMinFree && oldId <= timerIdsCurr {
        timerIdsMinFree := oldId;
      }
    }

    /** `freeNode` as far as the id table goes. */
    method ReleaseId(id: int)
      requires Tables(-1) && id in limbo
      modifies this`limbo, this`curLimbo, this`curSize, this`timerIdsMinFree, timerIds
      ensures Consistent(Ids(heap[..]), timerIds[..], timers, limbo.Keys, curSize, curLimbo, -1)
      ensures limbo == old(limbo) - {id} && curSize == old(curSize) && id >= 0 && id !in timers
      ensures timerIdsMinFree == if id < old(timerIdsMinFree) && id <= timerIdsCurr then id else old(timerIdsMinFree)
    {
      FreeKeepsConsistent(Ids(heap[..]), timerIds[..], timers, limbo.Keys, curSize, curLimbo, id);
      KeysFreed(timers, limbo, id);
      PushFreelist(id);
      limbo := limbo - {id};
    }

    method FreeNode(node: TimerNode)
      requires Valid() && node.timerId in limbo && limbo[node.timerId] == node
      modifies this`limbo, this`curLimbo, this`curSize, this`timerIdsMinFree, timerIds
      ensures Valid() && limbo == old(limbo) - {node.timerId} && curSize == old(curSize)
      ensures Allocator() == Step(old(Allocator()), Op.Release(node.timerId))
    {
      PushKeepsInv(Allocator(), node.timerId);
      ReleaseId(node.timerId);
      KeysFreed(timers, old(limbo), node.timerId);
      assert Allocator() == old(Allocator()).Push(node.timerId);
    }

    method GrowHeap()
      requires heap.Length == timerIds.Length == maxSize && Backed(curSize, -1)
      modifies this`heap, this`timerIds, this`maxSize, this`timerIdsMinFree
      ensures fresh(heap) && fresh(timerIds) && heap.Length == timerIds.Length == maxSize
      ensures heap.Length == 2 * old(heap.Length) && heap[..old(heap.Length)] == old(heap[..])
      ensures timerIds[..] == GrownIds(old(timerIds[..])) && Backed(curSize, -1)
      ensures Allocator() == old(Allocator()).Grow()
    {
      var newSize := maxSize * 2;
      var newHeap := GrownHeap(heap, newSize);
      var newTimerIds := GrownTable(timerIds, newSize);
      heap, timerIds := newHeap, newTimerIds;
      maxSize := newSize;
      timerIdsMinFree := maxSize;
    }

    /** The end of `insert`: the node goes to the first unused slot and is sifted up. */
    method Place(node: TimerNode)
      requires curSize < heap.Length && Backed(curSize, -1) && InTable()
      requires node.timerId !in timers && 0 <= node.timerId < timerIds.Length
      modifies this`timers, this`owned, this`curSize, heap, timerIds
      ensures timers == old(timers)[node.timerId := node.View()] && owned == old(owned) + {node}
      ensures curSize == old(curSize) + 1 && Backed(curSize, -1)
      ensures (Ids(heap[..]), timerIds[..])
           == SiftUp(Ids(old(heap[..])), old(timerIds[..]), timers, old(curSize), node.timerId)
    {
      timers, owned := timers[node.timerId := node.View()], owned + {node};
      ReheapUp(node, curSize, Parent(curSize), curSize + 1);
      curSize := curSize + 1;
    }

    /** The growth test at the start of `insert`; `ex` is the id about to be placed. */
    method EnsureRoom(ghost ex: int)
      requires Tables(ex) && 2 <= maxSize && curSize + curLimbo + 2 <= maxSize
      modifies this`heap, this`timerIds, this`maxSize, this`timerIdsMinFree
      ensures Tables(ex) && curSize < maxSize
      ensures maxSize == old(maxSize) ==> heap == old(heap) && timerIds == old(timerIds)
      ensures (heap == old(heap) || fresh(heap)) && (timerIds == old(timerIds) || fresh(timerIds))
      ensures Allocator() == old(Allocator()).Room()
    {
      UseCount(Ids(heap[..]), timerIds[..], timers, limbo.Keys, curSize, curLimbo, ex);
      if curSize + curLimbo + 2 >= maxSize {
        GrowHeap();
        SamePrefixIds(old(heap[..]), heap[..]);
        GrowthKeepsConsistent(Ids(old(heap[..])), old(timerIds[..]), timers, limbo.Keys, curSize, curLimbo, ex,
                              Ids(heap[..]));
      }
    }

    /** `insert` with room made. */
    method PlaceInRoom(node: TimerNode)
      requires Tables(node.timerId) && curSize < maxSize
      requires node.timerId !in timers && node.timerId !in limbo && 0 <= node.timerId < maxSize
      modifies this`timers, this`owned, this`curSize, heap, timerIds
      ensures Tables(-1)
      ensures timers == old(timers)[node.timerId := node.View()] && owned == old(owned) + {node}
      ensures Allocator() == old(Allocator()).(used := old(Allocator()).used + {node.timerId})
    {
      ghost var hs, ids := Ids(heap[..]), timerIds[..];
      Place(node);
      PlaceKeepsConsistent(hs, ids, old(timers), limbo.Keys, old(curSize), curLimbo,
                           node.timerId, node.View(), Ids(heap[..]), timerIds[..]);
    }

    method Insert(node: TimerNode)
      requires Tables(node.timerId) && 2 <= maxSize && curSize + curLimbo + 2 <= maxSize
      requires node.timerId !in timers && node.timerId !in limbo && 0 <= node.timerId < maxSize
      modifies this`heap, this`timerIds, this`maxSize, this`timerIdsMinFree, this`timers, this`owned, this`curSize,
               heap, timerIds
      ensures Tables(-1) && (heap == old(heap) || fresh(heap)) && (timerIds == old(timerIds) || fresh(timerIds))
      ensures timers == old(timers)[node.timerId := node.View()] && owned == old(owned) + {node}
      ensures maxSize == old(maxSize) ==> heap == old(heap) && timerIds == old(timerIds)
      ensures Allocator() == old(Allocator()).Take(node.timerId)
    {
      EnsureRoom(node.timerId);
      PlaceInRoom(node);
    }

    /** `timerId` leaves the tables as they are. */
    method TimerId() returns (timerId: int)
      requires Tables(-1) && timerIdsCurr < maxSize
      modifies this`timerIdsMinFree, this`timerIdsCurr
      ensures Tables(timerId) && Allocator() == old(Allocator()).Pop() && timerId == timerIdsCurr
    {
      ConsistentShowsUse(Ids(heap[..]), timerIds[..], timers, limbo.Keys, curSize, curLimbo);
      OpenMarker(Ids(heap[..]), timerIds[..], timers, limbo.Keys, curSize, curLimbo, Allocator().Pop().curr);
      timerId := PopFreelist();
    }

    method AllocNode(handler: Handler, act: int, futureTime: Time, interval: Time, timerId: int)
      returns (node: TimerNode)
      requires Tables(timerId)
      ensures Tables(timerId) && fresh(node) && node.timerId == timerId
              && node.View() == Timer(handler, act, futureTime, interval)
    {
      node := new TimerNode(handler, act, futureTime, interval, timerId);
    }

    /** `scheduleI` as far as the tables go, given that `popFreelist` finds a free id. */
    method ScheduleInTables(handler: Handler, act: int, futureTime: Time, interval: Time) returns (node: TimerNode)
      requires Tables(-1) && timerIdsCurr < maxSize && 2 <= maxSize && curSize + curLimbo + 2 <= maxSize
      requires 0 <= Allocator().Pop().curr < maxSize && Allocator().Pop().curr !in Allocator().used
      modifies this`heap, this`timerIds, this`maxSize, this`timerIdsMinFree, this`timers, this`owned, this`curSize,
               this`timerIdsCurr, heap, timerIds
      ensures Tables(-1) && (heap == old(heap) || fresh(heap)) && (timerIds == old(timerIds) || fresh(timerIds))
      ensures fresh(node) && node.timerId == old(Allocator()).Pop().curr && owned == old(owned) + {node}
      ensures timers == old(timers)[node.timerId := Timer(handler, act, futureTime, interval)]
      ensures Allocator() == old(Allocator()).Pop().Take(node.timerId)
    {
      var timerId := TimerId();
      node := AllocNode(handler, act, futureTime, interval, timerId);
      Insert(node);
    }

    method Schedule(handler: Handler, act: int, futureTime: Time, interval: Time) returns (timerId: int)
      requires Valid()
      modifies this`heap, this`timerIds, this`maxSize, this`timerIdsMinFree, this`timers, this`owned, this`curSize,
               this`timerIdsCurr, heap, timerIds
      ensures Valid() && (heap == old(heap) || fresh(heap)) && (timerIds == old(timerIds) || fresh(timerIds))
      ensures 0 <= timerId && timerId !in old(timers) && timerId !in old(limbo)
      ensures timers == old(timers)[timerId := Timer(handler, act, futureTime, interval)]
      ensures fresh(owned - old(owned))
      ensures Allocator() == Step(old(Allocator()), Op.Schedule) && timerId == old(Allocator()).Pop().curr
      ensures NoneSkipped(old(timers.Keys + limbo.Keys), old(maxSize), old(timerIdsCurr), timerId)
    {
      timerId := -1;
      PopTakesNextFree(Allocator());
      ScheduleKeepsInv(Allocator());
      UseCount(Ids(heap[..]), timerIds[..], timers, limbo.Keys, curSize, curLimbo, -1);
      if curSize + curLimbo < maxSize {
        var node := ScheduleInTables(handler, act, futureTime, interval);
        timerId := node.timerId;
      }
    }

    /** `reschedule` as far as the tables go. */
    method PutBack(expired: TimerNode)
      requires Tables(-1) && 2 <= maxSize && curSize + curLimbo + 2 <= maxSize
      requires expired.timerId in limbo
      modifies this`heap, this`timerIds, this`maxSize, this`timerIdsMinFree, this`timers, this`owned, this`curSize,
               this`limbo, this`curLimbo, heap, timerIds
      ensures Tables(-1) && (maxSize == old(maxSize) ==> heap == old(heap) && timerIds == old(timerIds))
      ensures timers == old(timers)[expired.timerId := expired.View()] && owned == old(owned) + {expired}
      ensures limbo == old(limbo) - {expired.timerId}
      ensures Allocator() == old(Allocator()).(used := old(Allocator()).used - {expired.timerId}).Take(expired.timerId)
    {
      LimboOpens(Ids(heap[..]), timerIds[..], timers, limbo.Keys, curSize, curLimbo, expired.timerId);
      if timerIds[expired.timerId] == IN_LIMBO {
        curLimbo := curLimbo - 1;
      }
      limbo := limbo - {expired.timerId};
      assert limbo.Keys == old(limbo).Keys - {expired.timerId};
      Insert(expired);
    }

    method Reschedule(expired: TimerNode)
      requires Valid() && expired.timerId in limbo && limbo[expired.timerId] == expired
      modifies this, heap, timerIds
      ensures Valid() && heap == old(heap) && timerIds == old(timerIds)
      ensures timers == old(timers)[expired.timerId := expired.View()] && owned == old(owned) + {expired}
      ensures limbo == old(limbo) - {expired.timerId}
      ensures Allocator() == Step(old(Allocator()), Op.Move)
    {
      UseCount(Ids(heap[..]), timerIds[..], timers, limbo.Keys, curSize, curLimbo, -1);
      TakeBack(Allocator(), expired.timerId);
      PutBack(expired);
    }

    /** The table leads from an active id to the slot of its node. */
    lemma SlotOf(k: int)
      requires Valid() && k in timers
      ensures 0 <= k < timerIds.Length && 0 <= timerIds[k] < curSize
      ensures heap[timerIds[k]] != null && heap[timerIds[k]].timerId == k && heap[timerIds[k]].View() == timers[k]
    {
      assert 0 <= k < timerIds.Length;
      IdFacts(Ids(heap[..]), timerIds[..], timers, limbo.Keys, curSize, curLimbo, k);
      assert timerIds[..][k] == timerIds[k];
    }

    /** The node at the root is an earliest one. */
    lemma RootIsDueFirst(k: int)
      requires Valid() && k in timers
      ensures curSize > 0 && heap[0] != null && Due(heap[0].View()) <= Due(timers[k])
    {
      RootIsEarliest(Ids(heap[..]), timerIds[..], timers, limbo.Keys, curSize, curLimbo, k);
    }

    method IsEmpty() returns (empty: bool)
      requires Valid()
      ensures empty <==> timers == map[]
    {
      empty := curSize == 0;
      if !empty {
        assert heap[0].timerId in timers;
      }
    }

    method EarliestTime() returns (t: Time)
      requires Valid() && timers != map[]
      ensures exists k :: k in timers && timers[k].expiry == t
      ensures forall k :: k in timers ==> Total(t) <= Due(timers[k])
    {
      assert curSize > 0;
      t := heap[0].timerValue;
      forall k | k in timers
        ensures Total(t) <= Due(timers[k])
      {
        RootIsDueFirst(k);
      }
      assert heap[0].timerId in timers;
    }

    /** Takes an earliest timer out of the heap and leaves its id in limbo. */
    method RemoveFirst() returns (first: TimerNode?)
      requires Valid()
      modifies this`curSize, this`curLimbo, this`limbo, this`timers, heap, timerIds
      ensures Valid()
      ensures first == null <==> old(timers) == map[]
      ensures first == null ==> timers == old(timers) && limbo == old(limbo)
      ensures first != null ==>
                && first in owned && first.timerId !in old(limbo)
                && first.timerId in old(timers) && old(timers)[first.timerId] == first.View()
                && (forall k :: k in old(timers) ==> Due(first.View()) <= Due(old(timers)[k]))
                && timers == old(timers) - {first.timerId} && limbo == old(limbo)[first.timerId := first]
    {
      if curSize == 0 {
        return null;
      }
      forall k | k in timers
        ensures Due(heap[0].View()) <= Due(timers[k])
      {
        RootIsDueFirst(k);
      }
      first := Remove(0);
    }

    /** Removes the slot's timer and frees its id. */
    method RemoveAndFree(slot: nat) returns (node: TimerNode)
      requires Valid() && slot < curSize
      modifies this`curSize, this`curLimbo, this`limbo, this`timers, this`timerIdsMinFree, heap, timerIds
      ensures Valid() && curSize == old(curSize) - 1 && limbo == old(limbo)
      ensures node == old(heap[slot]) && node.timerId in old(timers) && old(timers)[node.timerId] == node.View()
      ensures timers == old(timers) - {node.timerId}
    {
      node := Remove(slot);
      AddThenDrop(old(limbo), node.timerId, node);
      FreeNode(node);
    }

    method CancelById(timerId: int) returns (result: int, act: int)
      requires Valid() && timerId != maxSize
      modifies this`curSize, this`curLimbo, this`limbo, this`timers, this`timerIdsMinFree, heap, timerIds
      ensures Valid() && limbo == old(limbo)
      ensures result == if timerId in old(timers) then 1 else 0
      ensures timerId in old(timers) ==> act == old(timers)[timerId].act
      ensures timers == old(timers) - {timerId}
    {
      result, act := 0, 0;
      if timerId < 0 || timerId > maxSize {
        return;
      }
      var slot := timerIds[timerId];
      IdFacts(Ids(heap[..]), timerIds[..], timers, limbo.Keys, curSize, curLimbo, timerId);
      if slot >= 0 && timerId == heap[slot].timerId {
        var node := RemoveAndFree(slot);
        result, act := 1, node.act;
      }
    }

    method ResetInterval(timerId: int, interval: Time) returns (result: int)
      requires Valid() && timerId != maxSize
      modifies this`timers, owned
      ensures Valid() && result == if timerId in old(timers) then 0 else -1
      ensures timers == if timerId in old(timers)
                        then old(timers)[timerId := old(timers)[timerId].(interval := interval)]
                        else old(timers)
    {
      result := -1;
      if timerId < 0 || timerId > maxSize {
        return;
      }
      var slot := timerIds[timerId];
      IdFacts(Ids(heap[..]), timerIds[..], timers, limbo.Keys, curSize, curLimbo, timerId);
      if slot >= 0 && timerId == heap[slot].timerId {
        SetInterval(slot, interval);
        result := 0;
      }
    }

    /** The update at the end of `resetInterval`. */
    method SetInterval(slot: nat, interval: Time)
      requires Valid() && slot < curSize
      modifies this`timers, owned
      ensures Valid() && heap[slot].timerId in old(timers)
      ensures timers == old(timers)[heap[slot].timerId := old(timers)[heap[slot].timerId].(interval := interval)]
    {
      ghost var id, h, ids := heap[slot].timerId, heap[..], timerIds[..];
      GapBacked(slot, id);
      ghost var t := timers[id].(interval := interval);
      IntervalKeepsConsistent(Ids(h), ids, timers, limbo.Keys, curSize, curLimbo, id, t);
      heap[slot].interval := interval;
      assert h == heap[..] && ids == timerIds[..];
      assert timers[id := t].Keys == timers.Keys;
      timers := timers[id := t];
    }

    lemma NoneLeft(handler: Handler)
      requires Valid() && NoneOf(heap[..], curSize, handler)
      ensures forall k :: k in timers ==> timers[k].handler != handler
    {
      forall k | k in timers
        ensures timers[k].handler != handler
      {
        SlotOf(k);
        assert heap[..][timerIds[k]] == heap[timerIds[k]];
      }
    }

    /** Cancels every timer of a handler; the scan restarts after each removal. */
    method CancelByHandler(handler: Handler) returns (count: nat)
      requires Valid()
      modifies this`curSize, this`curLimbo, this`limbo, this`timers, this`timerIdsMinFree, heap, timerIds
      ensures Valid() && limbo == old(limbo)
      ensures forall k :: k in timers <==> k in old(timers) && old(timers)[k].handler != handler
      ensures forall k :: k in timers ==> timers[k] == old(timers)[k]
      ensures exists gone: set<int> ::
                && |gone| == count
                && (forall k :: k in gone <==> k in old(timers) && old(timers)[k].handler == handler)
    {
      count := 0;
      ghost var gone: set<int> := {};
      var i := 0;
      while i < curSize
        invariant Valid() && limbo == old(limbo) && 0 <= i <= curSize
        invariant NoneOf(heap[..], i, handler)
        invariant Purged(old(timers), timers, gone, handler, count)
        decreases curSize, curSize - i
      {
        if heap[i].handler == handler {
          ghost var ts := timers;
          var node := RemoveAndFree(i);
          PurgeOne(old(timers), ts, gone, handler, count, node.timerId);
          gone := gone + {node.timerId};
          count := count + 1;
          i := 0;
        } else {
          NoneOfNext(heap[..], i, handler);
          i := i + 1;
        }
      }
      NoneLeft(handler);
    }

    /** The second half of `dispatchInfoI`, on a timer taken out of the heap. */
    method RenewOrFree(expired: TimerNode, curTime: Time)
      requires Valid() && expired.timerId in limbo && limbo[expired.timerId] == expired
      modifies this, heap, timerIds, expired`timerValue
      ensures Valid() && heap == old(heap) && timerIds == old(timerIds)
      ensures limbo == old(limbo) - {expired.timerId} && owned <= old(owned) + {expired}
      ensures timers == if Recurring(old(expired.View()))
                        then old(timers)[expired.timerId := Renewed(old(expired.View()), Total(curTime))]
                        else old(timers)
    {
      assert expired.timerId !in timers;
      ComparisonsAreOrderOfTotals(expired.interval, ZERO);
      if Greater(expired.interval, ZERO) {
        SkipPast(expired, curTime);
        assert Backed(curSize, -1) && heap[..] == old(heap[..]) && timerIds[..] == old(timerIds[..]);
        Reschedule(expired);
      } else {
        FreeNode(expired);
      }
    }

    /** Fires an earliest timer: an interval timer goes back into the heap under its old id at
        its next expiry, another timer is freed. */
    method FireFirst(curTime: Time) returns (info: DispatchInfo, ghost id: int)
      requires Valid() && timers != map[]
      modifies this, heap, timerIds, owned
      ensures Valid() && limbo == old(limbo) && heap == old(heap) && timerIds == old(timerIds)
      ensures id in old(timers) && owned <= old(owned)
      ensures forall k :: k in old(timers) ==> Due(old(timers)[id]) <= Due(old(timers)[k])
      ensures timers == Fired(old(timers), id, Total(curTime))
      ensures info == DispatchInfo(old(timers)[id].handler, old(timers)[id].act, Recurring(old(timers)[id]))
    {
      var expired := RemoveFirst();
      id := expired.timerId;
      ComparisonsAreOrderOfTotals(expired.interval, ZERO);
      info := DispatchInfo(expired.handler, expired.act, Greater(expired.interval, ZERO));
      AddThenDrop(old(limbo), id, expired);
      FiredByPutBack(old(timers), id, Total(curTime));
      RenewOrFree(expired, curTime);
    }

    /** Fires an earliest timer when it is due. */
    method DispatchInfoI(curTime: Time) returns (fired: bool, info: DispatchInfo, ghost id: int)
      requires Valid()
      modifies this, heap, timerIds, owned
      ensures Valid() && limbo == old(limbo) && heap == old(heap) && timerIds == old(timerIds)
      ensures owned <= old(owned)
      ensures !fired ==> timers == old(timers) && forall k :: k in timers ==> Due(timers[k]) > Total(curTime)
      ensures fired ==>
                && id in old(timers) && Due(old(timers)[id]) <= Total(curTime)
                && (forall k :: k in old(timers) ==> Due(old(timers)[id]) <= Due(old(timers)[k]))
                && timers == Fired(old(timers), id, Total(curTime))
                && info == DispatchInfo(old(timers)[id].handler, old(timers)[id].act, Recurring(old(timers)[id]))
    {
      fired, info, id := false, DispatchInfo(Handler(0), 0, false), -1;
      var empty := IsEmpty();
      if empty {
        return;
      }
      var earliest := EarliestTime();
      ComparisonsAreOrderOfTotals(earliest, curTime);
      if LessEq(earliest, curTime) {
        info, id := FireFirst(curTime);
        fired := true;
      }
    }

    /** The upcall functor: a handler that answers -1 has its timers cancelled. */
    method Upcall(info: DispatchInfo, answer: int)
      requires Valid()
      modifies this`curSize, this`curLimbo, this`limbo, this`timers, this`timerIdsMinFree, heap, timerIds
      ensures Valid() && limbo == old(limbo)
      ensures AfterUpcall(old(timers), info.handler, answer, timers)
    {
      if answer == -1 {
        var n := CancelByHandler(info.handler);
      }
    }

    /** One turn of the loop in `expire`: fire an earliest due timer and call its handler. */
    method ExpireOne(curTime: Time, status: nat -> int, count: nat, ghost ts0: map<int, Timer>, ghost log: seq<int>)
      returns (fired: bool, ghost id: int)
      requires Valid() && count == |log| && Progress(ts0, log, status, Total(curTime), timers)
      modifies this, heap, timerIds, owned
      ensures Valid() && limbo == old(limbo) && heap == old(heap) && timerIds == old(timerIds) && owned <= old(owned)
      ensures fired ==> id in ts0 && id !in log && Progress(ts0, log + [id], status, Total(curTime), timers)
      ensures !fired ==> timers == old(timers) && forall k :: k in timers ==> Due(timers[k]) > Total(curTime)
    {
      var info;
      fired, info, id := DispatchInfoI(curTime);
      if fired {
        Upcall(info, status(count));
        ProgressStep(ts0, log, status, Total(curTime), old(timers), id, timers);
      }
    }

    /** Fires every timer that is due.  `status(i)` is what the handler answers to the i-th
        upcall.  `log` lists the ids in firing order. */
    method Expire(curTime: Time, status: nat -> int) returns (count: nat, ghost log: seq<int>)
      requires Valid()
      modifies this, heap, timerIds, owned
      ensures Valid() && limbo == old(limbo) && heap == old(heap) && timerIds == old(timerIds) && owned <= old(owned)
      ensures count == |log|
      ensures Settled(old(timers), log, status, Total(curTime), timers)
      ensures forall k :: k in old(timers) && Due(old(timers)[k]) <= Total(curTime) ==>
                (k in timers <==> && Total(old(timers)[k].interval) > 0
                                  && !Cancelled(old(timers), log, status, old(timers)[k].handler))
    {
      ghost var now, waiting := Total(curTime), timers.Keys;
      count, log := 0, [];
      ProgressStart(timers, status, now);
      var more := true;
      while more
        invariant Valid() && limbo == old(limbo) && heap == old(heap) && timerIds == old(timerIds)
                  && owned <= old(owned)
        invariant count == |log| && Progress(old(timers), log, status, now, timers)
        invariant !more ==> forall k :: k in timers ==> Due(timers[k]) > now
        invariant forall k :: k in old(timers) && k !in log ==> k in waiting
        decreases waiting, more
      {
        ghost var id;
        more, id := ExpireOne(curTime, status, count, old(timers), log);
        if more {
          waiting := waiting - {id};
          log := log + [id];
          count := count + 1;
        }
      }
      ProgressEnd(old(timers), log, status, now, timers);
    }

    /** How long the event loop may sleep: `maxWait` is the caller's limit, if any. */
    method CalculateTimeout(maxWait: Option<Time>, haveBuffer: bool, now: Time) returns (timeout: Option<Time>)
      requires Valid()
      ensures !haveBuffer ==> timeout == None
      ensures haveBuffer && timers == map[] ==> timeout == maxWait
      ensures haveBuffer && timers != map[] ==>
                && timeout.Some?
                && (Total(timeout.value) == 0 || forall k :: k in timers ==>
                    Total(now) + Total(timeout.value) <= Due(timers[k]))
                && (exists k :: k in timers && (forall j :: j in timers ==> Due(timers[k]) <= Due(timers[j]))
                      && IsTimeout(Due(timers[k]) - Total(now), maxWait, Total(timeout.value)))
      ensures timeout.Some? && maxWait.Some? && Total(maxWait.value) >= 0 ==>
                Total(timeout.value) <= Total(maxWait.value)
      ensures timeout.Some? && (maxWait.Some? ==> Total(maxWait.value) >= 0) ==> Total(timeout.value) >= 0
    {
      if !haveBuffer {
        return None;
      }
      var empty := IsEmpty();
      if empty {
        timeout := maxWait;
      } else {
        var earliest := EarliestTime();
        ComparisonsAreOrderOfTotals(earliest, now);
        if Greater(earliest, now) {
          var delta := Minus(earliest, now);
          if maxWait.Some? {
            ComparisonsAreOrderOfTotals(maxWait.value, delta);
          }
          if !(maxWait.None? || Greater(maxWait.value, delta)) {
            delta := maxWait.value;
          }
          timeout := Some(delta);
        } else {
          timeout := Some(ZERO);
        }
      }
    }
  }
}
