/**
  What the sift loops of icm-1.1/icc/TimerHeap.cpp keep, on plain sequences: `hs` holds the
  timer id in each heap slot, `ids` is the id table, and `ts` gives the timer of each active
  id.  A sift moves a hole through the heap; the predicates describe the first `n` slots
  around the hole, with `ex` the id that will fill it.
 */
module HeapOrder {
  import opened TimeValues
  import opened Wrappers

  /** What a timer node holds, as a value. */
  datatype Timer = Timer(handler: Handler, act: int, expiry: Time, interval: Time)

  /** When a timer is due, in microseconds. */
  function Due(t: Timer): int {
    Total(t.expiry)
  }

  function Parent(i: nat): nat {
    if i == 0 then 0 else (i - 1) / 2
  }

  function LeftChild(i: nat): nat {
    i + i + 1
  }

  /** The slots form a binary tree: the children of a slot are its left child and the slot after. */
  lemma TreeShape(i: nat, c: nat)
    ensures c > 0 && Parent(c) == i <==> c == LeftChild(i) || c == LeftChild(i) + 1
    ensures c > 0 ==> Parent(c) < c
  {
  }

  /** Slots and id table are mutually inverse on the active ids, hole and `ex` apart. */
  ghost predicate Linked(hs: seq<int>, ids: seq<int>, active: set<int>, n: nat, hole: int, ex: int) {
    && |hs| == |ids| && n <= |hs|
    && (forall k :: k in active ==> 0 <= k < |ids|)
    && (forall i {:trigger hs[i]} :: 0 <= i < n && i != hole ==> hs[i] in active && hs[i] != ex && ids[hs[i]] == i)
    && (forall k {:trigger ids[k]} :: k in active && k != ex ==> 0 <= ids[k] < n && ids[k] != hole && hs[ids[k]] == k)
  }

  /** The key in slot `i`. */
  ghost function Key(hs: seq<int>, ts: map<int, Timer>, i: int): int
    requires 0 <= i < |hs|
  {
    if hs[i] in ts then Due(ts[hs[i]]) else 0
  }

  /** Heap order: the edges that touch the hole are replaced by the edges from its parent
      to its children. */
  ghost predicate Ordered(hs: seq<int>, ts: map<int, Timer>, n: nat, hole: int)
    requires n <= |hs|
  {
    && (forall i {:trigger Parent(i)} :: 0 < i < n && i != hole && Parent(i) != hole ==>
        Key(hs, ts, Parent(i)) <= Key(hs, ts, i))
    && (0 < hole < n ==> forall i {:trigger Parent(i)} :: 0 < i < n && Parent(i) == hole ==>
        Key(hs, ts, Parent(hole)) <= Key(hs, ts, i))
  }

  /** `v` may stand in the hole as far as the slots below it go. */
  ghost predicate FitsBelow(hs: seq<int>, ts: map<int, Timer>, n: nat, hole: nat, v: int)
    requires n <= |hs|
  {
    forall i {:trigger Parent(i)} :: 0 < i < n && Parent(i) == hole ==> v <= Key(hs, ts, i)
  }

  /** `v` may stand in the hole as far as the slot above it goes. */
  ghost predicate FitsAbove(hs: seq<int>, ts: map<int, Timer>, n: nat, hole: nat, v: int)
    requires hole < n <= |hs|
  {
    hole > 0 ==> Key(hs, ts, Parent(hole)) <= v
  }

  /** Moving the id of slot `from` into the hole moves the hole to `from`. */
  lemma MoveKeepsLinked(hs: seq<int>, ids: seq<int>, active: set<int>, n: nat, hole: nat, ex: int, from: nat)
    requires Linked(hs, ids, active, n, hole, ex) && hole < n && from < n && from != hole
    ensures Linked(hs[hole := hs[from]], ids[hs[from] := hole], active, n, from, ex)
  {
  }

  /** Filling the hole with `ex` completes the inverse. */
  lemma FillKeepsLinked(hs: seq<int>, ids: seq<int>, active: set<int>, n: nat, hole: nat, ex: int)
    requires Linked(hs, ids, active, n, hole, ex) && hole < n && ex in active
    ensures Linked(hs[hole := ex], ids[ex := hole], active, n, -1, -1)
  {
  }

  /** One iteration of `reheapUp`. */
  lemma StepUp(hs: seq<int>, ts: map<int, Timer>, n: nat, hole: nat, v: int)
    requires 0 < hole < n <= |hs| && Ordered(hs, ts, n, hole) && FitsBelow(hs, ts, n, hole, v)
    requires v < Key(hs, ts, Parent(hole))
    ensures var hs' := hs[hole := hs[Parent(hole)]];
            Ordered(hs', ts, n, Parent(hole)) && FitsBelow(hs', ts, n, Parent(hole), v)
  {
    var p := Parent(hole);
    var hs' := hs[hole := hs[p]];
    forall i | 0 <= i < n && i != hole
      ensures Key(hs', ts, i) == Key(hs, ts, i)
    {
    }
    assert Key(hs', ts, hole) == Key(hs, ts, p);
  }

  /** One iteration of `reheapDown`, `child` being the smaller child of the hole. */
  lemma StepDown(hs: seq<int>, ts: map<int, Timer>, n: nat, hole: nat, child: nat, v: int)
    requires hole < child < n <= |hs| && Parent(child) == hole && Ordered(hs, ts, n, hole)
    requires FitsBelow(hs, ts, n, hole, Key(hs, ts, child))
    requires Key(hs, ts, child) < v
    ensures var hs' := hs[hole := hs[child]];
            Ordered(hs', ts, n, child) && FitsAbove(hs', ts, n, child, v)
  {
    var hs' := hs[hole := hs[child]];
    forall i | 0 <= i < n && i != hole
      ensures Key(hs', ts, i) == Key(hs, ts, i)
    {
    }
    assert Key(hs', ts, hole) == Key(hs, ts, child);
  }

  /** A value that fits below and above fills the hole. */
  lemma FillKeepsOrdered(hs: seq<int>, ts: map<int, Timer>, n: nat, hole: nat, ex: int)
    requires hole < n <= |hs| && Ordered(hs, ts, n, hole) && ex in ts
    requires FitsBelow(hs, ts, n, hole, Due(ts[ex])) && FitsAbove(hs, ts, n, hole, Due(ts[ex]))
    ensures Ordered(hs[hole := ex], ts, n, -1)
  {
    var hs' := hs[hole := ex];
    forall i | 0 <= i < n && i != hole
      ensures Key(hs', ts, i) == Key(hs, ts, i)
    {
    }
  }

  /** The table entry of `k`, when there is one, set to slot `v`. */
  function SetId(ids: seq<int>, k: int, v: int): seq<int> {
    if 0 <= k < |ids| then ids[k := v] else ids
  }

  /** What `reheapUp` does to slots and table when `ex` is to fill the hole `slot`. */
  ghost function SiftUp(hs: seq<int>, ids: seq<int>, ts: map<int, Timer>, slot: nat, ex: int): (seq<int>, seq<int>)
    requires slot < |hs| && ex in ts
    decreases slot
  {
    var p := Parent(slot);
    if slot > 0 && Due(ts[ex]) < Key(hs, ts, p)
    then SiftUp(hs[slot := hs[p]], SetId(ids, hs[p], slot), ts, p, ex)
    else (hs[slot := ex], SetId(ids, ex, slot))
  }

  /** The child `reheapDown` compares with. */
  ghost function SmallerChild(hs: seq<int>, ts: map<int, Timer>, n: nat, slot: nat): (c: nat)
    requires LeftChild(slot) < n <= |hs|
    ensures slot < c < n && Parent(c) == slot
  {
    var c := LeftChild(slot);
    if c + 1 < n && Key(hs, ts, c + 1) < Key(hs, ts, c) then c + 1 else c
  }

  /** What `reheapDown` does to slots and table. */
  ghost function SiftDown(hs: seq<int>, ids: seq<int>, ts: map<int, Timer>, n: nat, slot: nat, ex: int)
    : (seq<int>, seq<int>)
    requires slot < n <= |hs| && ex in ts
    decreases n - slot
  {
    if LeftChild(slot) < n && Key(hs, ts, SmallerChild(hs, ts, n, slot)) < Due(ts[ex]) then
      var c := SmallerChild(hs, ts, n, slot);
      SiftDown(hs[slot := hs[c]], SetId(ids, hs[c], slot), ts, n, c, ex)
    else (hs[slot := ex], SetId(ids, ex, slot))
  }

  lemma SiftUpStops(hs: seq<int>, ids: seq<int>, ts: map<int, Timer>, slot: nat, ex: int)
    requires slot < |hs| && ex in ts
    requires slot == 0 || Due(ts[ex]) >= Key(hs, ts, Parent(slot))
    ensures SiftUp(hs, ids, ts, slot, ex) == (hs[slot := ex], SetId(ids, ex, slot))
  {
  }

  lemma SiftUpMoves(hs: seq<int>, ids: seq<int>, ts: map<int, Timer>, slot: nat, ex: int)
    requires 0 < slot < |hs| && ex in ts
    requires Due(ts[ex]) < Key(hs, ts, Parent(slot))
    ensures var p := Parent(slot);
            SiftUp(hs, ids, ts, slot, ex) == SiftUp(hs[slot := hs[p]], SetId(ids, hs[p], slot), ts, p, ex)
  {
  }

  lemma SiftDownStops(hs: seq<int>, ids: seq<int>, ts: map<int, Timer>, n: nat, slot: nat, ex: int)
    requires slot < n <= |hs| && ex in ts
    requires LeftChild(slot) < n ==> Key(hs, ts, SmallerChild(hs, ts, n, slot)) >= Due(ts[ex])
    ensures SiftDown(hs, ids, ts, n, slot, ex) == (hs[slot := ex], SetId(ids, ex, slot))
  {
  }

  lemma SiftDownMoves(hs: seq<int>, ids: seq<int>, ts: map<int, Timer>, n: nat, slot: nat, ex: int)
    requires LeftChild(slot) < n <= |hs| && ex in ts
    requires Key(hs, ts, SmallerChild(hs, ts, n, slot)) < Due(ts[ex])
    ensures var c := SmallerChild(hs, ts, n, slot);
            SiftDown(hs, ids, ts, n, slot, ex) == SiftDown(hs[slot := hs[c]], SetId(ids, hs[c], slot), ts, n, c, ex)
  {
  }

  /** Ids outside `active` keep their table entries. */
  ghost predicate SameOutside(ids: seq<int>, ids': seq<int>, active: set<int>) {
    |ids| == |ids'| && forall k :: 0 <= k < |ids| && k !in active ==> ids'[k] == ids[k]
  }

  /** `reheapUp` restores the inverse and the order. */
  lemma {:induction false} SiftUpRestores(hs: seq<int>, ids: seq<int>, ts: map<int, Timer>, n: nat, slot: nat, ex: int)
    requires slot < n <= |hs| && ex in ts
    requires Linked(hs, ids, ts.Keys, n, slot, ex)
    requires Ordered(hs, ts, n, slot) && FitsBelow(hs, ts, n, slot, Due(ts[ex]))
    ensures var (hs', ids') := SiftUp(hs, ids, ts, slot, ex);
            && Linked(hs', ids', ts.Keys, n, -1, -1) && Ordered(hs', ts, n, -1)
            && SameOutside(ids, ids', ts.Keys)
    decreases slot
  {
    var p := Parent(slot);
    if slot > 0 && Due(ts[ex]) < Key(hs, ts, p) {
      MoveKeepsLinked(hs, ids, ts.Keys, n, slot, ex, p);
      StepUp(hs, ts, n, slot, Due(ts[ex]));
      SiftUpRestores(hs[slot := hs[p]], ids[hs[p] := slot], ts, n, p, ex);
    } else {
      FillKeepsLinked(hs, ids, ts.Keys, n, slot, ex);
      FillKeepsOrdered(hs, ts, n, slot, ex);
    }
  }

  /** `reheapDown` restores the inverse and the order. */
  lemma {:induction false} SiftDownRestores(hs: seq<int>, ids: seq<int>, ts: map<int, Timer>, n: nat, slot: nat,
                                            ex: int)
    requires slot < n <= |hs| && ex in ts
    requires Linked(hs, ids, ts.Keys, n, slot, ex)
    requires Ordered(hs, ts, n, slot) && FitsAbove(hs, ts, n, slot, Due(ts[ex]))
    ensures var (hs', ids') := SiftDown(hs, ids, ts, n, slot, ex);
            && Linked(hs', ids', ts.Keys, n, -1, -1) && Ordered(hs', ts, n, -1)
            && SameOutside(ids, ids', ts.Keys)
    decreases n - slot
  {
    if LeftChild(slot) < n && Key(hs, ts, SmallerChild(hs, ts, n, slot)) < Due(ts[ex]) {
      var c := SmallerChild(hs, ts, n, slot);
      SmallerChildIsSmallest(hs, ts, n, slot);
      MoveKeepsLinked(hs, ids, ts.Keys, n, slot, ex, c);
      StepDown(hs, ts, n, slot, c, Due(ts[ex]));
      SiftDownRestores(hs[slot := hs[c]], ids[hs[c] := slot], ts, n, c, ex);
    } else {
      if LeftChild(slot) < n {
        SmallerChildIsSmallest(hs, ts, n, slot);
      }
      FillKeepsLinked(hs, ids, ts.Keys, n, slot, ex);
      FillKeepsOrdered(hs, ts, n, slot, ex);
    }
  }

  lemma SmallerChildIsSmallest(hs: seq<int>, ts: map<int, Timer>, n: nat, slot: nat)
    requires LeftChild(slot) < n <= |hs|
    ensures FitsBelow(hs, ts, n, slot, Key(hs, ts, SmallerChild(hs, ts, n, slot)))
  {
    forall i | 0 < i < n && Parent(i) == slot
      ensures i == LeftChild(slot) || i == LeftChild(slot) + 1
    {
    }
  }

  /** Appending a slot opens a hole there for a new id. */
  lemma InsertOpensHole(hs: seq<int>, ids: seq<int>, ts: map<int, Timer>, n: nat, id: int, t: Timer)
    requires Linked(hs, ids, ts.Keys, n, -1, -1) && Ordered(hs, ts, n, -1)
    requires n < |hs| && 0 <= id < |ids| && id !in ts
    ensures var ts' := ts[id := t];
            && Linked(hs, ids, ts'.Keys, n + 1, n, id)
            && Ordered(hs, ts', n + 1, n)
            && FitsBelow(hs, ts', n + 1, n, Due(t))
  {
    var ts' := ts[id := t];
    assert ts'.Keys == ts.Keys + {id};
    forall i | 0 <= i < n
      ensures Key(hs, ts', i) == Key(hs, ts, i)
    {
    }
  }

  /** Taking the last slot out of the heap. */
  lemma RemoveLast(hs: seq<int>, ids: seq<int>, ts: map<int, Timer>, n: nat)
    requires Linked(hs, ids, ts.Keys, n, -1, -1) && Ordered(hs, ts, n, -1) && n > 0
    ensures var ts' := ts - {hs[n - 1]};
            Linked(hs, ids, ts'.Keys, n - 1, -1, -1) && Ordered(hs, ts', n - 1, -1)
  {
    var ts' := ts - {hs[n - 1]};
    forall i | 0 <= i < n - 1
      ensures Key(hs, ts', i) == Key(hs, ts, i)
    {
      assert hs[i] != hs[n - 1];
    }
  }

  /** Taking slot `hole` out of the heap and moving the last slot there. */
  lemma RemoveOpensHole(hs: seq<int>, ids: seq<int>, ts: map<int, Timer>, n: nat, hole: nat)
    requires Linked(hs, ids, ts.Keys, n, -1, -1) && Ordered(hs, ts, n, -1) && hole < n - 1
    ensures var moved, ts' := hs[n - 1], ts - {hs[hole]};
            var hs', ids' := hs[hole := moved], ids[moved := hole];
            && moved in ts'
            && Linked(hs', ids', ts'.Keys, n - 1, hole, moved)
            && Ordered(hs', ts', n - 1, hole)
            && (!FitsAbove(hs', ts', n - 1, hole, Due(ts'[moved])) ==>
                FitsBelow(hs', ts', n - 1, hole, Due(ts'[moved])))
  {
    var moved, ts' := hs[n - 1], ts - {hs[hole]};
    var hs', ids' := hs[hole := moved], ids[moved := hole];
    assert hs[hole] != moved;
    forall i | 0 <= i < n - 1 && i != hole
      ensures Key(hs', ts', i) == Key(hs, ts, i)
    {
      assert hs[i] != hs[hole];
    }
  }

  /** The direction `remove` picks for the id moved into the gap. */
  ghost function Resift(hs: seq<int>, ids: seq<int>, ts: map<int, Timer>, n: nat, slot: nat, moved: int)
    : (seq<int>, seq<int>)
    requires slot < n <= |hs| && moved in ts
  {
    if Due(ts[moved]) >= Key(hs, ts, Parent(slot))
    then SiftDown(hs, ids, ts, n, slot, moved)
    else SiftUp(hs, ids, ts, slot, moved)
  }

  lemma ResiftRestores(hs: seq<int>, ids: seq<int>, ts: map<int, Timer>, n: nat, slot: nat, moved: int)
    requires slot < n <= |hs| && moved in ts && hs[slot] == moved
    requires Linked(hs, ids, ts.Keys, n, slot, moved) && Ordered(hs, ts, n, slot)
    requires !FitsAbove(hs, ts, n, slot, Due(ts[moved])) ==> FitsBelow(hs, ts, n, slot, Due(ts[moved]))
    ensures var (hs', ids') := Resift(hs, ids, ts, n, slot, moved);
            && Linked(hs', ids', ts.Keys, n, -1, -1) && Ordered(hs', ts, n, -1)
            && SameOutside(ids, ids', ts.Keys)
  {
    if Due(ts[moved]) >= Key(hs, ts, Parent(slot)) {
      SiftDownRestores(hs, ids, ts, n, slot, moved);
    } else {
      SiftUpRestores(hs, ids, ts, n, slot, moved);
    }
  }

  /** What `remove` does to slots and table before it marks the id: the last id fills the
      slot and is sifted; `n` counts the slots left, `ts` the ids left. */
  ghost function CloseGap(hs: seq<int>, ids: seq<int>, ts: map<int, Timer>, n: nat, slot: nat): (seq<int>, seq<int>)
    requires slot <= n < |hs| && (slot < n ==> hs[n] in ts)
  {
    if slot == n then (hs, ids) else Resift(hs[slot := hs[n]], SetId(ids, hs[n], slot), ts, n, slot, hs[n])
  }

  /** `remove` keeps the inverse and the order of what is left. */
  lemma CloseGapRestores(hs: seq<int>, ids: seq<int>, ts: map<int, Timer>, n: nat, slot: nat)
    requires Linked(hs, ids, ts.Keys, n + 1, -1, -1) && Ordered(hs, ts, n + 1, -1) && slot <= n
    ensures var ts' := ts - {hs[slot]};
            && (slot < n ==> hs[n] in ts')
            && var (hs', ids') := CloseGap(hs, ids, ts', n, slot);
               && Linked(hs', ids', ts'.Keys, n, -1, -1) && Ordered(hs', ts', n, -1)
               && SameOutside(ids, ids', ts'.Keys)
  {
    var ts' := ts - {hs[slot]};
    if slot == n {
      RemoveLast(hs, ids, ts, n + 1);
    } else {
      RemoveOpensHole(hs, ids, ts, n + 1, slot);
      ResiftRestores(hs[slot := hs[n]], ids[hs[n] := slot], ts', n, slot, hs[n]);
    }
  }

  /** The root of an ordered heap holds a minimum. */
  lemma {:induction false} RootIsMinimum(hs: seq<int>, ts: map<int, Timer>, n: nat, i: nat)
    requires i < n <= |hs| && Ordered(hs, ts, n, -1)
    ensures Key(hs, ts, 0) <= Key(hs, ts, i)
  {
    if i > 0 {
      RootIsMinimum(hs, ts, n, Parent(i));
    }
  }
}
