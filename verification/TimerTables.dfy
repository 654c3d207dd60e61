/**
  The id table of icm-1.1/icc/TimerHeap.cpp next to the heap, on plain sequences: an entry is
  the heap slot of an active id, the limbo marker, or any other negative number for a free
  id.  `hs` holds the id in each heap slot, `ids` is the table, `ts` gives the timer of each
  active id, `inLimbo` are the ids in limbo, and `n` and `l` count the two.
 */
module TimerTables {
  import opened TimerIds
  import opened HeapOrder

  const IN_LIMBO: int := -2
  const FREED: int := -1

  /** Ids in limbo carry the limbo marker and the remaining ids a free marker; the marker of
      `ex` is left open. */
  ghost predicate Marked(ids: seq<int>, active: set<int>, inLimbo: set<int>, ex: int) {
    && (forall k :: k in inLimbo ==> 0 <= k < |ids| && k !in active && (k != ex ==> ids[k] == IN_LIMBO))
    && (forall k :: 0 <= k < |ids| && k !in active && k !in inLimbo && k != ex ==> ids[k] < 0 && ids[k] != IN_LIMBO)
  }

  /** Every id is exactly one of active, in limbo and free; heap and table are inverse; the
      heap is ordered; the counters count. */
  ghost predicate Consistent(hs: seq<int>, ids: seq<int>, ts: map<int, Timer>, inLimbo: set<int>, n: nat, l: nat,
                             ex: int) {
    && Linked(hs, ids, ts.Keys, n, -1, -1)
    && Ordered(hs, ts, n, -1)
    && Marked(ids, ts.Keys, inLimbo, ex)
    && |ts.Keys| == n && |inLimbo| == l
  }

  lemma EmptyIsConsistent(hs: seq<int>, ids: seq<int>)
    requires |hs| == |ids| && forall i :: 0 <= i < |ids| ==> ids[i] == FREED
    ensures Consistent(hs, ids, map[], {}, 0, 0, -1)
  {
  }

  lemma DropKey(ts: map<int, Timer>, k: int)
    requires k in ts
    ensures (ts - {k}).Keys == ts.Keys - {k} && |(ts - {k}).Keys| == |ts.Keys| - 1
  {
  }

  lemma AddKey(ts: map<int, Timer>, k: int, t: Timer)
    requires k !in ts
    ensures ts[k := t].Keys == ts.Keys + {k} && |ts[k := t].Keys| == |ts.Keys| + 1
  {
  }

  /** The table entry of an inactive id does not matter to the heap. */
  lemma MarkKeepsLinked(hs: seq<int>, ids: seq<int>, active: set<int>, n: nat, id: int, mark: int)
    requires Linked(hs, ids, active, n, -1, -1) && 0 <= id < |ids| && id !in active
    ensures Linked(hs, ids[id := mark], active, n, -1, -1)
  {
  }

  lemma MarkLimbo(ids: seq<int>, ids': seq<int>, active: set<int>, inLimbo: set<int>, id: int)
    requires Marked(ids, active, inLimbo, -1) && 0 <= id < |ids| && id in active
    requires SameOutside(ids, ids', active - {id})
    ensures Marked(ids'[id := IN_LIMBO], active - {id}, inLimbo + {id}, -1)
    ensures (active - {id}) + (inLimbo + {id}) == active + inLimbo && |inLimbo + {id}| == |inLimbo| + 1
  {
  }

  /** What `remove` leaves: slots and table as its sift leaves them, and the limbo marker. */
  lemma RemoveKeepsConsistent(hs: seq<int>, ids: seq<int>, ts: map<int, Timer>, inLimbo: set<int>, n: nat, l: nat,
                              slot: nat, hs': seq<int>, ids': seq<int>)
    requires Consistent(hs, ids, ts, inLimbo, n + 1, l, -1) && slot <= n
    requires slot < n ==> hs[n] in ts - {hs[slot]}
    requires hs' == CloseGap(hs, ids, ts - {hs[slot]}, n, slot).0
    requires ids' == SetId(CloseGap(hs, ids, ts - {hs[slot]}, n, slot).1, hs[slot], IN_LIMBO)
    ensures Consistent(hs', ids', ts - {hs[slot]}, inLimbo + {hs[slot]}, n, l + 1, -1)
    ensures (ts - {hs[slot]}).Keys + (inLimbo + {hs[slot]}) == ts.Keys + inLimbo
  {
    var id := hs[slot];
    var sifted := CloseGap(hs, ids, ts - {id}, n, slot).1;
    CloseGapRestores(hs, ids, ts, n, slot);
    DropKey(ts, id);
    MarkKeepsLinked(hs', sifted, (ts - {id}).Keys, n, id, IN_LIMBO);
    MarkLimbo(ids, sifted, ts.Keys, inLimbo, id);
  }

  lemma MarkActive(ids: seq<int>, ids': seq<int>, active: set<int>, inLimbo: set<int>, id: int)
    requires Marked(ids, active, inLimbo, id) && id !in inLimbo
    requires SameOutside(ids, ids', active + {id})
    ensures Marked(ids', active + {id}, inLimbo, -1)
    ensures (active + {id}) + inLimbo == (active + inLimbo) + {id}
  {
  }

  /** Placing an id whose marker was left open in the first unused slot and sifting it up. */
  lemma PlaceKeepsConsistent(hs: seq<int>, ids: seq<int>, ts: map<int, Timer>, inLimbo: set<int>, n: nat, l: nat,
                             id: int, t: Timer, hs': seq<int>, ids': seq<int>)
    requires Consistent(hs, ids, ts, inLimbo, n, l, id) && n < |hs|
    requires id !in ts && id !in inLimbo && 0 <= id < |ids|
    requires (hs', ids') == SiftUp(hs, ids, ts[id := t], n, id)
    ensures Consistent(hs', ids', ts[id := t], inLimbo, n + 1, l, -1)
    ensures ts[id := t].Keys + inLimbo == (ts.Keys + inLimbo) + {id}
  {
    AddKey(ts, id, t);
    InsertOpensHole(hs, ids, ts, n, id, t);
    SiftUpRestores(hs, ids, ts[id := t], n + 1, n, id);
    MarkActive(ids, ids', ts.Keys, inLimbo, id);
  }

  /** Freeing an id in limbo. */
  lemma FreeKeepsConsistent(hs: seq<int>, ids: seq<int>, ts: map<int, Timer>, inLimbo: set<int>, n: nat, l: nat,
                            id: int)
    requires Consistent(hs, ids, ts, inLimbo, n, l, -1) && id in inLimbo
    ensures l > 0 && 0 <= id < |ids| && ids[id] == IN_LIMBO && id !in ts
    ensures Consistent(hs, ids[id := FREED], ts, inLimbo - {id}, n, l - 1, -1)
    ensures ts.Keys + (inLimbo - {id}) == (ts.Keys + inLimbo) - {id}
  {
    MarkKeepsLinked(hs, ids, ts.Keys, n, id, FREED);
  }

  /** Taking an id out of limbo, with its marker left as it is. */
  lemma LimboOpens(hs: seq<int>, ids: seq<int>, ts: map<int, Timer>, inLimbo: set<int>, n: nat, l: nat, id: int)
    requires Consistent(hs, ids, ts, inLimbo, n, l, -1) && id in inLimbo
    ensures l > 0 && 0 <= id < |ids| && ids[id] == IN_LIMBO && id !in ts
    ensures Consistent(hs, ids, ts, inLimbo - {id}, n, l - 1, id)
    ensures ts.Keys + (inLimbo - {id}) == (ts.Keys + inLimbo) - {id}
  {
  }

  /** A consistent table stays so when one marker is left open. */
  lemma OpenMarker(hs: seq<int>, ids: seq<int>, ts: map<int, Timer>, inLimbo: set<int>, n: nat, l: nat, id: int)
    requires Consistent(hs, ids, ts, inLimbo, n, l, -1)
    ensures Consistent(hs, ids, ts, inLimbo, n, l, id)
  {
  }

  /** The table after `growHeap`: the old entries, then a negative number for each new id. */
  function GrownIds(ids: seq<int>): (r: seq<int>)
    ensures |r| == 2 * |ids|
  {
    ids + seq(|ids|, i => -(|ids| + i + 1))
  }

  /** Growth marks all new ids free exactly when the table did not have size one: id 1 is
      marked with the limbo marker. */
  lemma GrowthMarksFree(ids: seq<int>)
    ensures (forall i :: |ids| <= i < 2 * |ids| ==> GrownIds(ids)[i] < 0 && GrownIds(ids)[i] != IN_LIMBO)
       <==> |ids| != 1
  {
    if |ids| == 1 {
      assert GrownIds(ids)[1] == IN_LIMBO;
    }
  }

  lemma GrowthKeepsMarked(ids: seq<int>, active: set<int>, inLimbo: set<int>, ex: int)
    requires Marked(ids, active, inLimbo, ex) && |ids| >= 2
    ensures Marked(GrownIds(ids), active, inLimbo, ex)
  {
    GrowthMarksFree(ids);
  }

  lemma SamePrefixOrdered(hs: seq<int>, hs': seq<int>, ts: map<int, Timer>, n: nat)
    requires n <= |hs| <= |hs'| && hs'[..|hs|] == hs && Ordered(hs, ts, n, -1)
    ensures Ordered(hs', ts, n, -1)
  {
    forall i | 0 <= i < n
      ensures Key(hs', ts, i) == Key(hs, ts, i)
    {
      assert hs'[i] == hs[i];
    }
  }

  lemma GrowthKeepsLinked(hs: seq<int>, ids: seq<int>, active: set<int>, n: nat, hs': seq<int>)
    requires Linked(hs, ids, active, n, -1, -1) && |hs'| == 2 * |hs| && hs'[..|hs|] == hs
    ensures Linked(hs', GrownIds(ids), active, n, -1, -1)
  {
    var ids' := GrownIds(ids);
    assert forall i :: 0 <= i < |hs| ==> hs'[i] == hs[i];
    assert forall i :: 0 <= i < |ids| ==> ids'[i] == ids[i];
  }

  /** Growth keeps the tables consistent, from any table of two or more ids. */
  lemma GrowthKeepsConsistent(hs: seq<int>, ids: seq<int>, ts: map<int, Timer>, inLimbo: set<int>, n: nat, l: nat,
                              ex: int, hs': seq<int>)
    requires Consistent(hs, ids, ts, inLimbo, n, l, ex) && |ids| >= 2
    requires |hs'| == 2 * |hs| && hs'[..|hs|] == hs
    ensures Consistent(hs', GrownIds(ids), ts, inLimbo, n, l, ex)
  {
    GrowthKeepsLinked(hs, ids, ts.Keys, n, hs');
    SamePrefixOrdered(hs, hs', ts, n);
    GrowthKeepsMarked(ids, ts.Keys, inLimbo, ex);
  }

  lemma SameDueOrdered(hs: seq<int>, ts: map<int, Timer>, ts': map<int, Timer>, n: nat)
    requires n <= |hs| && Ordered(hs, ts, n, -1) && ts'.Keys == ts.Keys
    requires forall k :: k in ts ==> Due(ts'[k]) == Due(ts[k])
    ensures Ordered(hs, ts', n, -1)
  {
    forall i | 0 <= i < n
      ensures Key(hs, ts', i) == Key(hs, ts, i)
    {
      var k := hs[i];
      assert k in ts.Keys <==> k in ts'.Keys;
    }
  }

  /** The order does not depend on the intervals. */
  lemma IntervalKeepsConsistent(hs: seq<int>, ids: seq<int>, ts: map<int, Timer>, inLimbo: set<int>, n: nat, l: nat,
                                id: int, t: Timer)
    requires Consistent(hs, ids, ts, inLimbo, n, l, -1) && id in ts && Due(t) == Due(ts[id])
    ensures Consistent(hs, ids, ts[id := t], inLimbo, n, l, -1)
  {
    assert ts[id := t].Keys == ts.Keys;
    SameDueOrdered(hs, ts, ts[id := t], n);
  }

  /** A table entry shows whether its id is in use. */
  ghost predicate ShowsUse(ids: seq<int>, used: set<int>) {
    forall k :: 0 <= k < |ids| ==> (k in used <==> ids[k] >= 0 || ids[k] == IN_LIMBO)
  }

  lemma ConsistentShowsUse(hs: seq<int>, ids: seq<int>, ts: map<int, Timer>, inLimbo: set<int>, n: nat, l: nat)
    requires Consistent(hs, ids, ts, inLimbo, n, l, -1)
    ensures ShowsUse(ids, ts.Keys + inLimbo)
  {
  }

  lemma {:induction false} DisjointSizes(s: set<int>, t: set<int>)
    requires forall x :: x in t ==> x !in s
    ensures |s + t| == |s| + |t|
  {
    if |t| == 0 {
      assert s + t == s;
    } else {
      var x := SomeMember(t);
      DisjointSizes(s, t - {x});
      assert s + t == s + (t - {x}) + {x};
    }
  }

  /** The counters add up to the number of ids in use. */
  lemma UseCount(hs: seq<int>, ids: seq<int>, ts: map<int, Timer>, inLimbo: set<int>, n: nat, l: nat, ex: int)
    requires Consistent(hs, ids, ts, inLimbo, n, l, ex)
    ensures |ts.Keys + inLimbo| == n + l
  {
    DisjointSizes(ts.Keys, inLimbo);
  }

  /** What the slots and the table say about each other, for readers of the tables. */
  lemma SlotFacts(hs: seq<int>, ids: seq<int>, ts: map<int, Timer>, inLimbo: set<int>, n: nat, l: nat, slot: nat)
    requires Consistent(hs, ids, ts, inLimbo, n, l, -1) && slot < n
    ensures n <= |hs| == |ids| && hs[slot] in ts && 0 <= hs[slot] < |ids| && ids[hs[slot]] == slot
            && hs[slot] !in inLimbo
    ensures Key(hs, ts, slot) == Due(ts[hs[slot]])
  {
  }

  lemma IdFacts(hs: seq<int>, ids: seq<int>, ts: map<int, Timer>, inLimbo: set<int>, n: nat, l: nat, id: int)
    requires Consistent(hs, ids, ts, inLimbo, n, l, -1) && 0 <= id < |ids|
    ensures n <= |hs| && (id in ts <==> ids[id] >= 0)
    ensures id in ts ==> ids[id] < n && hs[ids[id]] == id
  {
  }

  /** The root holds an earliest timer. */
  lemma RootIsEarliest(hs: seq<int>, ids: seq<int>, ts: map<int, Timer>, inLimbo: set<int>, n: nat, l: nat, id: int)
    requires Consistent(hs, ids, ts, inLimbo, n, l, -1) && id in ts
    ensures 0 < n <= |hs| && hs[0] in ts && Due(ts[hs[0]]) <= Due(ts[id])
  {
    RootIsMinimum(hs, ts, n, ids[id]);
    SlotFacts(hs, ids, ts, inLimbo, n, l, 0);
  }
}
