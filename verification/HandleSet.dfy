/**
  The word-packed set of handles of icm-1.1/icc/HandleSet.cpp, with its cached size and
  maximum, and its look-ahead iterator.  Words have 64 bits, as on 64-bit Linux.
 */
module HandleSets {
  import opened Bits
  import opened Wrappers

  const WORDSIZE: int := 64
  const MAXSIZE: int := 1024
  const NUM_WORDS: int := 16

  /** A word has no bits past its size. */
  ghost predicate WordOk(w: nat) {
    forall k: nat {:trigger Bit(w, k)} :: k >= WORDSIZE ==> !Bit(w, k)
  }

  ghost predicate WordsOk(ws: seq<nat>) {
    forall i :: 0 <= i < |ws| ==> WordOk(ws[i])
  }

  predicate Member(ws: seq<nat>, h: int) {
    0 <= h < WORDSIZE * |ws| && Bit(ws[h / WORDSIZE], h % WORDSIZE)
  }

  /** The bits set in all words. */
  ghost function Sum(ws: seq<nat>): nat {
    if |ws| == 0 then 0 else Sum(ws[..|ws| - 1]) + PopCount(ws[|ws| - 1])
  }

  /** The handle `setMax` finds: the top bit of the last nonzero word. */
  ghost function TopHandle(ws: seq<nat>): int {
    if |ws| == 0 then INVALID_HANDLE
    else if ws[|ws| - 1] != 0 then WORDSIZE * (|ws| - 1) + TopBit(ws[|ws| - 1])
    else TopHandle(ws[..|ws| - 1])
  }

  /** Division rounding toward zero. */
  function TruncDiv(a: int, b: int): int
    requires b > 0
  {
    if a >= 0 then a / b else -(-a / b)
  }

  /** The words up to the one of handle `max - 1`. */
  function ScannedWords(max: int): nat {
    if TruncDiv(max - 1, WORDSIZE) < 0 then 0 else TruncDiv(max - 1, WORDSIZE) + 1
  }

  lemma {:induction false} SumUpdate(ws: seq<nat>, i: nat, w: nat)
    requires i < |ws|
    ensures Sum(ws[i := w]) == Sum(ws) - PopCount(ws[i]) + PopCount(w)
  {
    var n := |ws| - 1;
    if i == n {
      assert ws[i := w][..n] == ws[..n];
    } else {
      assert ws[i := w][..n] == ws[..n][i := w];
      SumUpdate(ws[..n], i, w);
    }
  }

  lemma MemberOfPrefix(ws: seq<nat>, n: nat, h: int)
    requires n <= |ws|
    ensures Member(ws[..n], h) <==> Member(ws, h) && h < WORDSIZE * n
  {
    if 0 <= h < WORDSIZE * n {
      assert h / WORDSIZE < n;
    }
  }

  /** `TopHandle` is the largest member; without members it is the invalid handle and the
      count is zero. */
  lemma {:induction false} TopHandleIsLargest(ws: seq<nat>, h: int)
    requires WordsOk(ws)
    ensures TopHandle(ws) == INVALID_HANDLE || Member(ws, TopHandle(ws))
    ensures h > TopHandle(ws) ==> !Member(ws, h)
    ensures TopHandle(ws) == INVALID_HANDLE <==> Sum(ws) == 0
    ensures INVALID_HANDLE <= TopHandle(ws) < WORDSIZE * |ws|
  {
    if |ws| > 0 {
      var n := |ws| - 1;
      TopHandleIsLargest(ws[..n], h);
      MemberOfPrefix(ws, n, TopHandle(ws[..n]));
      MemberOfPrefix(ws, n, h);
      var w := ws[n];
      if w != 0 {
        var k := NonzeroHasBit(w);
        TopBitIsHighest(w, if 0 <= h then h % WORDSIZE else 0);
        var t := WORDSIZE * n + TopBit(w);
        assert TopBit(w) < WORDSIZE;
        assert t / WORDSIZE == n && t % WORDSIZE == TopBit(w);
        if h > t && h < WORDSIZE * |ws| {
          assert h / WORDSIZE == n;
        }
      } else if Member(ws, h) && h >= WORDSIZE * n {
        assert h / WORDSIZE == n;
        ZeroHasNoBits(h % WORDSIZE);
      }
    }
  }

  /** The members below `n`. */
  ghost function MembersBelow(ws: seq<nat>, n: nat): (s: set<int>)
    ensures forall h :: h in s <==> 0 <= h < n && Member(ws, h)
  {
    if n == 0 then {}
    else if Member(ws, n - 1) then MembersBelow(ws, n - 1) + {n - 1} else MembersBelow(ws, n - 1)
  }

  ghost function CountBelow(ws: seq<nat>, n: nat): nat {
    if n == 0 then 0 else CountBelow(ws, n - 1) + if Member(ws, n - 1) then 1 else 0
  }

  lemma {:induction false} CountIsSize(ws: seq<nat>, n: nat)
    ensures |MembersBelow(ws, n)| == CountBelow(ws, n)
  {
    if n > 0 {
      CountIsSize(ws, n - 1);
    }
  }

  lemma MemberAt(ws: seq<nat>, i: nat, j: nat)
    requires i < |ws| && j < WORDSIZE
    ensures Member(ws, WORDSIZE * i + j) <==> Bit(ws[i], j)
  {
    var h := WORDSIZE * i + j;
    assert h / WORDSIZE == i && h % WORDSIZE == j;
  }

  /** The bits set among the first `j` of a word. */
  ghost function BitsBelow(w: nat, j: nat): nat {
    if j == 0 then 0 else BitsBelow(w, j - 1) + if Bit(w, j - 1) then 1 else 0
  }

  lemma {:induction false} BitsBelowIsCount(w: nat, j: nat)
    ensures BitsBelow(w, j) == PopCount(Low(w, j))
  {
    if j > 0 {
      BitsBelowIsCount(w, j - 1);
      LowCountStep(w, j - 1);
    }
  }

  lemma {:induction false} CountInWord(ws: seq<nat>, i: nat, b: nat, j: nat)
    requires i < |ws| && b == WORDSIZE * i && j <= WORDSIZE
    ensures CountBelow(ws, b + j) == CountBelow(ws, b) + BitsBelow(ws[i], j)
  {
    if j > 0 {
      CountInWord(ws, i, b, j - 1);
      MemberAt(ws, i, j - 1);
    }
  }

  lemma CountWord(ws: seq<nat>, i: nat, full: nat)
    requires WordsOk(ws) && i < |ws| && full == WORDSIZE
    ensures CountBelow(ws, WORDSIZE * i + full) == CountBelow(ws, WORDSIZE * i) + PopCount(ws[i])
  {
    CountInWord(ws, i, WORDSIZE * i, full);
    BitsBelowIsCount(ws[i], full);
    LowIsAll(ws[i], full);
  }

  lemma {:induction false} CountWords(ws: seq<nat>, i: nat)
    requires WordsOk(ws) && i <= |ws|
    ensures CountBelow(ws, WORDSIZE * i) == Sum(ws[..i])
    decreases i
  {
    if i > 0 {
      CountWords(ws, i - 1);
      CountWord(ws, i - 1, WORDSIZE);
      assert ws[..i][..i - 1] == ws[..i - 1];
    }
  }

  lemma LowIsAll(w: nat, full: nat)
    requires WordOk(w) && full == WORDSIZE
    ensures PopCount(Low(w, full)) == PopCount(w)
  {
    CountSplits(w, full);
    var high := Shift(w, full);
    if high != 0 {
      var k := NonzeroHasBit(high);
      ShiftBit(w, full, k);
      assert false;
    }
  }

  /** The bits set are the members, so the cached size counts the members. */
  lemma SumCountsMembers(ws: seq<nat>)
    requires WordsOk(ws)
    ensures |MembersBelow(ws, WORDSIZE * |ws|)| == Sum(ws)
  {
    CountIsSize(ws, WORDSIZE * |ws|);
    CountWords(ws, |ws|);
    assert ws[..|ws|] == ws;
  }

  /** The words after one bit has changed. */
  lemma SetKeeps(ws: seq<nat>, h: nat, g: int)
    requires WordsOk(ws) && h < WORDSIZE * |ws|
    ensures var ws' := ws[h / WORDSIZE := WithBit(ws[h / WORDSIZE], h % WORDSIZE)];
            && WordsOk(ws') && (Member(ws', g) <==> g == h || Member(ws, g))
            && (!Member(ws, h) ==> Sum(ws') == Sum(ws) + 1)
  {
    var i, j := h / WORDSIZE, h % WORDSIZE;
    var w := ws[i];
    forall k: nat
      ensures Bit(WithBit(w, j), k) <==> k == j || Bit(w, k)
    {
      WithBitAt(w, j, k);
    }
    SumUpdate(ws, i, WithBit(w, j));
    if !Member(ws, h) {
      WithBitCount(w, j);
    }
  }

  lemma ClearKeeps(ws: seq<nat>, h: nat, g: int)
    requires WordsOk(ws) && h < WORDSIZE * |ws|
    ensures var ws' := ws[h / WORDSIZE := WithoutBit(ws[h / WORDSIZE], h % WORDSIZE)];
            && WordsOk(ws') && (Member(ws', g) <==> g != h && Member(ws, g))
            && (Member(ws, h) ==> Sum(ws') == Sum(ws) - 1)
  {
    var i, j := h / WORDSIZE, h % WORDSIZE;
    var w := ws[i];
    forall k: nat
      ensures Bit(WithoutBit(w, j), k) <==> k != j && Bit(w, k)
    {
      WithoutBitAt(w, j, k);
    }
    SumUpdate(ws, i, WithoutBit(w, j));
    if Member(ws, h) {
      WithoutBitCount(w, j);
    }
  }

  /** A handle that is a member and has no member above it is the one `TopHandle` names. */
  lemma TopHandleUnique(ws: seq<nat>, t: int)
    requires WordsOk(ws) && Member(ws, t) && forall g :: g > t ==> !Member(ws, g)
    ensures TopHandle(ws) == t
  {
    TopHandleIsLargest(ws, t);
  }

  /** Words that are zero from `n` on do not change the top handle. */
  lemma {:induction false} TopHandleOfPrefix(ws: seq<nat>, n: nat)
    requires n <= |ws| && forall i :: n <= i < |ws| ==> ws[i] == 0
    ensures TopHandle(ws[..n]) == TopHandle(ws) && Sum(ws[..n]) == Sum(ws)
  {
    if n == |ws| {
      assert ws[..n] == ws;
    } else {
      var m := |ws| - 1;
      TopHandleOfPrefix(ws[..m], n);
      assert ws[..m][..n] == ws[..n];
    }
  }

  class HandleSet {
    var words: array<nat>
    var size: int
    var maxHandle: int

    /** The words are in shape; the cached values may be stale. */
    ghost predicate Shape()
      reads this, words
    {
      words.Length == NUM_WORDS && WordsOk(words[..])
    }

    ghost predicate Valid()
      reads this, words
    {
      Shape() && size == Sum(words[..]) && maxHandle == TopHandle(words[..])
    }

    constructor ()
      ensures Valid() && fresh(words) && forall h :: !Member(words[..], h)
    {
      words := new nat[NUM_WORDS](_ => 0);
      size, maxHandle := 0, INVALID_HANDLE;
      new;
      AllZero(words[..]);
    }

    method Reset()
      requires Shape()
      modifies this, words
      ensures Valid() && words == old(words) && forall h :: !Member(words[..], h)
    {
      maxHandle := INVALID_HANDLE;
      size := 0;
      forall i | 0 <= i < words.Length {
        words[i] := 0;
      }
      AllZero(words[..]);
    }

    method IsSet(handle: int) returns (r: bool)
      requires Shape() && 0 <= handle < MAXSIZE
      ensures r <==> Member(words[..], handle)
    {
      r := Bit(words[handle / WORDSIZE], handle % WORDSIZE);
    }

    method SetBit(handle: int)
      requires Valid() && (handle == INVALID_HANDLE || 0 <= handle < MAXSIZE)
      modifies this`size, this`maxHandle, words
      ensures Valid()
      ensures forall g ::
                Member(words[..], g) <==> (g == handle && handle != INVALID_HANDLE) || Member(old(words[..]), g)
    {
      ghost var ws := words[..];
      if handle != INVALID_HANDLE {
        var isSet := IsSet(handle);
        if !isSet {
          words[handle / WORDSIZE] := WithBit(words[handle / WORDSIZE], handle % WORDSIZE);
          size := size + 1;
          assert words[..] == ws[handle / WORDSIZE := WithBit(ws[handle / WORDSIZE], handle % WORDSIZE)];
          forall g
            ensures Member(words[..], g) <==> g == handle || Member(ws, g)
          {
            SetKeeps(ws, handle, g);
          }
          forall g | g > maxHandle
            ensures !Member(ws, g)
          {
            TopHandleIsLargest(ws, g);
          }
          SetKeeps(ws, handle, handle);
          TopHandleIsLargest(ws, handle);
          if handle > maxHandle {
            maxHandle := handle;
          }
          TopHandleUnique(words[..], maxHandle);
        }
      }
    }

    /** Finds the largest member, looking down from the word of `currentMax - 1`. */
    method SetMax(currentMax: int)
      requires Shape() && currentMax <= MAXSIZE
      requires size != 0 ==>
                 0 <= TruncDiv(currentMax - 1, WORDSIZE) && Sum(words[..TruncDiv(currentMax - 1, WORDSIZE) + 1]) > 0
      modifies this`maxHandle
      ensures maxHandle == if size == 0 then INVALID_HANDLE
              else TopHandle(words[..TruncDiv(currentMax - 1, WORDSIZE) + 1])
    {
      if size == 0 {
        maxHandle := INVALID_HANDLE;
      } else {
        var i := TruncDiv(currentMax - 1, WORDSIZE);
        ghost var top := TopHandle(words[..i + 1]);
        TopHandleIsLargest(words[..i + 1], 0);
        while words[i] == 0
          invariant 0 <= i < NUM_WORDS && TopHandle(words[..i + 1]) == top >= 0
          decreases i
        {
          assert words[..i + 1][..i] == words[..i];
          i := i - 1;
        }
        maxHandle := WORDSIZE * i;
        var val := words[i];
        while val >= 2
          invariant val > 0 && maxHandle + TopBit(val) == top
          decreases val
        {
          val := val / 2;
          maxHandle := maxHandle + 1;
        }
      }
      maxHandle := if maxHandle >= MAXSIZE then MAXSIZE - 1 else maxHandle;
    }

    method ClrBit(handle: int)
      requires Valid() && (handle == INVALID_HANDLE || 0 <= handle < MAXSIZE)
      modifies this`size, this`maxHandle, words
      ensures Valid()
      ensures forall g :: Member(words[..], g) <==> g != handle && Member(old(words[..]), g)
      ensures Member(old(words[..]), handle) ==>
                words[..]
                == old(words[..])[handle / WORDSIZE := WithoutBit(old(words[..])[handle / WORDSIZE], handle % WORDSIZE)]
      ensures !Member(old(words[..]), handle) ==> words[..] == old(words[..])
      ensures size == old(size) - if Member(old(words[..]), handle) then 1 else 0
    {
      ghost var ws := words[..];
      if handle != INVALID_HANDLE {
        var isSet := IsSet(handle);
        if isSet {
          words[handle / WORDSIZE] := WithoutBit(words[handle / WORDSIZE], handle % WORDSIZE);
          size := size - 1;
          assert words[..] == ws[handle / WORDSIZE := WithoutBit(ws[handle / WORDSIZE], handle % WORDSIZE)];
          forall g
            ensures Member(words[..], g) <==> g != handle && Member(ws, g)
          {
            ClearKeeps(ws, handle, g);
          }
          ClearKeeps(ws, handle, handle);
          Recap(ws, handle);
          if handle == maxHandle {
            SetMax(maxHandle);
          }
        }
      }
    }

    /** After clearing `handle`: what the search for the new maximum will find. */
    lemma Recap(ws: seq<nat>, handle: int)
      requires Shape() && WordsOk(ws) && |ws| == NUM_WORDS && Member(ws, handle) && maxHandle == TopHandle(ws)
      requires forall g :: Member(words[..], g) <==> g != handle && Member(ws, g)
      ensures handle != maxHandle ==> TopHandle(words[..]) == maxHandle
      ensures handle == maxHandle && Sum(words[..]) != 0 ==>
                && 0 <= TruncDiv(maxHandle - 1, WORDSIZE)
                && Sum(words[..TruncDiv(maxHandle - 1, WORDSIZE) + 1]) > 0
                && TopHandle(words[..TruncDiv(maxHandle - 1, WORDSIZE) + 1]) == TopHandle(words[..])
      ensures Sum(words[..]) == 0 ==> TopHandle(words[..]) == INVALID_HANDLE
    {
      forall g | g > maxHandle
        ensures !Member(ws, g)
      {
        TopHandleIsLargest(ws, g);
      }
      TopHandleIsLargest(ws, handle);
      TopHandleIsLargest(words[..], handle);
      if handle != maxHandle {
        TopHandleUnique(words[..], maxHandle);
      } else if Sum(words[..]) != 0 {
        var t := TopHandle(words[..]);
        assert Member(words[..], t) && 0 <= t < maxHandle;
        var n := TruncDiv(maxHandle - 1, WORDSIZE) + 1;
        ZeroAbove(words[..], maxHandle - 1, n);
        TopHandleOfPrefix(words[..], n);
      }
    }

    /** Recounts after the words have been changed from outside, looking at the words up to
        the one of `max - 1`.  The caches are right exactly when there is nothing above. */
    method Sync(max: int)
      requires Shape() && max <= MAXSIZE
      modifies this`size, this`maxHandle
      ensures Shape() && size == Sum(words[..ScannedWords(max)]) && maxHandle == TopHandle(words[..ScannedWords(max)])
      ensures Valid() <==> forall h :: h >= WORDSIZE * (TruncDiv(max - 1, WORDSIZE) + 1) ==> !Member(words[..], h)
    {
      size := 0;
      var i := TruncDiv(max - 1, WORDSIZE);
      ghost var n := ScannedWords(max);
      while i >= 0
        invariant i < n && (i >= 0 ==> i < NUM_WORDS)
        invariant size + Sum(words[..if i < 0 then 0 else i + 1]) == Sum(words[..n])
        decreases i
      {
        var count := CountBits(words[i]);
        size := size + count;
        assert words[..i + 1][..i] == words[..i];
        i := i - 1;
      }
      SetMax(max);
      SyncExact(words[..], n);
      TopHandleIsLargest(words[..n], 0);
      assert n == 0 ==> words[..n] == [];
    }
  }

  /** The first `n` words tell the whole story exactly when no member lies above them. */
  lemma SyncExact(ws: seq<nat>, n: nat)
    requires WordsOk(ws) && n <= |ws|
    ensures (Sum(ws[..n]) == Sum(ws) && TopHandle(ws[..n]) == TopHandle(ws))
       <==> forall h :: h >= WORDSIZE * n ==> !Member(ws, h)
  {
    if forall h :: h >= WORDSIZE * n ==> !Member(ws, h) {
      forall i | n <= i < |ws|
        ensures ws[i] == 0
      {
        if ws[i] != 0 {
          var k := NonzeroHasBit(ws[i]);
          MemberAt(ws, i, k);
        }
      }
      TopHandleOfPrefix(ws, n);
    } else {
      var h :| h >= WORDSIZE * n && Member(ws, h);
      TopHandleIsLargest(ws, h);
      TopHandleIsLargest(ws[..n], 0);
    }
  }

  /** Above the word of the largest member all words are zero. */
  lemma ZeroAbove(ws: seq<nat>, m: int, n: nat)
    requires WordsOk(ws) && m >= 0 && n == m / WORDSIZE + 1 <= |ws| && forall g :: g > m ==> !Member(ws, g)
    ensures forall i :: n <= i < |ws| ==> ws[i] == 0
  {
    forall i | n <= i < |ws|
      ensures ws[i] == 0
    {
      if ws[i] != 0 {
        var k := NonzeroHasBit(ws[i]);
        if k < WORDSIZE {
          MemberAt(ws, i, k);
        }
      }
    }
  }

  lemma {:induction false} AllZero(ws: seq<nat>)
    requires forall i :: 0 <= i < |ws| ==> ws[i] == 0
    ensures WordsOk(ws) && Sum(ws) == 0 && TopHandle(ws) == INVALID_HANDLE && forall h :: !Member(ws, h)
  {
    forall k: nat
      ensures !Bit(0, k)
    {
      ZeroHasNoBits(k);
    }
    if |ws| > 0 {
      AllZero(ws[..|ws| - 1]);
    }
  }

  // ---- The iterator ------------------------------------------------------------

  /** `val` is word `n` shifted so that its bit 0 is handle `index`. */
  ghost predicate Shifted(ws: seq<nat>, n: int, index: int, val: nat) {
    0 <= n < |ws| && WORDSIZE * n <= index <= WORDSIZE * n + WORDSIZE && val == Shift(ws[n], index - WORDSIZE * n)
  }

  lemma ShiftStep(ws: seq<nat>, n: int, index: int, val: nat)
    requires WordsOk(ws) && Shifted(ws, n, index, val)
    ensures index == WORDSIZE * n + WORDSIZE ==> val == 0
    ensures index < WORDSIZE * n + WORDSIZE ==>
              (val % 2 == 1 <==> Member(ws, index)) && Shifted(ws, n, index + 1, val / 2)
  {
    var j := index - WORDSIZE * n;
    ShiftOnce(ws[n], j);
    ShiftBit(ws[n], j, 0);
    if j < WORDSIZE {
      MemberAt(ws, n, j);
    } else if val != 0 {
      var k := NonzeroHasBit(val);
      ShiftBit(ws[n], j, k);
      assert false;
    }
  }

  /** When the shifted word is zero, the rest of the word holds no member. */
  lemma RestOfWordEmpty(ws: seq<nat>, n: int, index: int, h: int)
    requires Shifted(ws, n, index, 0) && index <= h < WORDSIZE * n + WORDSIZE
    ensures !Member(ws, h)
  {
    ShiftBit(ws[n], index - WORDSIZE * n, h - index);
    ZeroHasNoBits(h - index);
    MemberAt(ws, n, h - WORDSIZE * n);
  }

  lemma ZeroWordEmpty(ws: seq<nat>, n: int, h: int)
    requires 0 <= n < |ws| && ws[n] == 0 && WORDSIZE * n <= h < WORDSIZE * n + WORDSIZE
    ensures !Member(ws, h)
  {
    ZeroHasNoBits(h - WORDSIZE * n);
    MemberAt(ws, n, h - WORDSIZE * n);
  }

  /** What the iterator fields say about the words: it stands on a member, with the rest of
      the member's word loaded, or past the last member. */
  ghost predicate Standing(ws: seq<nat>, index: int, n: int, val: nat) {
    && index >= 0
    && (Member(ws, index) ==> n == index / WORDSIZE && Shifted(ws, n, index, val))
    && (!Member(ws, index) ==> forall h :: h >= index ==> !Member(ws, h))
  }

  ghost predicate NoneBetween(ws: seq<nat>, lo: int, hi: int) {
    forall h :: lo <= h < hi ==> !Member(ws, h)
  }

  /** What the iterator sees: the set, with the word it is in as it was when it got there. */
  ghost function Seen(ws: seq<nat>, n: int, loaded: nat): (v: seq<nat>)
    ensures |v| == |ws|
  {
    if 0 <= n < |ws| then ws[n := loaded] else ws
  }

  /** Clearing any handle leaves the iterator standing where it stood. */
  lemma StandingAfterClear(ws: seq<nat>, index: int, n: int, loaded: nat, val: nat, g: nat)
    requires WordsOk(ws) && WordOk(loaded) && g < WORDSIZE * |ws|
    requires Standing(Seen(ws, n, loaded), index, n, val) && Within(ws, Seen(ws, n, loaded))
    ensures var ws' := ws[g / WORDSIZE := WithoutBit(ws[g / WORDSIZE], g % WORDSIZE)];
            Standing(Seen(ws', n, loaded), index, n, val) && Within(ws', Seen(ws', n, loaded))
  {
    var v := Seen(ws, n, loaded);
    var ws' := ws[g / WORDSIZE := WithoutBit(ws[g / WORDSIZE], g % WORDSIZE)];
    var v' := Seen(ws', n, loaded);
    forall h
      ensures Member(ws', h) <==> h != g && Member(ws, h)
      ensures Member(v', h) <==> Member(v, h) && (h == g ==> g / WORDSIZE == n)
    {
      ClearKeeps(ws, g, h);
      SeenMember(ws, n, loaded, h);
      SeenMember(ws', n, loaded, h);
    }
  }

  /** Every member of `ws` is one of `v`. */
  ghost predicate Within(ws: seq<nat>, v: seq<nat>) {
    forall h :: Member(ws, h) ==> Member(v, h)
  }

  lemma SeenMember(ws: seq<nat>, n: int, loaded: nat, h: int)
    ensures h / WORDSIZE != n ==> (Member(Seen(ws, n, loaded), h) <==> Member(ws, h))
    ensures 0 <= n < |ws| && h / WORDSIZE == n ==> (Member(Seen(ws, n, loaded), h) <==> Bit(loaded, h % WORDSIZE))
  {
  }

  lemma ZeroWordOk()
    ensures WordOk(0)
  {
    forall k: nat | k >= WORDSIZE
      ensures !Bit(0, k)
    {
      ZeroHasNoBits(k);
    }
  }

  /** `index` is the first member of `v` above `h`, or there is none. */
  ghost predicate Ahead(v: seq<nat>, h: int, index: int) {
    && h < index && NoneBetween(v, h + 1, index)
    && (Member(v, index) || forall g :: g >= index ==> !Member(v, g))
  }

  /** `v'` shows word `n` as `v` does and the others as `ws` does. */
  ghost predicate SeenFrom(v: seq<nat>, ws: seq<nat>, v': seq<nat>, n: int) {
    forall h :: Member(v', h) <==> if h / WORDSIZE == n then Member(v, h) else Member(ws, h)
  }

  class HandleSetIterator {
    const handles: HandleSet
    var handleIndex: int
    var wordNum: int
    var wordVal: nat

    /** The word the iterator is in, as it was when it got there. */
    ghost var loaded: nat

    ghost function View(): seq<nat>
      reads this, handles, handles.words
    {
      Seen(handles.words[..], wordNum, loaded)
    }

    ghost predicate Ready()
      reads this, handles, handles.words
    {
      && handles.Valid() && WordOk(loaded)
      && Standing(View(), handleIndex, wordNum, wordVal) && Within(handles.words[..], View())
    }

    /** Shifts until bit 0 is set: the loop at the end of `operator()`. */
    method FindBit(ghost v: seq<nat>)
      requires WordsOk(v) && Shifted(v, wordNum, handleIndex, wordVal) && wordVal != 0
      modifies this`handleIndex, this`wordVal
      ensures Standing(v, handleIndex, wordNum, wordVal) && Member(v, handleIndex)
      ensures handleIndex >= old(handleIndex) && NoneBetween(v, old(handleIndex), handleIndex)
    {
      while wordVal % 2 == 0
        invariant Shifted(v, wordNum, handleIndex, wordVal) && wordVal != 0
        invariant handleIndex >= old(handleIndex) && NoneBetween(v, old(handleIndex), handleIndex)
        decreases wordVal
      {
        ShiftStep(v, wordNum, handleIndex, wordVal);
        wordVal := wordVal / 2;
        handleIndex := handleIndex + 1;
      }
      ShiftStep(v, wordNum, handleIndex, wordVal);
    }

    constructor (hs: HandleSet)
      requires hs.Valid()
      ensures handles == hs && Ready() && View() == hs.words[..] && NoneBetween(hs.words[..], 0, handleIndex)
    {
      handles, handleIndex, wordNum, wordVal, loaded := hs, 0, -1, 0, 0;
      new;
      ghost var ws := handles.words[..];
      var maxhandlep1 := handles.maxHandle + 1;
      TopHandleIsLargest(ws, 0);
      while handleIndex < maxhandlep1
        invariant handleIndex == WORDSIZE * (wordNum + 1) && -1 <= wordNum
        invariant handles.Valid() && handles.words[..] == ws && NoneBetween(ws, 0, handleIndex)
        decreases maxhandlep1 - handleIndex
      {
        wordNum := wordNum + 1;
        if handles.words[wordNum] != 0 {
          break;
        }
        forall h | handleIndex <= h < handleIndex + WORDSIZE
          ensures !Member(ws, h)
        {
          ZeroWordEmpty(ws, wordNum, h);
        }
        handleIndex := handleIndex + WORDSIZE;
      }
      loaded := if 0 <= wordNum < NUM_WORDS then handles.words[wordNum] else 0;
      assert View() == ws;
      ZeroWordOk();
      if handleIndex >= maxhandlep1 {
        handleIndex := maxhandlep1;
        NoneAbove(ws);
      } else {
        wordVal := handles.words[wordNum];
        FindBit(ws);
      }
    }

    /** Returns the handle it stands on and moves to the next one it sees, or reports the end:
        that is when the set has no member at or above the handle it stands on. */
    method Next() returns (result: int)
      requires Ready()
      modifies this`handleIndex, this`wordNum, this`wordVal, this`loaded
      ensures Ready()
      ensures result == INVALID_HANDLE <==> forall h :: h >= old(handleIndex) ==> !Member(handles.words[..], h)
      ensures result == INVALID_HANDLE ==> handleIndex == old(handleIndex) && View() == old(View())
      ensures result != INVALID_HANDLE ==>
                && result == old(handleIndex) && Member(old(View()), result)
                && Ahead(old(View()), result, handleIndex)
                && (Member(View(), handleIndex) <==> Member(old(View()), handleIndex))
                && (Member(View(), handleIndex) ==>
                    SeenFrom(old(View()), handles.words[..], View(), handleIndex / WORDSIZE))
    {
      ghost var v, ws := View(), handles.words[..];
      var maxhandlep1 := handles.maxHandle + 1;
      NoneAbove(ws);
      TopHandleIsLargest(ws, 0);
      if handleIndex >= maxhandlep1 {
        return INVALID_HANDLE;
      }
      assert Member(v, handles.maxHandle);
      result := handleIndex;
      ShiftStep(v, wordNum, handleIndex, wordVal);
      handleIndex := handleIndex + 1;
      wordVal := wordVal / 2;
      if wordVal != 0 {
        FindBit(v);
      } else {
        MoveOn(maxhandlep1, result);
      }
    }

    /** Moves past an exhausted word. */
    method MoveOn(maxhandlep1: int, ghost result: int)
      requires handles.Valid() && WordOk(loaded) && maxhandlep1 == handles.maxHandle + 1
      requires Shifted(View(), wordNum, handleIndex, 0) && handleIndex == result + 1 <= maxhandlep1
      modifies this`handleIndex, this`wordNum, this`wordVal, this`loaded
      ensures Ready() && Ahead(old(View()), result, handleIndex) && View() == handles.words[..]
      ensures Member(View(), handleIndex) <==> Member(old(View()), handleIndex)
      ensures Member(View(), handleIndex) ==> SeenFrom(old(View()), handles.words[..], View(), handleIndex / WORDSIZE)
    {
      ghost var v, ws, n := View(), handles.words[..], wordNum;
      forall h
        ensures h / WORDSIZE != n ==> (Member(v, h) <==> Member(ws, h))
      {
        SeenMember(ws, n, loaded, h);
      }
      NextWord(maxhandlep1, v);
      loaded := if 0 <= wordNum < NUM_WORDS then handles.words[wordNum] else 0;
      ZeroWordOk();
      assert View() == ws;
      if handleIndex >= maxhandlep1 {
        handleIndex := maxhandlep1;
        NoneAbove(ws);
      } else {
        wordVal := handles.words[wordNum];
        FindBit(ws);
      }
    }

    /** Goes to the start of the next nonzero word, or past the end. */
    method NextWord(maxhandlep1: int, ghost v: seq<nat>)
      requires handles.Valid() && maxhandlep1 == handles.maxHandle + 1 && v == View()
      requires Shifted(v, wordNum, handleIndex, 0)
      modifies this`handleIndex, this`wordNum
      ensures handleIndex >= old(handleIndex) && NoneBetween(v, old(handleIndex), handleIndex)
      ensures wordNum > old(wordNum) && handleIndex == WORDSIZE * wordNum
      ensures handleIndex < maxhandlep1 ==> wordNum < NUM_WORDS && handles.words[wordNum] != 0
    {
      ghost var start, n := handleIndex, wordNum;
      TopHandleIsLargest(handles.words[..], 0);
      forall h | start <= h < WORDSIZE * wordNum + WORDSIZE
        ensures !Member(v, h)
      {
        RestOfWordEmpty(v, wordNum, start, h);
      }
      wordNum := wordNum + 1;
      handleIndex := WORDSIZE * wordNum;
      while handleIndex < maxhandlep1 && handles.words[wordNum] == 0
        invariant handleIndex == WORDSIZE * wordNum && wordNum > n && handleIndex >= start
        invariant NoneBetween(v, start, handleIndex)
        decreases maxhandlep1 - handleIndex
      {
        forall h | handleIndex <= h < handleIndex + WORDSIZE
          ensures !Member(v, h)
        {
          ZeroWordEmpty(v, wordNum, h);
        }
        handleIndex := handleIndex + WORDSIZE;
        wordNum := wordNum + 1;
      }
    }
  }

  lemma NoneAbove(ws: seq<nat>)
    requires WordsOk(ws)
    ensures forall h :: h > TopHandle(ws) ==> !Member(ws, h)
  {
    forall h | h > TopHandle(ws)
      ensures !Member(ws, h)
    {
      TopHandleIsLargest(ws, h);
    }
  }

  // ---- dispatchIoSet ------------------------------------------------------------

  /** One turn of the loop: the handle, the set and what the iterator saw of it before, whether
      there was a handler to call back, and the handles its callback took out of the set. */
  datatype Turn = Turn(handle: int, before: seq<nat>, seen: seq<nat>, called: bool, cleared: seq<int>)

  /** `now` is `ws` without handle `h` and the handles `cleared`. */
  ghost predicate Without(ws: seq<nat>, h: int, cleared: seq<int>, now: seq<nat>) {
    forall g :: Member(now, g) <==> Member(ws, g) && g != h && g !in cleared
  }

  ghost predicate LeftAtOrAbove(ws: seq<nat>, h: int) {
    exists g :: g >= h && Member(ws, g)
  }

  /** What the iterator saw last, and the handle it last returned. */
  ghost function LastSeen(ws0: seq<nat>, turns: seq<Turn>): seq<nat> {
    if |turns| == 0 then ws0 else turns[|turns| - 1].seen
  }

  ghost function LastHandle(turns: seq<Turn>): int {
    if |turns| == 0 then INVALID_HANDLE else turns[|turns| - 1].handle
  }

  /** `h` is the handle next in line: the first one seen above the last. */
  ghost predicate NextInLine(ws0: seq<nat>, turns: seq<Turn>, h: int) {
    Ahead(LastSeen(ws0, turns), LastHandle(turns), h) && Member(LastSeen(ws0, turns), h)
  }

  /** After the turns `prev`, the turn `t` goes to the handle next in line while the set has a
      member at or above it, whether or not that handle is still in the set; the iterator then
      sees the handle's word as before and the other words anew. */
  ghost predicate GoesOn(ws0: seq<nat>, prev: seq<Turn>, t: Turn, now: seq<nat>) {
    && NextInLine(ws0, prev, t.handle) && LeftAtOrAbove(t.before, t.handle)
    && SeenFrom(LastSeen(ws0, prev), t.before, t.seen, t.handle / WORDSIZE)
    && (!t.called ==> t.cleared == []) && Without(t.before, t.handle, t.cleared, now)
  }

  /** The turns so far, from the set `ws0` to the set `now`. */
  ghost predicate Trace(ws0: seq<nat>, turns: seq<Turn>, now: seq<nat>) {
    if |turns| == 0 then now == ws0
    else
      var prev, t := turns[..|turns| - 1], turns[|turns| - 1];
      Trace(ws0, prev, t.before) && GoesOn(ws0, prev, t, now)
  }

  ghost predicate HadTurn(turns: seq<Turn>, h: int) {
    exists i :: 0 <= i < |turns| && turns[i].handle == h
  }

  ghost predicate TakenOut(turns: seq<Turn>, h: int) {
    exists i :: 0 <= i < |turns| && h in turns[i].cleared
  }

  /** What is left is what was there, without the handles that had a turn and those taken out;
      it is all seen, and all above the last handle. */
  lemma {:induction false} TraceLeaves(ws0: seq<nat>, turns: seq<Turn>, now: seq<nat>)
    requires Trace(ws0, turns, now)
    ensures forall h :: Member(now, h) <==> Member(ws0, h) && !HadTurn(turns, h) && !TakenOut(turns, h)
    ensures forall h :: Member(now, h) ==> Member(LastSeen(ws0, turns), h) && h > LastHandle(turns)
  {
    if |turns| > 0 {
      var n := |turns| - 1;
      var prev, t := turns[..n], turns[n];
      TraceLeaves(ws0, prev, t.before);
      forall h
        ensures HadTurn(turns, h) <==> HadTurn(prev, h) || h == t.handle
        ensures TakenOut(turns, h) <==> TakenOut(prev, h) || h in t.cleared
      {
        TurnsGrow(prev, t, h);
        assert turns == prev + [t];
      }
    }
  }

  lemma TurnsGrow(turns: seq<Turn>, t: Turn, h: int)
    ensures HadTurn(turns + [t], h) <==> HadTurn(turns, h) || h == t.handle
    ensures TakenOut(turns + [t], h) <==> TakenOut(turns, h) || h in t.cleared
  {
    var all := turns + [t];
    assert all[|turns|] == t;
    if i :| 0 <= i < |turns| && turns[i].handle == h {
      assert all[i].handle == h;
    }
    if i :| 0 <= i < |turns| && h in turns[i].cleared {
      assert h in all[i].cleared;
    }
  }

  lemma {:induction false} BelowLast(ws0: seq<nat>, turns: seq<Turn>, now: seq<nat>, i: nat)
    requires Trace(ws0, turns, now) && i < |turns|
    ensures forall h :: Member(LastSeen(ws0, turns), h) ==> Member(ws0, h)
    ensures Member(ws0, turns[i].handle) && 0 <= turns[i].handle <= LastHandle(turns)
    ensures i < |turns| - 1 ==> turns[i].handle < LastHandle(turns)
  {
    var n := |turns| - 1;
    var prev, t := turns[..n], turns[n];
    TraceLeaves(ws0, prev, t.before);
    if n > 0 {
      BelowLast(ws0, prev, t.before, if i < n then i else 0);
    }
  }

  /** Only handles that were in the set have turns, in ascending order, each once. */
  lemma {:induction false} TraceAscends(ws0: seq<nat>, turns: seq<Turn>, now: seq<nat>, i: nat, j: nat)
    requires Trace(ws0, turns, now) && i < |turns|
    ensures Member(ws0, turns[i].handle)
    ensures i < j < |turns| ==> turns[i].handle < turns[j].handle
    decreases |turns|
  {
    BelowLast(ws0, turns, now, i);
    if i < j < |turns| - 1 {
      TraceAscends(ws0, turns[..|turns| - 1], turns[|turns| - 1].before, i, j);
    }
  }

  /** When callbacks take nothing out, a loop that ends with the empty set has given a turn to
      exactly the members. */
  lemma QuietCallbacksCoverAll(ws0: seq<nat>, turns: seq<Turn>, now: seq<nat>)
    requires Trace(ws0, turns, now) && forall h :: !Member(now, h)
    requires forall i :: 0 <= i < |turns| ==> turns[i].cleared == []
    ensures forall h :: HadTurn(turns, h) <==> Member(ws0, h)
  {
    TraceLeaves(ws0, turns, now);
    forall h | HadTurn(turns, h)
      ensures Member(ws0, h)
    {
      var i :| 0 <= i < |turns| && turns[i].handle == h;
      TraceAscends(ws0, turns, now, i, 0);
    }
  }

  /** The turn after the one whose callback took `h` out. */
  lemma TakenOutOneTurn(ws0: seq<nat>, turns: seq<Turn>, now: seq<nat>, h: int)
    requires Trace(ws0, turns, now) && |turns| >= 2
    requires var p := turns[|turns| - 2]; Member(p.before, h) && h in p.cleared && h > p.handle
    ensures var t := turns[|turns| - 1];
            && t.handle <= h && !Member(now, h)
            && (t.handle < h ==> (Member(t.seen, h) <==> h / WORDSIZE == t.handle / WORDSIZE))
  {
    var n := |turns| - 1;
    var prev := turns[..n];
    assert prev[..n - 1] == turns[..n - 1];
    TraceLeaves(ws0, turns[..n - 1], prev[n - 1].before);
  }

  lemma TurnPersists(turns: seq<Turn>, n: nat, h: int)
    requires n <= |turns| && HadTurn(turns[..n], h)
    ensures HadTurn(turns, h)
  {
    var i :| 0 <= i < n && turns[..n][i].handle == h;
    assert turns[i].handle == h;
  }

  /** `h` is seen above `last`, in its word. */
  ghost predicate InReach(v: seq<nat>, last: int, h: int) {
    Member(v, h) && last < h && last / WORDSIZE == h / WORDSIZE
  }

  /** One more turn, with `h` out of the set: seen in the word of the last turn it is seen in the
      word of this one, or has it; unseen it stays unseen. */
  lemma TakenOutStep(ws0: seq<nat>, turns: seq<Turn>, now: seq<nat>, h: int)
    requires Trace(ws0, turns, now) && |turns| >= 2 && !Member(turns[|turns| - 1].before, h)
    ensures var p, t := turns[|turns| - 2], turns[|turns| - 1];
            && !Member(now, h)
            && (InReach(p.seen, p.handle, h) ==> t.handle == h || InReach(t.seen, t.handle, h))
            && (!Member(p.seen, h) ==> t.handle != h && !Member(t.seen, h))
  {
    var n := |turns| - 1;
    assert turns[..n][n - 1] == turns[n - 1];
    BelowLast(ws0, turns, now, n - 1);
  }

  /** A handle `h` that the callback of turn `k` took out, in the word of the next turn: it is in
      reach until it has a turn. */
  lemma {:induction false} TakenOutInReach(ws0: seq<nat>, turns: seq<Turn>, now: seq<nat>, k: nat, h: int)
    requires Trace(ws0, turns, now) && k + 1 < |turns|
    requires Member(turns[k].before, h) && h in turns[k].cleared && h > turns[k].handle
    requires h / WORDSIZE == turns[k + 1].handle / WORDSIZE
    ensures !Member(now, h) && (HadTurn(turns, h) || InReach(LastSeen(ws0, turns), LastHandle(turns), h))
    decreases |turns|
  {
    var n := |turns| - 1;
    if k + 1 == n {
      TakenOutOneTurn(ws0, turns, now, h);
    } else {
      TakenOutInReach(ws0, turns[..n], turns[n].before, k, h);
      TakenOutStep(ws0, turns, now, h);
      if HadTurn(turns[..n], h) {
        TurnPersists(turns, n, h);
      }
    }
    assert turns[n].handle == h ==> HadTurn(turns, h);
  }

  /** In another word: it is not seen any more. */
  lemma {:induction false} TakenOutUnseen(ws0: seq<nat>, turns: seq<Turn>, now: seq<nat>, k: nat, h: int)
    requires Trace(ws0, turns, now) && k + 1 < |turns|
    requires Member(turns[k].before, h) && h in turns[k].cleared && h > turns[k].handle
    requires h / WORDSIZE != turns[k + 1].handle / WORDSIZE
    ensures !Member(now, h) && !Member(LastSeen(ws0, turns), h)
    ensures forall i :: k < i < |turns| ==> turns[i].handle != h
    decreases |turns|
  {
    var n := |turns| - 1;
    if k + 1 == n {
      TakenOutOneTurn(ws0, turns, now, h);
    } else {
      TakenOutUnseen(ws0, turns[..n], turns[n].before, k, h);
      TakenOutStep(ws0, turns, now, h);
    }
  }

  /** A handle in line that a callback takes out of the set has a turn all the same, in a loop
      that gets that far, exactly when it shares a word with the handle of the next turn.  The
      turn is a callback only if a handler is still registered for the handle. */
  lemma TakenOutHasTurnIff(ws0: seq<nat>, turns: seq<Turn>, now: seq<nat>, k: nat, h: int)
    requires Trace(ws0, turns, now) && k + 1 < |turns| && LastHandle(turns) >= h
    requires Member(turns[k].before, h) && h in turns[k].cleared && h > turns[k].handle
    ensures HadTurn(turns, h) <==> h / WORDSIZE == turns[k + 1].handle / WORDSIZE
  {
    if h / WORDSIZE == turns[k + 1].handle / WORDSIZE {
      TakenOutInReach(ws0, turns, now, k, h);
    } else {
      TakenOutUnseen(ws0, turns, now, k, h);
      if i :| 0 <= i < |turns| && turns[i].handle == h {
        TraceAscends(ws0, turns, now, i, k);
      }
    }
  }

  /** Unless the limit stops it, the loop goes on until the set is empty. */
  lemma EndsEmpty(ws0: seq<nat>, turns: seq<Turn>, now: seq<nat>)
    requires Trace(ws0, turns, now) && forall h :: NextInLine(ws0, turns, h) ==> !LeftAtOrAbove(now, h)
    ensures forall h :: !Member(now, h)
  {
    TraceLeaves(ws0, turns, now);
    if g :| Member(now, g) {
      var h := FirstAbove(LastSeen(ws0, turns), LastHandle(turns), LastHandle(turns) + 1, g);
      assert NextInLine(ws0, turns, h) && LeftAtOrAbove(now, h);
    }
  }

  lemma {:induction false} FirstAbove(v: seq<nat>, h: int, lo: int, g: int) returns (index: int)
    requires h < lo <= g && NoneBetween(v, h + 1, lo) && Member(v, g)
    ensures index <= g && Ahead(v, h, index) && Member(v, index)
    decreases g - lo
  {
    if Member(v, lo) {
      index := lo;
    } else {
      index := FirstAbove(v, h, lo + 1, g);
    }
  }

  /** Between two turns: `handle` is next to be called back, `v` is what the iterator saw when it
      returned it, `view` and `index` are the iterator's now.  No handle means the end. */
  ghost predicate InLine(ws0: seq<nat>, turns: seq<Turn>, ws: seq<nat>, handle: int, v: seq<nat>, view: seq<nat>,
                         index: int) {
    if handle == INVALID_HANDLE then forall h :: NextInLine(ws0, turns, h) ==> !LeftAtOrAbove(ws, h)
    else
      && NextInLine(ws0, turns, handle) && LeftAtOrAbove(ws, handle)
      && SeenFrom(LastSeen(ws0, turns), ws, v, handle / WORDSIZE)
      && Ahead(v, handle, index) && (Member(view, index) <==> Member(v, index))
      && (Member(view, index) ==> SeenFrom(v, ws, view, index / WORDSIZE))
  }

  /** The callback and the clearing after it make a turn, and the iterator's handle is next. */
  lemma TurnTaken(ws0: seq<nat>, turns: seq<Turn>, t: Turn, view: seq<nat>, index: int, now: seq<nat>, view': seq<nat>)
    requires Trace(ws0, turns, t.before) && t.handle >= 0 && (!t.called ==> t.cleared == [])
    requires InLine(ws0, turns, t.before, t.handle, t.seen, view, index)
    requires Without(t.before, t.handle, t.cleared, now)
    requires Member(view', index) ==> SeenFrom(view, now, view', index / WORDSIZE)
    ensures Trace(ws0, turns + [t], now)
    ensures Member(view', index) ==>
              NextInLine(ws0, turns + [t], index) && SeenFrom(t.seen, now, view', index / WORDSIZE)
    ensures (forall h :: h >= index ==> !Member(now, h)) ==>
              forall h :: NextInLine(ws0, turns + [t], h) ==> !LeftAtOrAbove(now, h)
  {
    var all := turns + [t];
    assert all[..|turns|] == turns;
  }

  /** The iterator's view after the set has changed from `ws` to `ws'`. */
  lemma ViewAfter(ws: seq<nat>, ws': seq<nat>, n: int, loaded: nat, index: int, val: nat)
    requires |ws| == |ws'| && Standing(Seen(ws', n, loaded), index, n, val)
    ensures Member(Seen(ws', n, loaded), index) ==>
            SeenFrom(Seen(ws, n, loaded), ws', Seen(ws', n, loaded), index / WORDSIZE)
  {
    if Member(Seen(ws', n, loaded), index) {
      forall h
        ensures Member(Seen(ws', n, loaded), h) <==> if h / WORDSIZE == n then Member(Seen(ws, n, loaded), h)
                else Member(ws', h)
      {
        SeenMember(ws, n, loaded, h);
        SeenMember(ws', n, loaded, h);
      }
    }
  }

  /** Handles the set may be asked to clear. */
  predicate InRange(hs: seq<int>) {
    forall i :: 0 <= i < |hs| ==> hs[i] == INVALID_HANDLE || 0 <= hs[i] < MAXSIZE
  }

  /** A callback that takes the handles `cleared` out of the set under the iterator. */
  method ClearAll(handles: HandleSet, iter: HandleSetIterator, cleared: seq<int>)
    requires iter.handles == handles && iter.Ready() && InRange(cleared)
    modifies handles`size, handles`maxHandle, handles.words
    ensures iter.Ready()
    ensures forall h :: Member(handles.words[..], h) <==> Member(old(handles.words[..]), h) && h !in cleared
  {
    for i := 0 to |cleared|
      invariant iter.Ready()
      invariant forall h :: Member(handles.words[..], h) <==> Member(old(handles.words[..]), h) && h !in cleared[..i]
    {
      ClearOne(handles, iter, cleared[i]);
      assert cleared[..i + 1] == cleared[..i] + [cleared[i]];
    }
    assert cleared[..|cleared|] == cleared;
  }

  method ClearOne(handles: HandleSet, iter: HandleSetIterator, h: int)
    requires iter.handles == handles && iter.Ready() && (h == INVALID_HANDLE || 0 <= h < MAXSIZE)
    modifies handles`size, handles`maxHandle, handles.words
    ensures iter.Ready()
    ensures forall g :: Member(handles.words[..], g) <==> Member(old(handles.words[..]), g) && g != h
  {
    if h != INVALID_HANDLE {
      StandingAfterClear(handles.words[..], iter.handleIndex, iter.wordNum, iter.loaded, iter.wordVal, h);
    }
    handles.ClrBit(h);
  }

  /** What the k-th turn takes out beside its handle. */
  function Call(called: bool, script: seq<seq<int>>, k: nat): seq<int> {
    if called && k < |script| then script[k] else []
  }

  ghost predicate FollowsScript(turns: seq<Turn>, registered: (nat, int) -> bool, script: seq<seq<int>>) {
    forall k :: 0 <= k < |turns| ==>
      && turns[k].called == registered(k, turns[k].handle)
      && turns[k].cleared == Call(turns[k].called, script, k)
  }

  lemma FollowsOn(turns: seq<Turn>, t: Turn, registered: (nat, int) -> bool, script: seq<seq<int>>)
    requires FollowsScript(turns, registered, script)
    requires t.called == registered(|turns|, t.handle) && t.cleared == Call(t.called, script, |turns|)
    ensures FollowsScript(turns + [t], registered, script)
  {
  }

  lemma {:induction false} FirstBefore(ws0: seq<nat>, turns: seq<Turn>, now: seq<nat>)
    requires Trace(ws0, turns, now) && |turns| > 0
    ensures turns[0].before == ws0
  {
    if |turns| > 1 {
      FirstBefore(ws0, turns[..|turns| - 1], turns[|turns| - 1].before);
    }
  }

  lemma TurnOf(turns: seq<Turn>, h: int) returns (i: nat)
    requires HadTurn(turns, h)
    ensures i < |turns| && turns[i].handle == h
  {
    i :| 0 <= i < |turns| && turns[i].handle == h;
  }

  /** The turns of a loop over three handles whose first callback takes the middle one out. */
  ghost predicate MiddleTakenOut(ws0: seq<nat>, turns: seq<Turn>, now: seq<nat>, a: int, b: int, c: int) {
    && Trace(ws0, turns, now) && (|turns| < 10 ==> forall h :: !Member(now, h))
    && (forall h :: Member(ws0, h) <==> h == a || h == b || h == c)
    && (forall i :: 0 <= i < |turns| ==> turns[i].cleared == if i == 0 then [b] else [])
  }

  lemma AtMostThree(ws0: seq<nat>, turns: seq<Turn>, now: seq<nat>, a: int, b: int, c: int)
    requires MiddleTakenOut(ws0, turns, now, a, b, c)
    ensures |turns| <= 3
  {
    if |turns| > 3 {
      TraceAscends(ws0, turns, now, 0, 1);
      TraceAscends(ws0, turns, now, 1, 2);
      TraceAscends(ws0, turns, now, 2, 3);
      TraceAscends(ws0, turns, now, 3, 0);
      assert false;
    }
  }

  lemma OthersHaveTurns(ws0: seq<nat>, turns: seq<Turn>, now: seq<nat>, a: int, b: int, c: int)
    requires MiddleTakenOut(ws0, turns, now, a, b, c) && a < b < c
    ensures HadTurn(turns, a) && HadTurn(turns, c)
  {
    AtMostThree(ws0, turns, now, a, b, c);
    TraceLeaves(ws0, turns, now);
    assert !TakenOut(turns, a) && !TakenOut(turns, c);
  }

  /** In one word, the middle one has its turn all the same. */
  lemma MiddleIsNotSkipped(ws0: seq<nat>, turns: seq<Turn>, now: seq<nat>, a: int, b: int, c: int)
    requires MiddleTakenOut(ws0, turns, now, a, b, c) && a < b < c && b / WORDSIZE == c / WORDSIZE
    ensures |turns| > 1 && turns[0].handle == a && turns[1].handle == b
  {
    OthersHaveTurns(ws0, turns, now, a, b, c);
    var i := TurnOf(turns, a);
    var l := TurnOf(turns, c);
    TraceAscends(ws0, turns, now, 0, i);
    TraceAscends(ws0, turns, now, 0, 1);
    TraceAscends(ws0, turns, now, 1, 0);
    BelowLast(ws0, turns, now, l);
    FirstBefore(ws0, turns, now);
    TakenOutHasTurnIff(ws0, turns, now, 0, b);
    var j := TurnOf(turns, b);
    TraceAscends(ws0, turns, now, 1, j);
  }

  /** A new iterator, and the first handle it returns. */
  method FirstInLine(handles: HandleSet) returns (iter: HandleSetIterator, handle: int)
    requires handles.Valid()
    ensures fresh(iter) && iter.handles == handles && iter.Ready() && handle >= INVALID_HANDLE
    ensures InLine(handles.words[..], [], handles.words[..], handle, handles.words[..], iter.View(), iter.handleIndex)
  {
    iter := new HandleSetIterator(handles);
    handle := iter.Next();
  }

  /** `SelectReactor::dispatchIoSet`: calls the handlers of the members back, at most as many as
      are known to be active, and clears each from the set it iterates over.  Whether a handler
      is registered for handle h at turn k is `registered(k, h)`; its callback takes the handles
      `script[k]` out of the set, by removing handlers. */
  method DispatchIoSet(numActive: int, numDispatched0: int, dispatchMask: HandleSet,
                       registered: (nat, int) -> bool, script: seq<seq<int>>)
    returns (numDispatched: int, ghost turns: seq<Turn>)
    requires dispatchMask.Valid() && forall k :: 0 <= k < |script| ==> InRange(script[k])
    modifies dispatchMask, dispatchMask.words
    ensures dispatchMask.Valid() && dispatchMask.words == old(dispatchMask.words)
    ensures numDispatched == numDispatched0 + |turns| && (numDispatched <= numActive || turns == [])
    ensures Trace(old(dispatchMask.words[..]), turns, dispatchMask.words[..])
    ensures FollowsScript(turns, registered, script)
    ensures numDispatched < numActive ==> forall h :: !Member(dispatchMask.words[..], h)
  {
    ghost var ws0 := dispatchMask.words[..];
    numDispatched, turns := numDispatched0, [];
    ghost var v := ws0;
    var iter, handle := FirstInLine(dispatchMask);
    var k := 0;
    while handle != INVALID_HANDLE && numDispatched < numActive
      invariant iter.handles == dispatchMask && fresh(iter) && dispatchMask.words == old(dispatchMask.words)
      invariant iter.Ready() && k == |turns| && numDispatched == numDispatched0 + k
                && (numDispatched <= numActive || turns == [])
      invariant Trace(ws0, turns, dispatchMask.words[..])
      invariant handle >= INVALID_HANDLE
                && InLine(ws0, turns, dispatchMask.words[..], handle, v, iter.View(), iter.handleIndex)
      invariant FollowsScript(turns, registered, script)
      decreases numActive - numDispatched
    {
      numDispatched := numDispatched + 1;
      handle, v, turns := ScriptedTurn(dispatchMask, iter, handle, registered, script, k, v, ws0, turns);
      k := k + 1;
    }
    if numDispatched < numActive {
      EndsEmpty(ws0, turns, dispatchMask.words[..]);
    }
  }

  /** A callback takes handle 1 of {0, 1, 2} out of the set, and 1 is called back next all the
      same, its handler being still registered. */
  method TakenOutIsCalledBack() returns (ghost turns: seq<Turn>)
    ensures |turns| > 1 && turns[0].handle == 0 && turns[0].cleared == [1]
    ensures turns[1].handle == 1 && turns[1].called
  {
    var hs := new HandleSet();
    hs.SetBit(0);
    hs.SetBit(1);
    hs.SetBit(2);
    ghost var ws0 := hs.words[..];
    var n;
    n, turns := DispatchIoSet(10, 0, hs, (k, h) => true, [[1]]);
    MiddleIsNotSkipped(ws0, turns, hs.words[..], 0, 1, 2);
  }

  /** The k-th turn of the loop, with the handler lookup. */
  method ScriptedTurn(handles: HandleSet, iter: HandleSetIterator, handle: int, registered: (nat, int) -> bool,
                      script: seq<seq<int>>, k: nat, ghost v: seq<nat>, ghost ws0: seq<nat>, ghost turns: seq<Turn>)
    returns (handle': int, ghost v': seq<nat>, ghost turns': seq<Turn>)
    requires iter.handles == handles && iter.Ready() && handle >= 0 && k == |turns|
    requires forall i :: 0 <= i < |script| ==> InRange(script[i])
    requires Trace(ws0, turns, handles.words[..]) && FollowsScript(turns, registered, script)
    requires InLine(ws0, turns, handles.words[..], handle, v, iter.View(), iter.handleIndex)
    modifies handles`size, handles`maxHandle, handles.words, iter
    ensures iter.Ready() && handle' >= INVALID_HANDLE && |turns'| == |turns| + 1
    ensures Trace(ws0, turns', handles.words[..]) && FollowsScript(turns', registered, script)
    ensures InLine(ws0, turns', handles.words[..], handle', v', iter.View(), iter.handleIndex)
  {
    var called := registered(k, handle);
    var cleared := Call(called, script, k);
    FollowsOn(turns, Turn(handle, handles.words[..], v, called, cleared), registered, script);
    handle', v', turns' := TakeTurn(handles, iter, handle, called, cleared, v, ws0, turns);
  }

  /** The body of the loop, and the next call of the iterator. */
  method TakeTurn(handles: HandleSet, iter: HandleSetIterator, handle: int, ghost called: bool, cleared: seq<int>,
                  ghost v: seq<nat>, ghost ws0: seq<nat>, ghost turns: seq<Turn>)
    returns (handle': int, ghost v': seq<nat>, ghost turns': seq<Turn>)
    requires iter.handles == handles && iter.Ready() && InRange(cleared) && handle >= 0 && (!called ==> cleared == [])
    requires Trace(ws0, turns, handles.words[..])
    requires InLine(ws0, turns, handles.words[..], handle, v, iter.View(), iter.handleIndex)
    modifies handles`size, handles`maxHandle, handles.words, iter
    ensures iter.Ready() && handle' >= INVALID_HANDLE
    ensures turns' == turns + [Turn(handle, old(handles.words[..]), v, called, cleared)]
            && Trace(ws0, turns', handles.words[..])
    ensures InLine(ws0, turns', handles.words[..], handle', v', iter.View(), iter.handleIndex)
  {
    ghost var ws, view, index := handles.words[..], iter.View(), iter.handleIndex;
    ghost var t := Turn(handle, ws, v, called, cleared);
    ClearAll(handles, iter, cleared);
    ClearOne(handles, iter, handle);
    ghost var now := handles.words[..];
    ViewAfter(ws, now, iter.wordNum, iter.loaded, index, iter.wordVal);
    TurnTaken(ws0, turns, t, view, index, now, iter.View());
    turns', v' := turns + [t], iter.View();
    handle' := iter.Next();
  }
}
