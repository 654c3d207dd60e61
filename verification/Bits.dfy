/**
  Words of bits as natural numbers, bit 0 least significant: the operations that
  icm-1.1/icc/HandleSet.cpp performs on the words of an `fd_set`.
 */
module Bits {
  predicate Bit(w: nat, k: nat)
    decreases k
  {
    if k == 0 then w % 2 == 1 else Bit(w / 2, k - 1)
  }

  /** The number of bits set. */
  function PopCount(w: nat): nat {
    if w == 0 then 0 else w % 2 + PopCount(w / 2)
  }

  /** All bits at or above `n` are clear. */
  predicate Fits(w: nat, n: nat)
    decreases n
  {
    if n == 0 then w == 0 else Fits(w / 2, n - 1)
  }

  /** `a & b`. */
  function And(a: nat, b: nat): nat {
    if a == 0 || b == 0 then 0 else 2 * And(a / 2, b / 2) + if a % 2 == 1 && b % 2 == 1 then 1 else 0
  }

  /** `w >> k`. */
  function Shift(w: nat, k: nat): nat
    decreases k
  {
    if k == 0 then w else Shift(w / 2, k - 1)
  }

  /** `w | (1 << k)`, as FD_SET. */
  function WithBit(w: nat, k: nat): nat
    decreases k
  {
    if k == 0 then w + 1 - w % 2 else 2 * WithBit(w / 2, k - 1) + w % 2
  }

  /** `w & ~(1 << k)`, as FD_CLR. */
  function WithoutBit(w: nat, k: nat): nat
    decreases k
  {
    if k == 0 then w - w % 2 else 2 * WithoutBit(w / 2, k - 1) + w % 2
  }

  lemma {:induction false} WithBitAt(w: nat, k: nat, j: nat)
    ensures Bit(WithBit(w, k), j) <==> j == k || Bit(w, j)
    decreases k
  {
    var v := WithBit(w, k);
    if k == 0 {
      assert v / 2 == w / 2 && v % 2 == 1;
    } else {
      assert v / 2 == WithBit(w / 2, k - 1) && v % 2 == w % 2;
      if j > 0 {
        WithBitAt(w / 2, k - 1, j - 1);
      }
    }
  }

  lemma {:induction false} WithoutBitAt(w: nat, k: nat, j: nat)
    ensures Bit(WithoutBit(w, k), j) <==> j != k && Bit(w, j)
    decreases k
  {
    var v := WithoutBit(w, k);
    if k == 0 {
      assert v / 2 == w / 2 && v % 2 == 0;
    } else {
      assert v / 2 == WithoutBit(w / 2, k - 1) && v % 2 == w % 2;
      if j > 0 {
        WithoutBitAt(w / 2, k - 1, j - 1);
      }
    }
  }

  lemma {:induction false} WithBitCount(w: nat, k: nat)
    requires !Bit(w, k)
    ensures PopCount(WithBit(w, k)) == PopCount(w) + 1
    decreases k
  {
    var v := WithBit(w, k);
    if k == 0 {
      assert v / 2 == w / 2 && v % 2 == 1;
    } else {
      assert v / 2 == WithBit(w / 2, k - 1) && v % 2 == w % 2;
      WithBitCount(w / 2, k - 1);
    }
  }

  lemma {:induction false} WithoutBitCount(w: nat, k: nat)
    requires Bit(w, k)
    ensures PopCount(WithoutBit(w, k)) == PopCount(w) - 1
    decreases k
  {
    var v := WithoutBit(w, k);
    if k == 0 {
      assert v / 2 == w / 2 && v % 2 == 0;
    } else {
      assert v / 2 == WithoutBit(w / 2, k - 1) && v % 2 == w % 2;
      WithoutBitCount(w / 2, k - 1);
    }
  }

  lemma {:induction false} ZeroHasNoBits(k: nat)
    ensures !Bit(0, k)
    decreases k
  {
    if k > 0 {
      ZeroHasNoBits(k - 1);
    }
  }

  /** A word is zero exactly when it has no bits, and exactly when its count is zero. */
  lemma {:induction false} NonzeroHasBit(w: nat) returns (k: nat)
    requires w > 0
    ensures Bit(w, k) && PopCount(w) > 0
  {
    if w % 2 == 1 {
      k := 0;
    } else {
      k := NonzeroHasBit(w / 2);
      k := k + 1;
    }
  }

  lemma {:induction false} ShiftBit(w: nat, k: nat, j: nat)
    ensures Bit(Shift(w, k), j) <==> Bit(w, k + j)
    decreases k
  {
    if k > 0 {
      ShiftBit(w / 2, k - 1, j);
    }
  }

  lemma {:induction false} ShiftOnce(w: nat, k: nat)
    ensures Shift(w, k + 1) == Shift(w, k) / 2
    decreases k
  {
    if k > 0 {
      ShiftOnce(w / 2, k - 1);
    }
  }

  /** The index of the highest bit of a nonzero word. */
  function TopBit(w: nat): nat {
    if w <= 1 then 0 else 1 + TopBit(w / 2)
  }

  lemma {:induction false} TopBitIsHighest(w: nat, k: nat)
    requires w > 0
    ensures Bit(w, TopBit(w))
    ensures k > TopBit(w) ==> !Bit(w, k)
    decreases w
  {
    if w == 1 {
      if k > 0 {
        ZeroHasNoBits(k - 1);
      }
    } else {
      TopBitIsHighest(w / 2, if k == 0 then 0 else k - 1);
    }
  }

  lemma {:induction false} AndSelf(a: nat)
    ensures And(a, a) == a
  {
    if a > 0 {
      AndSelf(a / 2);
    }
  }

  lemma PopCountDouble(r: nat)
    ensures PopCount(2 * r) == PopCount(r) && PopCount(2 * r + 1) == PopCount(r) + 1
  {
    assert (2 * r) / 2 == r && (2 * r + 1) / 2 == r;
  }

  lemma AndDouble(a: nat, b: nat)
    ensures And(2 * a, 2 * b + 1) == And(2 * a + 1, 2 * b) == 2 * And(a, b)
  {
    assert (2 * a) / 2 == a == (2 * a + 1) / 2 && (2 * b) / 2 == b == (2 * b + 1) / 2;
    assert (2 * a) % 2 == 0 == (2 * b) % 2;
  }

  /** `r` is `m` without one bit. */
  ghost predicate OneLess(r: nat, m: nat) {
    r < m && PopCount(r) == PopCount(m) - 1
  }

  lemma KernighanOdd(h: nat)
    ensures OneLess(And(2 * h + 1, 2 * h), 2 * h + 1)
  {
    AndDouble(h, h);
    AndSelf(h);
    PopCountDouble(h);
  }

  lemma KernighanEven(h: nat, r: nat)
    requires h > 0 && r == And(h, h - 1) && OneLess(r, h)
    ensures OneLess(And(2 * h, 2 * (h - 1) + 1), 2 * h)
  {
    AndDouble(h, h - 1);
    PopCountDouble(h);
    PopCountDouble(r);
  }

  /** The step of Kernighan's count: `m & (m - 1)` drops exactly the lowest bit set. */
  lemma {:induction false} KernighanStep(m: nat)
    requires m > 0
    ensures OneLess(And(m, m - 1), m)
  {
    var h := m / 2;
    if m % 2 == 1 {
      KernighanOdd(h);
      assert m == 2 * h + 1;
    } else {
      KernighanStep(h);
      KernighanEven(h, And(h, h - 1));
      assert m == 2 * h && m - 1 == 2 * (h - 1) + 1;
    }
  }

  /** `countBits`, the branch that clears the lowest bit until none is left. */
  method CountBits(n: nat) returns (rval: nat)
    ensures rval == PopCount(n)
  {
    rval := 0;
    var m := n;
    while m != 0
      invariant rval + PopCount(m) == PopCount(n)
    {
      KernighanStep(m);
      m := And(m, m - 1);
      rval := rval + 1;
    }
  }

  // ---- The table branch of `countBits` ---------------------------------------

  /** `n & ((1 << k) - 1)`. */
  function Low(n: nat, k: nat): nat
    decreases k
  {
    if k == 0 then 0 else 2 * Low(n / 2, k - 1) + n % 2
  }

  /** Counting the bits below `k` one at a time. */
  lemma {:induction false} LowCountStep(n: nat, k: nat)
    ensures PopCount(Low(n, k + 1)) == PopCount(Low(n, k)) + if Bit(n, k) then 1 else 0
    decreases k
  {
    var l, l' := Low(n, k), Low(n, k + 1);
    assert l' / 2 == Low(n / 2, k) && l' % 2 == n % 2;
    if k > 0 {
      assert l / 2 == Low(n / 2, k - 1) && l % 2 == n % 2;
      LowCountStep(n / 2, k - 1);
    }
  }

  /** The table `nbits`, sixteen entries to a row. */
  const NBITS: seq<seq<nat>> := [
    [0, 1, 1, 2, 1, 2, 2, 3, 1, 2, 2, 3, 2, 3, 3, 4],
    [1, 2, 2, 3, 2, 3, 3, 4, 2, 3, 3, 4, 3, 4, 4, 5],
    [1, 2, 2, 3, 2, 3, 3, 4, 2, 3, 3, 4, 3, 4, 4, 5],
    [2, 3, 3, 4, 3, 4, 4, 5, 3, 4, 4, 5, 4, 5, 5, 6],
    [1, 2, 2, 3, 2, 3, 3, 4, 2, 3, 3, 4, 3, 4, 4, 5],
    [2, 3, 3, 4, 3, 4, 4, 5, 3, 4, 4, 5, 4, 5, 5, 6],
    [2, 3, 3, 4, 3, 4, 4, 5, 3, 4, 4, 5, 4, 5, 5, 6],
    [3, 4, 4, 5, 4, 5, 5, 6, 4, 5, 5, 6, 5, 6, 6, 7],
    [1, 2, 2, 3, 2, 3, 3, 4, 2, 3, 3, 4, 3, 4, 4, 5],
    [2, 3, 3, 4, 3, 4, 4, 5, 3, 4, 4, 5, 4, 5, 5, 6],
    [2, 3, 3, 4, 3, 4, 4, 5, 3, 4, 4, 5, 4, 5, 5, 6],
    [3, 4, 4, 5, 4, 5, 5, 6, 4, 5, 5, 6, 5, 6, 6, 7],
    [2, 3, 3, 4, 3, 4, 4, 5, 3, 4, 4, 5, 4, 5, 5, 6],
    [3, 4, 4, 5, 4, 5, 5, 6, 4, 5, 5, 6, 5, 6, 6, 7],
    [3, 4, 4, 5, 4, 5, 5, 6, 4, 5, 5, 6, 5, 6, 6, 7],
    [4, 5, 5, 6, 5, 6, 6, 7, 5, 6, 6, 7, 6, 7, 7, 8]
  ]

  /** The entry for a byte. */
  function TableEntry(b: nat): nat {
    if b < 256 then (assert b / 16 < 16 && |NBITS[b / 16]| == 16; NBITS[b / 16][b % 16]) else 0
  }

  /** `countBits`, the branch that adds the table entries of four bytes. */
  function TableCount(n: nat): nat {
    TableEntry(Low(n, 8)) + TableEntry(Low(Shift(n, 8), 8)) + TableEntry(Low(Shift(n, 16), 8))
        + TableEntry(Low(Shift(n, 24), 8))
  }

  lemma {:induction false} CountSplits(n: nat, k: nat)
    ensures PopCount(n) == PopCount(Low(n, k)) + PopCount(Shift(n, k))
    decreases k
  {
    if k > 0 {
      CountSplits(n / 2, k - 1);
      var l := Low(n, k);
      assert l / 2 == Low(n / 2, k - 1) && l % 2 == n % 2;
    }
  }

  lemma {:induction false} ShiftAdds(n: nat, j: nat, k: nat)
    ensures Shift(Shift(n, j), k) == Shift(n, j + k)
    decreases j
  {
    if j > 0 {
      ShiftAdds(n / 2, j - 1, k);
    }
  }

  lemma LowOfNibble(b: nat)
    requires b < 256
    ensures Low(b, 4) == b % 16 && Shift(b, 4) == b / 16
  {
    var b1 := b / 2;
    var b2 := b1 / 2;
    var b3 := b2 / 2;
    assert Low(b3, 1) == b3 % 2;
    assert Low(b2, 2) == 2 * (b3 % 2) + b2 % 2;
    assert Low(b1, 3) == 2 * Low(b2, 2) + b1 % 2;
  }

  lemma NibbleCounts(c: nat)
    requires c < 16
    ensures PopCount(c) == NBITS[0][c]
  {
  }

  lemma RowIsShifted(r: nat, c: nat)
    requires r < 16 && c < 16
    ensures |NBITS[r]| == 16 && NBITS[r][c] == NBITS[0][r] + NBITS[0][c]
  {
  }

  lemma TableEntryIsCount(b: nat)
    requires b < 256
    ensures TableEntry(b) == PopCount(b)
  {
    LowOfNibble(b);
    CountSplits(b, 4);
    NibbleCounts(b % 16);
    NibbleCounts(b / 16);
    RowIsShifted(b / 16, b % 16);
  }

  lemma LowByte(n: nat)
    ensures Low(n, 8) < 256
  {
    assert Low(n, 8) == 2 * Low(n / 2, 7) + n % 2;
    LowBound(n, 8);
  }

  lemma {:induction false} LowBound(n: nat, k: nat)
    ensures Fits(Low(n, k), k)
    decreases k
  {
    if k > 0 {
      LowBound(n / 2, k - 1);
      assert Low(n, k) / 2 == Low(n / 2, k - 1);
    }
  }

  lemma ByteEntry(n: nat)
    ensures TableEntry(Low(n, 8)) + PopCount(Shift(n, 8)) == PopCount(n)
  {
    LowByte(n);
    TableEntryIsCount(Low(n, 8));
    CountSplits(n, 8);
  }

  /** The two branches of `countBits` agree exactly on words of 32 bits: the table branch
      misses every bit from the 32nd on. */
  lemma TableAgreesOn32Bits(n: nat)
    ensures TableCount(n) + PopCount(Shift(n, 32)) == PopCount(n)
    ensures TableCount(n) == PopCount(n) <==> Shift(n, 32) == 0
  {
    ByteEntry(n);
    ByteEntry(Shift(n, 8));
    ByteEntry(Shift(n, 16));
    ByteEntry(Shift(n, 24));
    ShiftAdds(n, 8, 8);
    ShiftAdds(n, 16, 8);
    ShiftAdds(n, 24, 8);
    if Shift(n, 32) > 0 {
      var k := NonzeroHasBit(Shift(n, 32));
    }
  }
}
