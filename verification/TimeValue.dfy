/**
  Seconds-and-microseconds time values (icm-1.1/icc/TimeValue.cpp).

  The C++ class wraps one `timeval`.  Here `TimeVal` is that plain record, `Time`
  is a record in the form `normalize` leaves behind, and `TimeValue` is the mutable
  wrapper whose methods update the record in place.  The meaning of a record is its
  total number of microseconds.
 */
module TimeValues {
  const ONE_SECOND_IN_USECS: int := 1_000_000

  datatype TimeVal = TimeVal(sec: int, usec: int)

  function Total(t: TimeVal): int {
    t.sec * ONE_SECOND_IN_USECS + t.usec
  }

  /** The form produced by `normalize`: less than a second of microseconds, and
      seconds and microseconds never of opposite sign. */
  predicate Canonical(t: TimeVal) {
    && -ONE_SECOND_IN_USECS < t.usec < ONE_SECOND_IN_USECS
    && (t.sec >= 1 ==> t.usec >= 0)
    && (t.sec < 0 ==> t.usec <= 0)
  }

  type Time = t: TimeVal | Canonical(t) witness TimeVal(0, 0)

  const ZERO: Time := TimeVal(0, 0)

  /** The canonical record of a number of microseconds, by truncating division. */
  function OfTotal(n: int): (t: Time)
    ensures Total(t) == n
  {
    if n >= 0 then TimeVal(n / ONE_SECOND_IN_USECS, n % ONE_SECOND_IN_USECS)
    else TimeVal(-(-n / ONE_SECOND_IN_USECS), -(-n % ONE_SECOND_IN_USECS))
  }

  /** A total has one canonical record, so `Total` and `OfTotal` are inverse. */
  lemma CanonicalIsUnique(t: TimeVal)
    requires Canonical(t)
    ensures t == OfTotal(Total(t))
  {
    var u := OfTotal(Total(t));
    assert (t.sec - u.sec) * ONE_SECOND_IN_USECS == u.usec - t.usec;
  }

  // The comparison operators, lexicographic on (sec, usec).

  predicate Greater(a: TimeVal, b: TimeVal) {
    a.sec > b.sec || (a.sec == b.sec && a.usec > b.usec)
  }

  predicate GreaterEq(a: TimeVal, b: TimeVal) {
    a.sec > b.sec || (a.sec == b.sec && a.usec >= b.usec)
  }

  predicate Less(a: TimeVal, b: TimeVal) {
    Greater(b, a)
  }

  predicate LessEq(a: TimeVal, b: TimeVal) {
    GreaterEq(b, a)
  }

  /** On canonical values the lexicographic operators are the order of the totals. */
  lemma ComparisonsAreOrderOfTotals(a: Time, b: Time)
    ensures Greater(a, b) <==> Total(a) > Total(b)
    ensures GreaterEq(a, b) <==> Total(a) >= Total(b)
    ensures Less(a, b) <==> Total(a) < Total(b)
    ensures LessEq(a, b) <==> Total(a) <= Total(b)
    ensures a == b <==> Total(a) == Total(b)
  {
    if Total(a) == Total(b) {
      CanonicalIsUnique(a);
      CanonicalIsUnique(b);
    }
  }

  /** Without normalisation the operators can disagree with the totals. */
  lemma RawComparisonCanBeWrong()
    ensures var a, b := TimeVal(1, 0), TimeVal(0, 2_000_000);
            Greater(a, b) && Total(a) < Total(b)
  {
  }

  ghost predicate ComparesRight(a: TimeVal, b: TimeVal) {
    (Greater(a, b) <==> Total(a) > Total(b)) && (Less(a, b) <==> Total(a) < Total(b))
  }

  /** A raw record compares as its total does, with every canonical value, exactly when it is
      canonical itself; the raw setters, which do not normalise, can leave that. */
  lemma RawComparisonRightIff(a: TimeVal)
    ensures Canonical(a) <==> forall b: Time :: ComparesRight(a, b)
  {
    if Canonical(a) {
      forall b: Time
        ensures ComparesRight(a, b)
      {
        ComparisonsAreOrderOfTotals(a, b);
      }
    } else {
      var b := OfTotal(Total(a));
      assert a != b && !ComparesRight(a, b);
    }
  }

  class TimeValue {
    var tv: TimeVal

    constructor (sec: int, usec: int)
      ensures tv == OfTotal(sec * ONE_SECOND_IN_USECS + usec)
    {
      tv := TimeVal(sec, usec);
      new;
      Normalize();
    }

    method Set(sec: int, usec: int)
      modifies this
      ensures tv == OfTotal(sec * ONE_SECOND_IN_USECS + usec)
    {
      tv := TimeVal(sec, usec);
      Normalize();
    }

    method Normalize()
      modifies this
      ensures tv == OfTotal(old(Total(tv)))
      ensures -ONE_SECOND_IN_USECS < tv.usec < ONE_SECOND_IN_USECS
      ensures if old(Total(tv)) >= 0 then tv.sec >= 0 && tv.usec >= 0 else tv.sec <= 0 && tv.usec <= 0
    {
      if tv.usec >= ONE_SECOND_IN_USECS {
        while tv.usec >= ONE_SECOND_IN_USECS
          invariant Total(tv) == old(Total(tv)) && tv.usec >= 0
          decreases tv.usec
        {
          tv := TimeVal(tv.sec + 1, tv.usec - ONE_SECOND_IN_USECS);
        }
      } else if tv.usec <= -ONE_SECOND_IN_USECS {
        while tv.usec <= -ONE_SECOND_IN_USECS
          invariant Total(tv) == old(Total(tv)) && tv.usec <= 0
          decreases -tv.usec
        {
          tv := TimeVal(tv.sec - 1, tv.usec + ONE_SECOND_IN_USECS);
        }
      }
      if tv.sec >= 1 && tv.usec < 0 {
        tv := TimeVal(tv.sec - 1, tv.usec + ONE_SECOND_IN_USECS);
      } else if tv.sec < 0 && tv.usec > 0 {
        tv := TimeVal(tv.sec + 1, tv.usec - ONE_SECOND_IN_USECS);
      }
      CanonicalIsUnique(tv);
    }

    method AddAssign(t: TimeVal)
      modifies this
      ensures tv == OfTotal(old(Total(tv)) + Total(t))
    {
      tv := TimeVal(tv.sec + t.sec, tv.usec + t.usec);
      Normalize();
    }

    method SubAssign(t: TimeVal)
      modifies this
      ensures tv == OfTotal(old(Total(tv)) - Total(t))
    {
      tv := TimeVal(tv.sec - t.sec, tv.usec - t.usec);
      Normalize();
    }
  }

  // The binary operators copy the first operand and update the copy.

  method Plus(a: TimeVal, b: TimeVal) returns (sum: Time)
    ensures Total(sum) == Total(a) + Total(b)
  {
    var t := new TimeValue(a.sec, a.usec);
    t.AddAssign(b);
    sum := t.tv;
  }

  method Minus(a: TimeVal, b: TimeVal) returns (delta: Time)
    ensures Total(delta) == Total(a) - Total(b)
  {
    var t := new TimeValue(a.sec, a.usec);
    t.SubAssign(b);
    delta := t.tv;
  }
}
