/** Ranges of bitmaps and their subdivision (dht/bits/range.go). */
module Ranges {
  import opened Bits

  datatype Range = Range(start: Bitmap, end: Bitmap) {
    function Lo(): nat { Value(start) }

    function Hi(): nat { Value(end) }

    /** `Contains`, both ends inclusive. */
    predicate Contains(b: Bitmap) { Cmp(start, b) <= 0 && Cmp(end, b) >= 0 }

    /** The same on integers. */
    predicate Covers(b: Bitmap) { Lo() <= Value(b) <= Hi() }
  }

  lemma ContainsIsCovers(r: Range, b: Bitmap)
    ensures r.Contains(b) <==> r.Covers(b)
  {
    CmpIsValueOrder(r.start, b);
    CmpIsValueOrder(r.end, b);
  }

  function MaxRange(): (r: Range)
    ensures r.Lo() == 0 && r.Hi() == Modulus() - 1
  {
    Range(Zero(), MaxP())
  }

  // ---------------------------------------------------------------------------
  // The arithmetic of intervalStart
  // ---------------------------------------------------------------------------

  /** The remainder term of interval n, which wraps around at num. */
  function Spread(rem: nat, n: nat, num: nat): (s: nat)
    requires num > 0
    ensures s < num
  {
    (rem * n) % num
  }

  /** `intervalStart`: size and remainder of the width, scaled by n - 1. */
  function IntervalStart(lo: nat, hi: nat, n: nat, num: nat): (s: int)
    requires 1 <= n <= num
    ensures lo <= hi ==> s >= lo
  {
    var size, rem := (hi - lo) / num, (hi - lo) % num;
    assert lo <= hi ==> size * (n - 1) >= 0;
    lo + size * (n - 1) + Spread(rem, n - 1, num)
  }

  function IntervalEnd(lo: nat, hi: nat, n: nat, num: nat): int
    requires 1 <= n <= num
  {
    if n < num then IntervalStart(lo, hi, n + 1, num) - 1 else hi
  }

  /** `IntervalP`: panics on a bad index and whenever an end is not a 384-bit number. */
  function IntervalP(r: Range, n: int, num: int): Outcome<Range> {
    if num < 1 || n < 1 || n > num then Panicked
    else
      var s, e := IntervalStart(r.Lo(), r.Hi(), n, num), IntervalEnd(r.Lo(), r.Hi(), n, num);
      if 0 <= s < Modulus() && 0 <= e < Modulus() then Returned(Range(FromBig(s), FromBig(e))) else Panicked
  }

  /** One step of the remainder term: up by rem, or up by rem and down by num. */
  lemma SpreadStep(rem: nat, n: nat, num: nat)
    requires rem < num && n > 0
    ensures var f, g := Spread(rem, n - 1, num), Spread(rem, n, num);
            g == if f + rem < num then f + rem else f + rem - num
  {
    var q, f := (rem * (n - 1)) / num, Spread(rem, n - 1, num);
    assert rem * n == rem * (n - 1) + rem;
    assert rem * (n - 1) == num * q + f;
    if f + rem < num {
      DivModUnique(rem * n, num, q, f + rem);
    } else {
      assert rem * n == num * (q + 1) + (f + rem - num);
      DivModUnique(rem * n, num, q + 1, f + rem - num);
    }
  }

  lemma SpreadFirst(rem: nat, num: nat)
    requires num > 0
    ensures Spread(rem, 0, num) == 0
  {
    SmallMod(0, num);
  }

  lemma SpreadLast(rem: nat, num: nat)
    requires rem < num
    ensures Spread(rem, num - 1, num) == if rem == 0 then 0 else num - rem
  {
    if rem == 0 {
      SmallMod(0, num);
    } else {
      assert rem * (num - 1) == num * (rem - 1) + (num - rem);
      DivModUnique(rem * (num - 1), num, rem - 1, num - rem);
    }
  }

  /** Distance from one interval start to the next. */
  lemma StartStep(lo: nat, hi: nat, n: nat, num: nat)
    requires lo <= hi && 1 <= n < num
    ensures var size, rem := (hi - lo) / num, (hi - lo) % num;
            IntervalStart(lo, hi, n + 1, num) - IntervalStart(lo, hi, n, num)
            == size + if Spread(rem, n - 1, num) + rem < num then rem else rem - num
  {
    var size, rem := (hi - lo) / num, (hi - lo) % num;
    SpreadStep(rem, n, num);
    assert size * n == size * (n - 1) + size;
  }

  /** How far the last interval start is from the end. */
  lemma LastStart(lo: nat, hi: nat, num: nat)
    requires lo <= hi && num >= 1
    ensures var size, rem := (hi - lo) / num, (hi - lo) % num;
            hi - IntervalStart(lo, hi, num, num) == if rem == 0 then size else size + 2 * rem - num
  {
    var size, rem := (hi - lo) / num, (hi - lo) % num;
    SpreadLast(rem, num);
    assert hi - lo == num * size + rem;
    assert size * (num - 1) == num * size - size;
  }

  predicate AllNonEmpty(lo: nat, hi: nat, num: nat)
    requires lo <= hi && num >= 1
  {
    forall n :: 1 <= n <= num ==> IntervalStart(lo, hi, n, num) <= IntervalEnd(lo, hi, n, num)
  }

  /** When cutting a range of this width into num intervals leaves none empty. */
  predicate Divisible(width: nat, num: nat)
    requires num >= 1
  {
    var size, rem := width / num, width % num;
    num == 1 || (if rem == 0 then size >= 1 else if rem == 1 then size + 2 >= num else size + rem > num)
  }

  /**
    The num intervals partition lo..hi into non-empty pieces, in order and without gaps, exactly for the
    divisible widths; the remainder term wraps, so a width of num alone is not enough.
  */
  lemma IntervalsTile(lo: nat, hi: nat, num: nat)
    requires lo <= hi && num >= 1
    ensures IntervalStart(lo, hi, 1, num) == lo && IntervalEnd(lo, hi, num, num) == hi
    ensures forall n :: 1 <= n < num ==> IntervalEnd(lo, hi, n, num) + 1 == IntervalStart(lo, hi, n + 1, num)
    ensures AllNonEmpty(lo, hi, num) <==> Divisible(hi - lo, num)
  {
    var size, rem := (hi - lo) / num, (hi - lo) % num;
    SpreadFirst(rem, num);
    if Divisible(hi - lo, num) {
      forall n | 1 <= n <= num ensures IntervalStart(lo, hi, n, num) <= IntervalEnd(lo, hi, n, num) {
        DivisibleFits(lo, hi, n, num);
      }
    }
    if AllNonEmpty(lo, hi, num) {
      NonEmptyIsDivisible(lo, hi, num);
    }
  }

  lemma DivisibleFits(lo: nat, hi: nat, n: nat, num: nat)
    requires lo <= hi && 1 <= n <= num && Divisible(hi - lo, num)
    ensures IntervalStart(lo, hi, n, num) <= IntervalEnd(lo, hi, n, num)
  {
    var rem := (hi - lo) % num;
    if n == num {
      LastStart(lo, hi, num);
    } else {
      StartStep(lo, hi, n, num);
      if rem == 1 { SmallMod(n - 1, num); }
    }
  }

  lemma NonEmptyIsDivisible(lo: nat, hi: nat, num: nat)
    requires lo <= hi && num >= 1 && AllNonEmpty(lo, hi, num)
    ensures Divisible(hi - lo, num)
  {
    var size, rem := (hi - lo) / num, (hi - lo) % num;
    if num > 1 {
      LastStart(lo, hi, num);
      assert IntervalStart(lo, hi, num, num) <= IntervalEnd(lo, hi, num, num);
      var n := FirstWrap(rem, num);
      StartStep(lo, hi, n, num);
      assert IntervalStart(lo, hi, n, num) <= IntervalEnd(lo, hi, n, num);
    }
  }

  /** A step at which the remainder term wraps, when there is one. */
  lemma FirstWrap(rem: nat, num: nat) returns (n: nat)
    requires rem < num && num > 1
    ensures 1 <= n < num
    ensures rem >= 2 ==> Spread(rem, n - 1, num) + rem >= num
    ensures rem == 0 ==> Spread(rem, n - 1, num) == 0
  {
    n := 1;
    SpreadFirst(rem, num);
    if rem >= 2 {
      while Spread(rem, n - 1, num) + rem < num
        invariant 1 <= n < num
        invariant Spread(rem, n - 1, num) == rem * (n - 1)
        decreases num - n
      {
        SpreadStep(rem, n, num);
        assert rem * n == rem * (n - 1) + rem;
        RoomBeforeWrap(rem, n, num);
        n := n + 1;
      }
    }
  }

  lemma RoomBeforeWrap(rem: nat, n: nat, num: nat)
    requires rem >= 2 && num >= 2 && rem * n < num
    ensures n + 1 < num
  {
    assert rem * n >= 2 * n;
  }

  /** Every interval's size is within num of the exact quotient, divisible or not. */
  lemma IntervalSizeNearAverage(lo: nat, hi: nat, n: nat, num: nat)
    requires lo <= hi && 1 <= n <= num
    ensures var size := IntervalEnd(lo, hi, n, num) - IntervalStart(lo, hi, n, num);
            (hi - lo) / num - num <= size <= (hi - lo) / num + num
  {
    if n == num { LastStart(lo, hi, num); } else { StartStep(lo, hi, n, num); }
  }

  /** Width at least num squared suffices, as does any width above zero for two halves. */
  lemma WideIsDivisible(width: nat, num: nat)
    requires num >= 1
    ensures width >= num * num ==> Divisible(width, num)
    ensures num == 2 ==> (Divisible(width, 2) <==> width > 0)
  {
    var size, rem := width / num, width % num;
    if width >= num * num {
      assert width == num * size + rem;
      if size < num { MulGap(num, size, num); }
    }
  }

  /** `IntervalP` of a divisible range returns the n-th piece without panicking. */
  lemma IntervalPReturns(r: Range, n: nat, num: nat)
    requires r.Lo() <= r.Hi() && 1 <= n <= num && Divisible(r.Hi() - r.Lo(), num)
    ensures var o := IntervalP(r, n, num);
            && o.Returned?
            && o.value.Lo() == IntervalStart(r.Lo(), r.Hi(), n, num)
            && o.value.Hi() == IntervalEnd(r.Lo(), r.Hi(), n, num)
            && r.Lo() <= o.value.Lo() <= o.value.Hi() <= r.Hi()
  {
    ValueBound(r.end);
    IntervalWithin(r.Lo(), r.Hi(), n, num);
  }

  lemma IntervalWithin(lo: nat, hi: nat, n: nat, num: nat)
    requires lo <= hi && 1 <= n <= num && Divisible(hi - lo, num)
    ensures lo <= IntervalStart(lo, hi, n, num) <= IntervalEnd(lo, hi, n, num) <= hi
  {
    DivisibleFits(lo, hi, n, num);
    StartAtMostEnd(lo, hi, n, num);
  }

  lemma {:induction false} StartAtMostEnd(lo: nat, hi: nat, n: nat, num: nat)
    requires lo <= hi && 1 <= n <= num && Divisible(hi - lo, num)
    ensures IntervalEnd(lo, hi, n, num) <= hi
    decreases num - n
  {
    if n < num {
      DivisibleFits(lo, hi, n + 1, num);
      StartAtMostEnd(lo, hi, n + 1, num);
    }
  }

  /** The cut point used to halve a range: the right half starts here. */
  function Middle(r: Range): nat
    requires r.Lo() < r.Hi()
  {
    r.Lo() + (r.Hi() - r.Lo() + 1) / 2
  }

  /** Halving any range of two or more values gives two adjacent non-empty ranges. */
  lemma Halves(r: Range)
    requires r.Lo() < r.Hi()
    ensures var left, right := IntervalP(r, 1, 2), IntervalP(r, 2, 2);
            && left.Returned? && right.Returned?
            && left.value.start == r.start && left.value.Hi() == Middle(r) - 1
            && right.value.Lo() == Middle(r) && right.value.end == r.end
            && r.Lo() < Middle(r) <= r.Hi()
  {
    WideIsDivisible(r.Hi() - r.Lo(), 2);
    IntervalPReturns(r, 1, 2);
    IntervalPReturns(r, 2, 2);
    HalfStart(r.Lo(), r.Hi());
    FromBigValue(r.start);
    FromBigValue(r.end);
  }

  lemma HalfStart(lo: nat, hi: nat)
    requires lo < hi
    ensures IntervalStart(lo, hi, 1, 2) == lo && IntervalStart(lo, hi, 2, 2) == lo + (hi - lo + 1) / 2
  {
    SpreadFirst((hi - lo) % 2, 2);
  }
}
