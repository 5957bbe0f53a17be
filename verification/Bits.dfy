/** 384-bit identifiers: byte arrays read as big-endian integers (dht/bits/bitmap.go). */
module Bits {

  const NUM_BYTES := 48
  const NUM_BITS := 384

  type Byte = x: int | 0 <= x < 256
  type Bitmap = b: seq<Byte> | |b| == NUM_BYTES witness seq(NUM_BYTES, _ => 0)

  /** The integer a big-endian byte string stands for. */
  function Value(b: seq<Byte>): nat {
    if b == [] then 0 else 256 * Value(b[..|b| - 1]) + b[|b| - 1]
  }

  function Pow2(n: nat): (p: nat)
    ensures p > 0
  {
    if n == 0 then 1 else 2 * Pow2(n - 1)
  }

  function Blank(): Bitmap { seq(NUM_BYTES, _ => 0) }

  /** One more than the largest value of a bitmap: 2^384. */
  function Modulus(): nat { Pow2(8 * |Blank()|) }

  function Weight(bit: bool, w: nat): nat { if bit then w else 0 }

  // ---------------------------------------------------------------------------
  // Value is a bijection between bitmaps and 0..2^384-1
  // ---------------------------------------------------------------------------

  lemma {:induction false} ValueBound(b: seq<Byte>)
    ensures Value(b) < Pow2(8 * |b|)
  {
    if b != [] {
      var n := 8 * |b|;
      ValueBound(b[..|b| - 1]);
      Pow2Byte(n - 8);
    }
  }

  lemma Pow2Byte(n: nat)
    ensures Pow2(n + 8) == 256 * Pow2(n)
  {
    assert Pow2(n + 2) == 4 * Pow2(n);
    assert Pow2(n + 4) == 4 * Pow2(n + 2);
    assert Pow2(n + 6) == 4 * Pow2(n + 4);
    assert Pow2(n + 8) == 4 * Pow2(n + 6);
  }

  lemma {:induction false} ValueInjective(a: seq<Byte>, b: seq<Byte>)
    requires |a| == |b| && Value(a) == Value(b)
    ensures a == b
  {
    if a != [] {
      var n := |a| - 1;
      ValueInjective(a[..n], b[..n]);
      assert a == a[..n] + [a[n]] && b == b[..n] + [b[n]];
    }
  }

  /** The n-byte big-endian rendering of v. */
  function ToBytes(v: nat, n: nat): (b: seq<Byte>)
    requires v < Pow2(8 * n)
    ensures |b| == n && Value(b) == v
    decreases n, v
  {
    if n == 0 then []
    else
      Pow2Byte(8 * n - 8);
      var rest := ToBytes(v / 256, n - 1);
      var b := rest + [v % 256];
      assert b[..|b| - 1] == rest;
      b
  }

  /** `FromBigP`: goes through hexadecimal text and panics outside 0..2^384-1. */
  function FromBig(v: int): (b: Bitmap)
    requires 0 <= v < Modulus()
    ensures Value(b) == v
  {
    ToBytes(v, NUM_BYTES)
  }

  lemma FromBigValue(b: Bitmap)
    ensures 0 <= Value(b) < Modulus() && FromBig(Value(b)) == b
  {
    ValueBound(b);
    ValueInjective(FromBig(Value(b)), b);
  }

  /** The zero value `Bitmap{}`. */
  function Zero(): (b: Bitmap)
    ensures Value(b) == 0
  {
    FromBig(0)
  }

  /** `MaxP`: all bits one. */
  function MaxP(): (b: Bitmap)
    ensures Value(b) == Modulus() - 1
  {
    FromBig(Modulus() - 1)
  }

  // ---------------------------------------------------------------------------
  // Comparison
  // ---------------------------------------------------------------------------

  function CmpFrom(a: Bitmap, b: Bitmap, k: nat): int
    requires k <= NUM_BYTES
    decreases NUM_BYTES - k
  {
    if k == NUM_BYTES then 0
    else if a[k] < b[k] then -1
    else if a[k] > b[k] then 1
    else CmpFrom(a, b, k + 1)
  }

  /** `Cmp`: the first differing byte decides. */
  function Cmp(a: Bitmap, b: Bitmap): int { CmpFrom(a, b, 0) }

  predicate Equals(a: Bitmap, b: Bitmap) { Cmp(a, b) == 0 }

  function Sign(x: int): int { if x < 0 then -1 else if x > 0 then 1 else 0 }

  /** `Cmp` is the order of the integers. */
  lemma CmpIsValueOrder(a: Bitmap, b: Bitmap)
    ensures Cmp(a, b) == Sign(Value(a) - Value(b))
  {
    CmpFromIsValueOrder(a, b, 0);
  }

  lemma EqualsIsEquality(a: Bitmap, b: Bitmap)
    ensures Equals(a, b) <==> a == b
  {
    CmpIsValueOrder(a, b);
    if Value(a) == Value(b) { ValueInjective(a, b); }
  }

  lemma {:induction false} CmpFromIsValueOrder(a: Bitmap, b: Bitmap, k: nat)
    requires k <= NUM_BYTES && a[..k] == b[..k]
    ensures CmpFrom(a, b, k) == Sign(Value(a) - Value(b))
    decreases NUM_BYTES - k
  {
    if k == NUM_BYTES {
      assert a == a[..k] && b == b[..k];
    } else {
      assert a[..k + 1][..k] == a[..k] && b[..k + 1][..k] == b[..k];
      if a[k] < b[k] {
        PrefixDecides(a, b, k + 1);
      } else if a[k] > b[k] {
        PrefixDecides(b, a, k + 1);
      } else {
        assert a[..k + 1] == a[..k] + [a[k]] == b[..k + 1];
        CmpFromIsValueOrder(a, b, k + 1);
      }
    }
  }

  lemma {:induction false} PrefixDecides(a: Bitmap, b: Bitmap, k: nat)
    requires k <= NUM_BYTES && Value(a[..k]) < Value(b[..k])
    ensures Value(a) < Value(b)
    decreases NUM_BYTES - k
  {
    if k == NUM_BYTES {
      assert a == a[..k] && b == b[..k];
    } else {
      assert a[..k + 1][..k] == a[..k] && b[..k + 1][..k] == b[..k];
      PrefixDecides(a, b, k + 1);
    }
  }

  // ---------------------------------------------------------------------------
  // XOR distance
  // ---------------------------------------------------------------------------

  /** Exclusive or of the n low bits, one bit at a time. */
  function XorBits(x: nat, y: nat, n: nat): (r: nat)
    ensures r < Pow2(n)
  {
    if n == 0 then 0 else 2 * XorBits(x / 2, y / 2, n - 1) + Weight(x % 2 != y % 2, 1)
  }

  function XorByte(x: Byte, y: Byte): (r: Byte)
  {
    Pow2Byte(0);
    XorBits(x, y, 8)
  }

  function XorBytes(a: seq<Byte>, b: seq<Byte>): (r: seq<Byte>)
    requires |a| == |b|
    ensures |r| == |a|
  {
    seq(|a|, i requires 0 <= i < |a| => XorByte(a[i], b[i]))
  }

  function Xor(a: Bitmap, b: Bitmap): Bitmap { XorBytes(a, b) }

  /** `Closer`: x is strictly nearer to b than y is. */
  predicate Closer(b: Bitmap, x: Bitmap, y: Bitmap) { Cmp(Xor(x, b), Xor(y, b)) < 0 }

  /** The XOR distance as an integer. */
  function Dist(a: Bitmap, b: Bitmap): nat { Value(Xor(a, b)) }

  lemma CloserIsDist(b: Bitmap, x: Bitmap, y: Bitmap)
    ensures Closer(b, x, y) <==> Dist(x, b) < Dist(y, b)
  {
    CmpIsValueOrder(Xor(x, b), Xor(y, b));
  }

  lemma XorCommutes(a: Bitmap, b: Bitmap)
    ensures Xor(a, b) == Xor(b, a)
  {
    forall i | 0 <= i < NUM_BYTES ensures Xor(a, b)[i] == Xor(b, a)[i] {
      XorByteLaws(a[i], b[i]);
    }
  }

  lemma XorCancels(a: Bitmap, b: Bitmap)
    ensures Xor(Xor(a, b), b) == a
  {
    forall i | 0 <= i < NUM_BYTES ensures Xor(Xor(a, b), b)[i] == a[i] {
      XorByteLaws(a[i], b[i]);
    }
  }

  lemma DistSymmetric(a: Bitmap, b: Bitmap)
    ensures Dist(a, b) == Dist(b, a)
  {
    XorCommutes(a, b);
  }

  lemma DistZero(a: Bitmap, b: Bitmap)
    ensures Dist(a, b) == 0 <==> a == b
  {
    DistZeroSelf(b);
    if Dist(a, b) == 0 { DistInjective(b, a, b); }
  }

  lemma DistZeroSelf(a: Bitmap)
    ensures Dist(a, a) == 0
  {
    var z: Bitmap := Xor(a, a);
    forall i | 0 <= i < NUM_BYTES ensures z[i] == 0 { XorByteLaws(a[i], a[i]); }
    ZeroValue(z);
  }

  lemma {:induction false} ZeroValue(b: seq<Byte>)
    requires forall i :: 0 <= i < |b| ==> b[i] == 0
    ensures Value(b) == 0
  {
    if b != [] { ZeroValue(b[..|b| - 1]); }
  }

  /** For a fixed point the distance determines the other end. */
  lemma DistInjective(t: Bitmap, a: Bitmap, b: Bitmap)
    requires Dist(a, t) == Dist(b, t)
    ensures a == b
  {
    ValueInjective(Xor(a, t), Xor(b, t));
    XorCancels(a, t);
    XorCancels(b, t);
  }

  /** `Closer` to a fixed point is a strict total order on ids. */
  lemma CloserTotalOrder(b: Bitmap, x: Bitmap, y: Bitmap, z: Bitmap)
    ensures !Closer(b, x, x) && (Closer(b, x, y) && Closer(b, y, z) ==> Closer(b, x, z))
    ensures x != y ==> (Closer(b, x, y) <==> !Closer(b, y, x))
  {
    CloserIsDist(b, x, x);
    CloserIsDist(b, x, y);
    CloserIsDist(b, y, x);
    CloserIsDist(b, y, z);
    CloserIsDist(b, x, z);
    if Dist(x, b) == Dist(y, b) { DistInjective(b, x, y); }
  }

  /** Distances from the all-zero id are the ids themselves. */
  lemma DistFromZero(a: Bitmap)
    ensures Xor(Zero(), a) == a == Xor(a, Zero())
  {
    forall i | 0 <= i < NUM_BYTES ensures Xor(a, Zero())[i] == a[i] {
      ZeroBytes(Zero(), i);
      XorByteLaws(a[i], 0);
    }
    XorCommutes(a, Zero());
  }

  lemma {:induction false} ZeroBytes(b: seq<Byte>, i: nat)
    requires Value(b) == 0 && i < |b|
    ensures b[i] == 0
  {
    if i < |b| - 1 { ZeroBytes(b[..|b| - 1], i); }
  }

  lemma XorByteLaws(x: Byte, y: Byte)
    ensures XorByte(x, y) == XorByte(y, x) && XorByte(XorByte(x, y), y) == x
    ensures XorByte(x, x) == 0 && XorByte(x, 0) == x
  {
    Pow2Byte(0);
    XorBitsLaws(x, y, 8);
  }

  lemma {:induction false} XorBitsLaws(x: nat, y: nat, n: nat)
    requires x < Pow2(n)
    ensures XorBits(x, y, n) == XorBits(y, x, n) && XorBits(XorBits(x, y, n), y, n) == x
    ensures XorBits(x, x, n) == 0 && XorBits(x, 0, n) == x
  {
    if n > 0 { XorBitsLaws(x / 2, y / 2, n - 1); }
  }

  lemma {:induction false} XorBitsTriangle(x: nat, y: nat, z: nat, n: nat)
    ensures XorBits(x, z, n) <= XorBits(x, y, n) + XorBits(y, z, n)
  {
    if n > 0 { XorBitsTriangle(x / 2, y / 2, z / 2, n - 1); }
  }

  /** XOR distance is a metric: the triangle inequality in integer value. */
  lemma DistTriangle(a: Bitmap, b: Bitmap, c: Bitmap)
    ensures Dist(a, c) <= Dist(a, b) + Dist(b, c)
  {
    TrianglePrefix(a, b, c);
  }

  lemma {:induction false} TrianglePrefix(a: seq<Byte>, b: seq<Byte>, c: seq<Byte>)
    requires |a| == |b| == |c|
    ensures Value(XorBytes(a, c)) <= Value(XorBytes(a, b)) + Value(XorBytes(b, c))
  {
    if a != [] {
      var n := |a| - 1;
      TrianglePrefix(a[..n], b[..n], c[..n]);
      XorPrefix(a, c);
      XorPrefix(a, b);
      XorPrefix(b, c);
      XorBitsTriangle(a[n], b[n], c[n], 8);
    }
  }

  /** Exclusive or of numbers below 2^k stays below 2^k. */
  lemma {:induction false} XorBitsSmall(x: nat, y: nat, n: nat, k: nat)
    requires x < Pow2(k) && y < Pow2(k)
    ensures XorBits(x, y, n) < Pow2(k)
  {
    if k == 0 {
      XorBitsLaws(0, 0, n);
    } else if n > 0 {
      XorBitsSmall(x / 2, y / 2, n - 1, k - 1);
    }
  }

  /** Two ids below 16 are at a distance below 16. */
  lemma SmallDist(a: Bitmap, b: Bitmap)
    requires Value(a) < 16 && Value(b) < 16
    ensures Dist(a, b) < 16
  {
    var n := NUM_BYTES - 1;
    var high := XorBytes(a[..n], b[..n]);
    XorPrefix(a, b);
    forall i | 0 <= i < n ensures high[i] == 0 {
      ZeroBytes(a[..n], i);
      ZeroBytes(b[..n], i);
      XorByteLaws(0, 0);
    }
    ZeroValue(high);
    assert Pow2(4) == 16;
    XorBitsSmall(a[n], b[n], 8, 4);
  }

  lemma XorPrefix(a: seq<Byte>, b: seq<Byte>)
    requires |a| == |b| > 0
    ensures var n := |a| - 1; XorBytes(a, b)[..n] == XorBytes(a[..n], b[..n])
  {
  }

  // ---------------------------------------------------------------------------
  // Bits of a byte string; bit 0 is the most significant
  // ---------------------------------------------------------------------------

  function ShiftRight(x: nat, k: nat): nat { if k == 0 then x else ShiftRight(x / 2, k - 1) }

  /** Bit k counted from the least significant end. */
  predicate BitOf(x: nat, k: nat) { ShiftRight(x, k) % 2 == 1 }

  predicate GetBit(b: seq<Byte>, n: nat)
    requires n < 8 * |b|
  {
    BitOf(b[n / 8], 7 - n % 8)
  }

  function BitsOf(b: seq<Byte>): (r: seq<bool>)
    ensures |r| == 8 * |b|
  {
    seq(8 * |b|, i requires 0 <= i < 8 * |b| => GetBit(b, i))
  }

  lemma {:induction false} ShiftStep(x: nat, k: nat)
    ensures ShiftRight(x, k) == 2 * ShiftRight(x, k + 1) + Weight(BitOf(x, k), 1)
  {
    if k > 0 { ShiftStep(x / 2, k - 1); }
  }

  lemma {:induction false} ShiftOut(x: nat, k: nat)
    requires x < Pow2(k)
    ensures ShiftRight(x, k) == 0
  {
    if k > 0 { ShiftOut(x / 2, k - 1); }
  }

  /** x with bit k replaced. */
  function WithBit(x: nat, k: nat, one: bool): nat {
    if k == 0 then 2 * (x / 2) + Weight(one, 1) else 2 * WithBit(x / 2, k - 1, one) + x % 2
  }

  /** Exclusive or works bit by bit. */
  lemma {:induction false} XorBitsBits(x: nat, y: nat, n: nat, k: nat)
    requires k < n
    ensures BitOf(XorBits(x, y, n), k) <==> BitOf(x, k) != BitOf(y, k)
  {
    if k > 0 { XorBitsBits(x / 2, y / 2, n - 1, k - 1); }
  }

  /** A bit of the exclusive or is set exactly when it differs in the two operands. */
  lemma XorGetBit(a: Bitmap, b: Bitmap, n: nat)
    requires n < NUM_BITS
    ensures GetBit(Xor(a, b), n) <==> GetBit(a, n) != GetBit(b, n)
  {
    XorBitsBits(a[n / 8], b[n / 8], 8, 7 - n % 8);
  }

  lemma {:induction false} WithBitBits(x: nat, k: nat, one: bool, j: nat)
    ensures BitOf(WithBit(x, k, one), j) <==> if j == k then one else BitOf(x, j)
  {
    if j > 0 && k > 0 { WithBitBits(x / 2, k - 1, one, j - 1); }
  }

  lemma {:induction false} WithBitBound(x: nat, k: nat, one: bool, n: nat)
    requires k < n && x < Pow2(n)
    ensures WithBit(x, k, one) < Pow2(n)
  {
    if k > 0 { WithBitBound(x / 2, k - 1, one, n - 1); }
  }

  /** `setBit` writes one bit in place and leaves every other bit alone. */
  method SetBit(b: array<Byte>, n: nat, one: bool)
    requires n < 8 * b.Length
    modifies b
    ensures BitsOf(b[..]) == old(BitsOf(b[..]))[n := one]
  {
    ghost var before := b[..];
    Pow2Byte(0);
    WithBitBound(b[n / 8], 7 - n % 8, one, 8);
    b[n / 8] := WithBit(b[n / 8], 7 - n % 8, one);
    forall k: nat | k < 8 * b.Length
      ensures GetBit(b[..], k) <==> if k == n then one else GetBit(before, k)
    {
      WithBitBits(before[n / 8], 7 - n % 8, one, 7 - k % 8);
    }
  }

  // ---------------------------------------------------------------------------
  // Ripple-carry addition
  // ---------------------------------------------------------------------------

  /** Value of the first n bits. */
  function HighBits(s: seq<bool>, n: nat): nat
    requires n <= |s|
  {
    if n == 0 then 0 else 2 * HighBits(s, n - 1) + Weight(s[n - 1], 1)
  }

  /** Value of the bits from n on. */
  function LowBits(s: seq<bool>, n: nat): nat
    requires n <= |s|
    decreases |s| - n
  {
    if n == |s| then 0 else Weight(s[n], Pow2(|s| - 1 - n)) + LowBits(s, n + 1)
  }

  lemma {:induction false} BitsOfByte(s: seq<bool>, n: nat, x: Byte, i: nat)
    requires n + 8 <= |s| && i <= 8
    requires forall k :: n <= k < n + 8 ==> s[k] == BitOf(x, n + 7 - k)
    ensures HighBits(s, n + i) == Pow2(i) * HighBits(s, n) + ShiftRight(x, 8 - i)
  {
    if i == 0 {
      Pow2Byte(0);
      ShiftOut(x, 8);
    } else {
      BitsOfByte(s, n, x, i - 1);
      ShiftStep(x, 8 - i);
      assert s[n + i - 1] == BitOf(x, 8 - i);
      Doubled(Pow2(i - 1), HighBits(s, n));
    }
  }

  lemma Doubled(p: nat, h: nat)
    ensures 2 * p * h == 2 * (p * h)
  {
  }

  lemma {:induction false} HighBitsIsValue(b: seq<Byte>, k: nat)
    requires k <= |b|
    ensures HighBits(BitsOf(b), 8 * k) == Value(b[..k])
  {
    if k > 0 {
      HighBitsIsValue(b, k - 1);
      assert b[..k][..k - 1] == b[..k - 1];
      OneMoreByte(b, k - 1);
    }
  }

  lemma ByteBit(b: seq<Byte>, j: nat, k: nat)
    requires j < |b| && 8 * j <= k < 8 * j + 8
    ensures BitsOf(b)[k] == BitOf(b[j], 8 * j + 7 - k)
  {
    DivModUnique(k, 8, j, k - 8 * j);
  }

  lemma OneMoreByte(b: seq<Byte>, j: nat)
    requires j < |b|
    ensures HighBits(BitsOf(b), 8 * j + 8) == 256 * HighBits(BitsOf(b), 8 * j) + b[j]
  {
    var s, n := BitsOf(b), 8 * j;
    forall k | n <= k < n + 8 ensures s[k] == BitOf(b[j], n + 7 - k) { ByteBit(b, j, k); }
    WholeByte(s, n, b[j]);
  }

  lemma WholeByte(s: seq<bool>, n: nat, x: Byte)
    requires n + 8 <= |s| && forall k :: n <= k < n + 8 ==> s[k] == BitOf(x, n + 7 - k)
    ensures HighBits(s, n + 8) == 256 * HighBits(s, n) + x
  {
    Pow2Byte(0);
    BitsOfByte(s, n, x, 8);
  }

  lemma {:induction false} HighLow(s: seq<bool>, n: nat)
    requires n <= |s|
    ensures HighBits(s, |s|) == HighBits(s, n) * Pow2(|s| - n) + LowBits(s, n)
    decreases |s| - n
  {
    if n < |s| {
      HighLow(s, n + 1);
      ShiftIn(HighBits(s, n), s[n], Pow2(|s| - n - 1));
    }
  }

  lemma ShiftIn(h: nat, bit: bool, p: nat)
    ensures (2 * h + Weight(bit, 1)) * p == h * (2 * p) + Weight(bit, p)
  {
  }

  lemma LowBitsIsValue(b: seq<Byte>)
    ensures LowBits(BitsOf(b), 0) == Value(b)
  {
    HighLow(BitsOf(b), 0);
    HighBitsIsValue(b, |b|);
    assert b[..|b|] == b;
  }

  lemma {:induction false} LowBitsDependsOnTail(s: seq<bool>, t: seq<bool>, n: nat)
    requires |s| == |t| && n <= |s| && s[n..] == t[n..]
    ensures LowBits(s, n) == LowBits(t, n)
    decreases |s| - n
  {
    if n < |s| {
      assert s[n] == s[n..][0] == t[n];
      assert s[n + 1..] == s[n..][1..] == t[n + 1..];
      LowBitsDependsOnTail(s, t, n + 1);
    }
  }

  /** The columns from i on are summed: s holds the low bits of x + y, carry what overflows them. */
  ghost predicate SummedFrom(s: seq<bool>, x: seq<bool>, y: seq<bool>, i: nat, carry: bool)
    requires |s| == |x| == |y| && i <= |s|
  {
    LowBits(s, i) + Weight(carry, Pow2(|s| - i)) == LowBits(x, i) + LowBits(y, i)
  }

  /** One column of the addition. */
  lemma AddColumn(s: seq<bool>, x: seq<bool>, y: seq<bool>, i: nat, carry: bool)
    requires |s| == |x| == |y| && i < |s| && SummedFrom(s, x, y, i + 1, carry)
    ensures SummedFrom(s[i := (x[i] != y[i]) != carry], x, y, i,
                       (x[i] && y[i]) || (x[i] && carry) || (y[i] && carry))
  {
    var s' := s[i := (x[i] != y[i]) != carry];
    assert s[i + 1..] == s'[i + 1..];
    LowBitsDependsOnTail(s, s', i + 1);
  }

  lemma AllColumns(sum: seq<Byte>, a: seq<Byte>, b: seq<Byte>, carry: bool)
    requires |sum| == |a| == |b| && SummedFrom(BitsOf(sum), BitsOf(a), BitsOf(b), 0, carry)
    ensures Value(sum) + Weight(carry, Pow2(8 * |sum|)) == Value(a) + Value(b)
  {
    LowBitsIsValue(sum);
    LowBitsIsValue(a);
    LowBitsIsValue(b);
  }

  /** `add`: bit by bit from the least significant end; exact on integers with its carry. */
  method AddWithCarry(a: Bitmap, b: Bitmap) returns (sum: Bitmap, carry: bool)
    ensures Value(sum) + Weight(carry, Modulus()) == Value(a) + Value(b)
  {
    var ret := new Byte[NUM_BYTES](_ => 0);
    carry := false;
    var i := NUM_BITS;
    while i > 0
      invariant 0 <= i <= NUM_BITS
      invariant SummedFrom(BitsOf(ret[..]), BitsOf(a), BitsOf(b), i, carry)
    {
      i := i - 1;
      AddColumn(BitsOf(ret[..]), BitsOf(a), BitsOf(b), i, carry);
      var x, y := GetBit(a, i), GetBit(b, i);
      SetBit(ret, i, (x != y) != carry);
      carry := (x && y) || (x && carry) || (y && carry);
    }
    AllColumns(ret[..], a, b, carry);
    sum := ret[..];
  }

  datatype Outcome<T> = Returned(value: T) | Panicked

  /** `Add`: panics exactly when the integer sum does not fit, and is exact otherwise. */
  method Add(a: Bitmap, b: Bitmap) returns (r: Outcome<Bitmap>)
    ensures r.Panicked? <==> Value(a) + Value(b) >= Modulus()
    ensures r.Returned? ==> Value(r.value) == Value(a) + Value(b)
  {
    var sum, carry := AddWithCarry(a, b);
    ValueBound(sum);
    r := if carry then Panicked else Returned(sum);
  }

  function NotByte(x: Byte): Byte { 255 - x }

  function Not(b: Bitmap): Bitmap { seq(NUM_BYTES, i requires 0 <= i < NUM_BYTES => NotByte(b[i])) }

  lemma NotValue(b: Bitmap)
    ensures Value(Not(b)) == Modulus() - 1 - Value(b)
  {
    NotValuePrefix(b, NUM_BYTES);
    assert b[..NUM_BYTES] == b && Not(b)[..NUM_BYTES] == Not(b);
  }

  lemma {:induction false} NotValuePrefix(b: Bitmap, k: nat)
    requires k <= NUM_BYTES
    ensures Value(Not(b)[..k]) + Value(b[..k]) == Pow2(8 * k) - 1
  {
    if k > 0 {
      NotValuePrefix(b, k - 1);
      assert b[..k][..k - 1] == b[..k - 1] && Not(b)[..k][..k - 1] == Not(b)[..k - 1];
      Pow2Byte(8 * k - 8);
    }
  }

  /** `Sub`: two's complement addition; panics exactly when the difference would be negative. */
  method Sub(a: Bitmap, b: Bitmap) returns (r: Outcome<Bitmap>)
    ensures r.Panicked? <==> Value(a) < Value(b)
    ensures r.Returned? ==> Value(r.value) == Value(a) - Value(b)
  {
    CmpIsValueOrder(a, b);
    if Cmp(a, b) < 0 { return Panicked; }
    NotValue(b);
    Pow2Byte(0);
    assert 1 < Modulus() by { Pow2Byte(NUM_BITS - 8); }
    var complement, c1 := AddWithCarry(Not(b), FromBig(1));
    var diff, c2 := AddWithCarry(a, complement);
    ValueBound(a);
    ValueBound(complement);
    ValueBound(diff);
    r := Returned(diff);
  }

  /**
    `RandInRangeP` started from the random draw r0: panics if low is above high, and otherwise terminates and
    lands in low..high. With low equal to high and a nonzero draw the loop does not end
    (LoopEndsIff).
  */
  method RandInRange(low: Bitmap, high: Bitmap, r0: Bitmap) returns (r: Outcome<Bitmap>)
    requires Value(low) != Value(high) || Value(r0) == 0
    ensures r.Panicked? <==> Value(low) > Value(high)
    ensures r.Returned? ==> Value(low) <= Value(r.value) <= Value(high)
    ensures r.Returned? ==>
              var diff := Value(high) - Value(low);
              Value(r.value) == Value(low) + if Value(r0) <= diff then Value(r0) else (Value(r0) - 1) % diff + 1
  {
    var d := Sub(high, low);
    if d.Panicked? { return Panicked; }
    var cur := ReduceBelow(r0, d.value);
    ValueBound(high);
    r := Add(cur, low);
  }

  /** The loop variable of `RandInRangeP` after n turns, as long as the loop goes on. */
  function AfterTurns(r0: Bitmap, diff: Bitmap, n: nat): Bitmap {
    if n == 0 then r0 else Reduced(AfterTurns(r0, diff, n - 1), diff)
  }

  function Reduced(cur: Bitmap, diff: Bitmap): Bitmap {
    ValueBound(cur);
    if Value(cur) > Value(diff) then FromBig(Value(cur) - Value(diff)) else cur
  }

  /** One turn of the loop, whatever the difference. */
  method Turn(cur: Bitmap, diff: Bitmap) returns (next: Bitmap)
    requires Cmp(cur, diff) > 0
    ensures next == Reduced(cur, diff)
  {
    CmpIsValueOrder(cur, diff);
    var s := Sub(cur, diff);
    ValueInjective(s.value, Reduced(cur, diff));
    next := s.value;
  }

  /** The loop is over after n turns: its guard fails. */
  predicate Over(r0: Bitmap, diff: Bitmap, n: nat) { Cmp(AfterTurns(r0, diff, n), diff) <= 0 }

  /** The loop of `RandInRangeP`: subtracts diff while above it. */
  method ReduceBelow(r0: Bitmap, diff: Bitmap) returns (cur: Bitmap)
    requires Value(diff) > 0 || Value(r0) == 0
    ensures Value(cur) == if Value(r0) <= Value(diff) then Value(r0) else (Value(r0) - 1) % Value(diff) + 1
    ensures Value(cur) <= Value(diff)
    ensures exists n :: Over(r0, diff, n) && cur == AfterTurns(r0, diff, n)
  {
    cur := r0;
    ghost var n := 0;
    CmpIsValueOrder(cur, diff);
    while Cmp(cur, diff) > 0
      invariant Cmp(cur, diff) == Sign(Value(cur) - Value(diff))
      invariant cur == AfterTurns(r0, diff, n)
      invariant Value(r0) <= Value(diff) ==> cur == r0
      invariant Value(r0) > Value(diff) ==>
                  Value(cur) >= 1 && (Value(cur) - 1) % Value(diff) == (Value(r0) - 1) % Value(diff)
      decreases Value(cur)
    {
      TurnKeepsRemainder(cur, diff);
      cur := Turn(cur, diff);
      n := n + 1;
      CmpIsValueOrder(cur, diff);
    }
    assert Over(r0, diff, n);
    if Value(r0) > Value(diff) { SmallMod(Value(cur) - 1, Value(diff)); }
  }

  lemma TurnKeepsRemainder(cur: Bitmap, diff: Bitmap)
    requires Value(cur) > Value(diff) > 0
    ensures var next := Value(Reduced(cur, diff));
            1 <= next < Value(cur) && (next - 1) % Value(diff) == (Value(cur) - 1) % Value(diff)
  {
    ModDrop(Value(cur) - 1, Value(diff));
  }

  /** The loop ends exactly when the bounds differ or the draw is zero. */
  lemma LoopEndsIff(r0: Bitmap, diff: Bitmap)
    ensures (exists n :: Over(r0, diff, n)) <==> Value(diff) > 0 || Value(r0) == 0
  {
    if Value(diff) > 0 || Value(r0) == 0 {
      OverInTime(r0, diff);
    } else {
      forall n: nat ensures !Over(r0, diff, n) { NeverOver(r0, diff, n); }
    }
  }

  lemma OverInTime(r0: Bitmap, diff: Bitmap)
    requires Value(diff) > 0 || Value(r0) == 0
    ensures Over(r0, diff, Value(r0))
  {
    OverAfter(r0, diff, Value(r0));
  }

  lemma OverAfter(r0: Bitmap, diff: Bitmap, n: nat)
    requires n == Value(r0) && (Value(diff) > 0 || n == 0)
    ensures Over(r0, diff, n)
  {
    var cur := AfterTurns(r0, diff, n);
    assert Value(cur) <= Value(diff) by { TurnsShrink(r0, diff, n); }
    CmpIsValueOrder(cur, diff);
  }

  lemma NeverOver(r0: Bitmap, diff: Bitmap, n: nat)
    requires Value(diff) == 0 && Value(r0) > 0
    ensures !Over(r0, diff, n)
  {
    StuckAtZero(r0, diff, n);
    CmpIsValueOrder(r0, diff);
  }

  lemma {:induction false} TurnsShrink(r0: Bitmap, diff: Bitmap, n: nat)
    requires Value(diff) > 0 || Value(r0) == 0
    ensures var cur := Value(AfterTurns(r0, diff, n)); cur <= Value(diff) || cur + n <= Value(r0)
  {
    if n > 0 { TurnsShrink(r0, diff, n - 1); }
  }

  /** Subtracting a zero difference changes nothing. */
  lemma {:induction false} StuckAtZero(r0: Bitmap, diff: Bitmap, n: nat)
    requires Value(diff) == 0 && Value(r0) > 0
    ensures AfterTurns(r0, diff, n) == r0
  {
    if n > 0 {
      StuckAtZero(r0, diff, n - 1);
      FromBigValue(r0);
    }
  }

  lemma ModDrop(x: int, d: int)
    requires x >= d > 0
    ensures (x - d) % d == x % d
  {
    var q := x / d;
    assert x - d == d * (q - 1) + x % d;
    DivModUnique(x - d, d, q - 1, x % d);
  }

  lemma SmallMod(x: int, d: int)
    requires 0 <= x < d
    ensures x % d == x && x / d == 0
  {
    DivModUnique(x, d, 0, x);
  }

  lemma DivModUnique(x: int, d: int, q: int, r: int)
    requires d > 0 && 0 <= r < d && x == d * q + r
    ensures x / d == q && x % d == r
  {
    var q', r' := x / d, x % d;
    assert x == d * q' + r';
    if q > q' {
      MulGap(d, q', q);
    } else if q < q' {
      MulGap(d, q, q');
    }
  }

  lemma MulGap(d: int, p: int, q: int)
    requires d > 0 && p < q
    ensures d * q >= d * p + d
  {
    var k := q - p - 1;
    assert d * q == d * p + d + d * k;
    assert d * k >= 0;
  }
}
