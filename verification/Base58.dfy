/** Base-58 text of 25-byte addresses and back (schema/address/base58). */
module Base58 {
  import opened Bits
  import opened Results

  type Digit = d: int | 0 <= d < 58

  datatype Error = InvalidCharacter | CannotDecodeToSize

  const ADDRESS_BYTES := 25
  const TWO64 := 0x1_0000_0000_0000_0000

  // ---------------------------------------------------------------------------
  // Alphabet
  // ---------------------------------------------------------------------------

  /** The character table: 1-9, A-Z without I and O, a-z without l, in ASCII. */
  function Character(d: Digit): Byte {
    if d < 9 then 0x31 + d            // 1-9
    else if d < 17 then 0x41 + d - 9  // A-H
    else if d < 22 then 0x4a + d - 17 // J-N
    else if d < 33 then 0x50 + d - 22 // P-Z
    else if d < 44 then 0x61 + d - 33 // a-k
    else 0x6d + d - 44                // m-z
  }

  /** Characters are in the order of their digits. */
  lemma CharactersIncrease(d: Digit, e: Digit)
    requires d < e
    ensures Character(d) < Character(e)
  {
  }

  /** An ASCII digit or letter, other than zero, capital i, capital o and small l. */
  predicate InAlphabet(c: Byte) {
    && ('0' as int <= c <= '9' as int || 'A' as int <= c <= 'Z' as int || 'a' as int <= c <= 'z' as int)
    && c != '0' as int && c != 'I' as int && c != 'O' as int && c != 'l' as int
  }

  /** The characters of digits are exactly these; with their order this determines the table. */
  lemma AlphabetIs(c: Byte)
    ensures (exists d: Digit :: Character(d) == c) <==> InAlphabet(c)
  {
    if InAlphabet(c) {
      var d: Digit :=
        if c < 0x41 then c - 0x31
        else if c < 0x49 then c - 0x41 + 9
        else if c < 0x4f then c - 0x4a + 17
        else if c < 0x61 then c - 0x50 + 22
        else if c < 0x6c then c - 0x61 + 33
        else c - 0x6d + 44;
      assert Character(d) == c;
    }
  }

  /** The digit a character stands for, searching the table from d on. */
  function SearchFrom(c: Byte, d: nat): (r: Result<Digit, Error>)
    requires d <= 58
    ensures r.Ok? ==> r.value >= d && Character(r.value) == c
    decreases 58 - d, c
  {
    if d == 58 then Err(InvalidCharacter) else if Character(d) == c then Ok(d) else SearchFrom(c, d + 1)
  }

  function IndexOf(c: Byte): Result<Digit, Error> { SearchFrom(c, 0) }

  /** `CharacterIndex`: a linear search of the table. */
  method CharacterIndex(c: Byte) returns (r: Result<Digit, Error>)
    ensures r == IndexOf(c)
  {
    for i := 0 to 58
      invariant SearchFrom(c, i) == IndexOf(c)
    {
      if Character(i) == c { return Ok(i); }
    }
    return Err(InvalidCharacter);
  }

  /** The search finds the one digit with that character, and fails only if there is none. */
  lemma {:induction false} SearchFinds(c: Byte, d: nat, x: Digit)
    requires d <= x
    ensures SearchFrom(c, d) == Ok(x) <==> Character(x) == c
    decreases x - d
  {
    if Character(d) == c && d < x { assert Character(x) != Character(d); }
    if d < x { SearchFinds(c, d + 1, x); }
  }

  function Text(digits: seq<Digit>): seq<Byte> {
    seq(|digits|, i requires 0 <= i < |digits| => Character(digits[i]))
  }

  /** The digits of a text, or the error of its first unknown character. */
  function Parse(text: seq<Byte>): Result<seq<Digit>, Error> {
    if text == [] then Ok([])
    else
      match Parse(text[..|text| - 1])
      case Err(e) => Err(e)
      case Ok(digits) =>
        match IndexOf(text[|text| - 1])
        case Err(e) => Err(e)
        case Ok(d) => Ok(digits + [d])
  }

  lemma {:induction false} ParseText(digits: seq<Digit>)
    ensures Parse(Text(digits)) == Ok(digits)
  {
    if digits != [] {
      var n := |digits| - 1;
      ParseText(digits[..n]);
      assert Text(digits)[..n] == Text(digits[..n]) && digits == digits[..n] + [digits[n]];
      SearchFinds(Character(digits[n]), 0, digits[n]);
    }
  }

  lemma {:induction false} ParsePrefix(text: seq<Byte>, n: nat)
    requires n <= |text| && Parse(text[..n]).Err?
    ensures Parse(text) == Parse(text[..n])
    decreases |text| - n
  {
    if n == |text| {
      assert text[..n] == text;
    } else {
      assert text[..n + 1][..n] == text[..n];
      ParsePrefix(text, n + 1);
    }
  }

  // ---------------------------------------------------------------------------
  // Positional values
  // ---------------------------------------------------------------------------

  function Pow(base: nat, e: nat): (p: nat)
    ensures base > 0 ==> p > 0
    decreases e, base
  {
    if e == 0 then 1 else base * Pow(base, e - 1)
  }

  /** The number that digits stand for, most significant first. */
  function Value58(digits: seq<Digit>): nat {
    if digits == [] then 0 else 58 * Value58(digits[..|digits| - 1]) + digits[|digits| - 1]
  }

  lemma {:induction false} ValuePrepend(x: Byte, s: seq<Byte>)
    ensures Value([x] + s) == x * Pow(256, |s|) + Value(s)
  {
    if s == [] {
      assert [x][..0] == [];
    } else {
      var n := |s| - 1;
      ValuePrepend(x, s[..n]);
      assert ([x] + s)[..|s|] == [x] + s[..n];
      Distribute(256, x, Pow(256, n));
    }
  }

  lemma {:induction false} Value58Prepend(x: Digit, s: seq<Digit>)
    ensures Value58([x] + s) == x * Pow(58, |s|) + Value58(s)
  {
    if s == [] {
      assert [x][..0] == [];
    } else {
      var n := |s| - 1;
      Value58Prepend(x, s[..n]);
      assert ([x] + s)[..|s|] == [x] + s[..n];
      Distribute(58, x, Pow(58, n));
    }
  }

  lemma Distribute(b: nat, x: nat, p: nat)
    ensures b * (x * p) == x * (b * p)
  {
  }

  // ---------------------------------------------------------------------------
  // Encoding
  // ---------------------------------------------------------------------------

  /** The digits the encoding loop writes: it stops when the low 64 bits of the quotient are zero. */
  function EncodeDigits(v: nat): seq<Digit> {
    if (v / 58) % TWO64 == 0 then [v % 58] else EncodeDigits(v / 58) + [v % 58]
  }

  /** `EncodeBase58`; it indexes from position 24, so only empty or 25-byte data does not panic. */
  method EncodeBase58(data: seq<Byte>) returns (r: Outcome<seq<Byte>>)
    ensures r.Panicked? <==> |data| != 0 && |data| != ADDRESS_BYTES
    ensures r.Returned? ==> r.value == Text(EncodeDigits(Value(data)))
  {
    if |data| != 0 && |data| != ADDRESS_BYTES { return Panicked; }
    var longValue := SumLoop(data);
    var result := EncodeLoop(longValue);
    r := Returned(result);
  }

  /** The first loop of `EncodeBase58`: the sum of byte times power of 256. */
  method SumLoop(data: seq<Byte>) returns (longValue: nat)
    requires |data| == 0 || |data| == ADDRESS_BYTES
    ensures longValue == Value(data)
  {
    longValue := 0;
    assert data[|data|..] == [];
    for i := 0 to |data|
      invariant longValue == Value(data[|data| - i..])
    {
      ghost var rest := data[|data| - i..];
      assert data[|data| - (i + 1)..] == [data[24 - i]] + rest;
      ValuePrepend(data[24 - i], rest);
      longValue := data[24 - i] * Pow(256, i) + longValue;
    }
    assert data[0..] == data;
  }

  /** The division loop of `EncodeBase58`. */
  method EncodeLoop(start: nat) returns (result: seq<Byte>)
    ensures result == Text(EncodeDigits(start))
  {
    var longValue: nat := start;
    ghost var digits: seq<Digit> := [];
    result := [];
    while true
      invariant result == Text(digits) && EncodeDigits(start) == EncodeDigits(longValue) + digits
      decreases longValue
    {
      var m := longValue % 58;
      ghost var before := longValue;
      longValue := longValue / 58;
      assert EncodeDigits(before) + digits ==
             (if longValue % TWO64 == 0 then [m] + digits else EncodeDigits(longValue) + ([m] + digits));
      digits := [m] + digits;
      result := [Character(m)] + result;
      if longValue % TWO64 == 0 { break; }
    }
  }

  // ---------------------------------------------------------------------------
  // Decoding
  // ---------------------------------------------------------------------------

  function DecodeDigits(digits: seq<Digit>, size: nat): Result<seq<Byte>, Error> {
    var v, limit := Value58(digits), Pow2(8 * size);
    if (v / limit) % TWO64 != 0 then Err(CannotDecodeToSize) else Ok(ToBytes(v % limit, size))
  }

  /** What `DecodeBase58` computes; its final check looks only at the low 64 bits of what does not fit. */
  function Decoded(text: seq<Byte>, size: nat): Result<seq<Byte>, Error> {
    match Parse(text)
    case Err(e) => Err(e)
    case Ok(digits) => DecodeDigits(digits, size)
  }

  lemma HornerStep(v: nat, d: nat, p: nat)
    ensures (58 * v + d) * p == v * (58 * p) + d * p
  {
  }

  /** The first loop of `DecodeBase58`: the sum of digit times power of 58. */
  method DecodeLoop(text: seq<Byte>) returns (r: Result<nat, Error>)
    ensures Parse(text).Err? ==> r == Err(Parse(text).error)
    ensures Parse(text).Ok? ==> r == Ok(Value58(Parse(text).value))
  {
    var longValue := 0;
    for j := 0 to |text|
      invariant Parse(text[..j]).Ok? && longValue == Value58(Parse(text[..j]).value) * Pow(58, |text| - j)
    {
      assert text[..j + 1][..j] == text[..j];
      var c := CharacterIndex(text[j]);
      if c.Err? {
        ParsePrefix(text, j + 1);
        return Err(c.error);
      }
      ghost var digits := Parse(text[..j]).value;
      assert (digits + [c.value])[..|digits|] == digits;
      HornerStep(Value58(digits), c.value, Pow(58, |text| - j - 1));
      longValue := c.value * Pow(58, |text| - j - 1) + longValue;
    }
    assert text[..|text|] == text;
    return Ok(longValue);
  }

  lemma {:induction false} Pow256(n: nat)
    ensures Pow(256, n) == Pow2(8 * n)
  {
    if n > 0 {
      Pow256(n - 1);
      Pow2Byte(8 * n - 8);
    }
  }

  lemma ByteStep(q: nat, m: nat, p: nat)
    ensures (256 * q + m) * p == q * (256 * p) + m * p
  {
  }

  /** The second loop: the low bytes, last one first. */
  method BytesLoop(v: nat, size: nat) returns (bytes: seq<Byte>, rest: nat)
    ensures rest == v / Pow2(8 * size) && bytes == ToBytes(v % Pow2(8 * size), size)
  {
    rest, bytes := v, [];
    var i := size;
    while i > 0
      invariant 0 <= i <= size && |bytes| == size - i
      invariant v == rest * Pow(256, |bytes|) + Value(bytes)
    {
      i := i - 1;
      var m := rest % 256;
      ValuePrepend(m, bytes);
      ByteStep(rest / 256, m, Pow(256, |bytes|));
      rest := rest / 256;
      bytes := [m] + bytes;
    }
    Pow256(size);
    ValueBound(bytes);
    DivModUnique(v, Pow2(8 * size), rest, Value(bytes));
    ValueInjective(bytes, ToBytes(v % Pow2(8 * size), size));
  }

  /** `DecodeBase58` */
  method DecodeBase58(text: seq<Byte>, size: nat) returns (r: Result<seq<Byte>, Error>)
    ensures r == Decoded(text, size)
  {
    var longValue := DecodeLoop(text);
    if longValue.Err? { return Err(longValue.error); }
    var bytes, rest := BytesLoop(longValue.value, size);
    if rest % TWO64 != 0 { return Err(CannotDecodeToSize); }
    return Ok(bytes);
  }

  // ---------------------------------------------------------------------------
  // Round trip
  // ---------------------------------------------------------------------------

  /** v divided k times by 58. */
  function Quotient(v: nat, k: nat): nat { if k == 0 then v else Quotient(v / 58, k - 1) }

  /** No quotient the encoder tests has 64 zero low bits without being zero. */
  ghost predicate NoFalseZero(v: nat) {
    forall k: nat :: k > 0 ==> Quotient(v, k) == 0 || Quotient(v, k) % TWO64 != 0
  }

  lemma NoFalseZeroStep(v: nat)
    ensures NoFalseZero(v) <==> (v / 58 == 0 || (v / 58) % TWO64 != 0) && NoFalseZero(v / 58)
  {
    assert Quotient(v, 1) == Quotient(v / 58, 0) == v / 58;
    if NoFalseZero(v) {
      forall k: nat | k > 0 ensures Quotient(v / 58, k) == 0 || Quotient(v / 58, k) % TWO64 != 0 {
        assert Quotient(v, k + 1) == Quotient(v / 58, k);
      }
    }
    forall k: nat | k > 1 ensures Quotient(v, k) == Quotient(v / 58, k - 1) {}
  }

  lemma {:induction false} ZeroQuotients(k: nat)
    ensures Quotient(0, k) == 0
  {
    if k > 0 { ZeroQuotients(k - 1); }
  }

  /** The digits stand for the encoded number exactly when the loop does not stop early, and for less otherwise. */
  lemma {:induction false} DigitsValue(v: nat)
    ensures Value58(EncodeDigits(v)) <= v && (Value58(EncodeDigits(v)) == v <==> NoFalseZero(v))
  {
    var q, m := v / 58, v % 58;
    NoFalseZeroStep(v);
    if q % TWO64 == 0 {
      assert [m][..0] == [];
      if q == 0 {
        forall k: nat ensures Quotient(0, k) == 0 { ZeroQuotients(k); }
      }
    } else {
      DigitsValue(q);
      var digits := EncodeDigits(q);
      assert (digits + [m])[..|digits|] == digits;
    }
  }

  /** Decoding an encoded address returns it, leading zeros included, exactly when no quotient looks like zero. */
  lemma AddressRoundTrip(d: seq<Byte>)
    requires |d| == ADDRESS_BYTES
    ensures Decoded(Text(EncodeDigits(Value(d))), ADDRESS_BYTES) == Ok(d) <==> NoFalseZero(Value(d))
  {
    var digits := EncodeDigits(Value(d));
    ParseText(digits);
    DigitsValue(Value(d));
    DecodesSmall(digits, d);
  }

  lemma DecodesSmall(digits: seq<Digit>, d: seq<Byte>)
    requires Value58(digits) <= Value(d)
    ensures DecodeDigits(digits, |d|) == Ok(d) <==> Value58(digits) == Value(d)
  {
    var limit, v := Pow2(8 * |d|), Value58(digits);
    ValueBound(d);
    SmallMod(v, limit);
    SmallMod(0, TWO64);
    if v == Value(d) { ValueInjective(ToBytes(v % limit, |d|), d); }
  }

  lemma EarlyStop(v: nat)
    requires v == 58 * TWO64
    ensures EncodeDigits(v) == [0] && !NoFalseZero(v)
  {
    assert v / 58 == TWO64 && v % 58 == 0;
    NoFalseZeroStep(v);
  }

  /** The address whose number is 58 times 2^64 is encoded as a single zero digit, so it does not come back. */
  lemma FalseZeroAddress(d: seq<Byte>)
    requires |d| == ADDRESS_BYTES && Value(d) == 58 * TWO64
    ensures EncodeDigits(Value(d)) == [0] && Decoded(Text([0]), ADDRESS_BYTES) != Ok(d)
  {
    EarlyStop(Value(d));
    AddressRoundTrip(d);
  }

  // ---------------------------------------------------------------------------
  // Exactly what is decoded
  // ---------------------------------------------------------------------------

  /** The digits stand for the bytes, up to a multiple of 2^64 times what the size can hold. */
  predicate StandsFor(digits: seq<Digit>, b: seq<Byte>, k: nat) {
    k % TWO64 == 0 && Value58(digits) == Value(b) + k * Pow2(8 * |b|)
  }

  /** A text decodes exactly to the bytes that its digits stand for; the excess must be invisible to the last check. */
  lemma DecodedIff(text: seq<Byte>, size: nat, b: seq<Byte>)
    ensures Decoded(text, size) == Ok(b) <==>
            |b| == size && exists digits, k :: Text(digits) == text && StandsFor(digits, b, k)
  {
    if Parse(text).Ok? {
      TextParse(text);
      DecodeDigitsIff(Parse(text).value, size, b);
    }
    forall digits | Text(digits) == text ensures Parse(text) == Ok(digits) { ParseText(digits); }
  }

  lemma DecodeDigitsIff(digits: seq<Digit>, size: nat, b: seq<Byte>)
    ensures DecodeDigits(digits, size) == Ok(b) <==> |b| == size && exists k :: StandsFor(digits, b, k)
  {
    if DecodeDigits(digits, size) == Ok(b) {
      var k := DecodesToStanding(digits, size, b);
    }
    if |b| == size && exists k :: StandsFor(digits, b, k) {
      var k :| StandsFor(digits, b, k);
      StandingDecodes(digits, b, k);
    }
  }

  lemma DecodesToStanding(digits: seq<Digit>, size: nat, b: seq<Byte>) returns (k: nat)
    requires DecodeDigits(digits, size) == Ok(b)
    ensures |b| == size && StandsFor(digits, b, k)
  {
    var v, limit := Value58(digits), Pow2(8 * size);
    var r: nat;
    k, r := Divide(v, limit);
    assert Value(b) == r && |b| == size;
    StandsByParts(digits, b, k, v, limit);
  }

  lemma StandsByParts(digits: seq<Digit>, b: seq<Byte>, k: nat, v: nat, limit: nat)
    requires v == Value58(digits) && limit == Pow2(8 * |b|) && k % TWO64 == 0 && v == Value(b) + k * limit
    ensures StandsFor(digits, b, k)
  {
  }

  lemma StandingDecodes(digits: seq<Digit>, b: seq<Byte>, k: nat)
    requires StandsFor(digits, b, k)
    ensures DecodeDigits(digits, |b|) == Ok(b)
  {
    var v, limit := Value58(digits), Pow2(8 * |b|);
    ValueBound(b);
    DivModUnique(v, limit, k, Value(b));
    SameBytes(v % limit, b);
  }

  lemma SameBytes(v: nat, b: seq<Byte>)
    requires v == Value(b) && v < Pow2(8 * |b|)
    ensures ToBytes(v, |b|) == b
  {
    ValueInjective(ToBytes(v, |b|), b);
  }

  lemma Divide(v: nat, limit: nat) returns (q: nat, r: nat)
    requires limit > 0
    ensures q == v / limit && r == v % limit < limit && v == r + q * limit
  {
    q, r := v / limit, v % limit;
  }

  /** So a number that needs up to 64 bits more than the size has is an error. */
  lemma TooLargeFails(digits: seq<Digit>, size: nat)
    requires Pow2(8 * size) <= Value58(digits) < TWO64 * Pow2(8 * size)
    ensures Decoded(Text(digits), size) == Err(CannotDecodeToSize)
  {
    var v, limit := Value58(digits), Pow2(8 * size);
    ParseText(digits);
    var q, r := Divide(v, limit);
    if q >= TWO64 { MulGap(limit, TWO64 - 1, q); }
    SmallMod(q, TWO64);
  }

  /** An unknown character is an error, and nothing else is reported as one. */
  lemma {:induction false} UnknownCharacterIff(text: seq<Byte>, size: nat)
    ensures Decoded(text, size) == Err(InvalidCharacter) <==> exists i :: 0 <= i < |text| && !InAlphabet(text[i])
  {
    ParseOkIff(text);
  }

  lemma {:induction false} ParseOkIff(text: seq<Byte>)
    ensures Parse(text).Ok? <==> forall i :: 0 <= i < |text| ==> InAlphabet(text[i])
    ensures Parse(text).Err? ==> Parse(text).error == InvalidCharacter
  {
    if text != [] {
      var n := |text| - 1;
      ParseOkIff(text[..n]);
      IndexOfIff(text[n], 0);
      AlphabetIs(text[n]);
      assert forall i :: 0 <= i < |text| ==> text[i] == if i < n then text[..n][i] else text[n];
    }
  }

  lemma {:induction false} IndexOfIff(c: Byte, d: nat)
    requires d <= 58
    ensures SearchFrom(c, d).Ok? <==> exists x: Digit :: d <= x && Character(x) == c
    ensures SearchFrom(c, d).Err? ==> SearchFrom(c, d).error == InvalidCharacter
    decreases 58 - d
  {
    if d < 58 { IndexOfIff(c, d + 1); }
  }

  // ---------------------------------------------------------------------------
  // Text to bytes and back to text
  // ---------------------------------------------------------------------------

  /** At least one digit, and no leading zero unless it is the only digit. */
  predicate Canonical(digits: seq<Digit>) { digits != [] && (|digits| > 1 ==> digits[0] != 0) }

  lemma {:induction false} LeadingDigitCounts(digits: seq<Digit>)
    requires digits != [] && digits[0] != 0
    ensures Value58(digits) > 0
  {
    if |digits| > 1 { LeadingDigitCounts(digits[..|digits| - 1]); }
  }

  /** A number has only one canonical numeral. */
  lemma {:induction false} CanonicalUnique(a: seq<Digit>, b: seq<Digit>)
    requires Canonical(a) && Canonical(b) && Value58(a) == Value58(b)
    ensures a == b
    decreases |a|
  {
    var a0, b0 := a[..|a| - 1], b[..|b| - 1];
    DivModUnique(Value58(a), 58, Value58(a0), a[|a| - 1]);
    DivModUnique(Value58(a), 58, Value58(b0), b[|b| - 1]);
    if |a| > 1 { LeadingDigitCounts(a0); }
    if |b| > 1 { LeadingDigitCounts(b0); }
    if |a| > 1 && |b| > 1 { CanonicalUnique(a0, b0); }
    assert a == a0 + [a[|a| - 1]] && b == b0 + [b[|b| - 1]];
  }

  /** The encoding loop writes the canonical numeral, unless it stops early. */
  lemma {:induction false} EncodesCanonically(v: nat)
    requires NoFalseZero(v)
    ensures Canonical(EncodeDigits(v)) && (v > 0 ==> EncodeDigits(v)[0] != 0)
  {
    NoFalseZeroStep(v);
    if v / 58 > 0 { EncodesCanonically(v / 58); }
  }

  lemma DigitsIff(digits: seq<Digit>)
    ensures EncodeDigits(Value58(digits)) == digits <==> Canonical(digits) && NoFalseZero(Value58(digits))
  {
    DigitsValue(Value58(digits));
    if NoFalseZero(Value58(digits)) {
      EncodesCanonically(Value58(digits));
      if Canonical(digits) { CanonicalUnique(EncodeDigits(Value58(digits)), digits); }
    }
  }

  lemma {:induction false} TextParse(text: seq<Byte>)
    requires Parse(text).Ok?
    ensures Text(Parse(text).value) == text
  {
    if text != [] {
      var n := |text| - 1;
      TextParse(text[..n]);
      assert text == text[..n] + [text[n]];
    }
  }

  /**
    A text that decodes to an address is written back exactly when it is the canonical numeral of a number below
    2^200 none of whose quotients looks like zero.
  */
  lemma TextRoundTripIff(text: seq<Byte>)
    requires Decoded(text, ADDRESS_BYTES).Ok?
    ensures var digits := Parse(text).value;
            Text(EncodeDigits(Value(Decoded(text, ADDRESS_BYTES).value))) == text <==>
            Canonical(digits) && Value58(digits) < Pow2(8 * ADDRESS_BYTES) && NoFalseZero(Value58(digits))
  {
    var digits := Parse(text).value;
    TextParse(text);
    NumberRoundTripIff(digits, Value(Decoded(text, ADDRESS_BYTES).value), Pow2(8 * ADDRESS_BYTES));
    var again := EncodeDigits(Value(Decoded(text, ADDRESS_BYTES).value));
    if Text(again) == text { ParseText(again); }
  }

  lemma NumberRoundTripIff(digits: seq<Digit>, w: nat, limit: nat)
    requires limit > 0 && w == Value58(digits) % limit
    ensures EncodeDigits(w) == digits <==> Canonical(digits) && Value58(digits) < limit && NoFalseZero(Value58(digits))
  {
    DigitsIff(digits);
    DigitsValue(w);
    if Value58(digits) < limit { SmallMod(Value58(digits), limit); }
  }
}
