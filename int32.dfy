/** C#'s 32-bit `int`: its range, its unchecked (wrapping) addition and the
    decimal text `int.TryParse` accepts. */
module Int32 {
  import opened Wrappers
  import opened Text

  const MinInt32: int := -0x8000_0000
  const MaxInt32: int := 0x7FFF_FFFF
  const Modulus: int := 0x1_0000_0000

  newtype int32 = x: int | -0x8000_0000 <= x < 0x8000_0000

  /** Unchecked conversion of a mathematical integer to `int`: the value
      congruent to `x` modulo 2^32 inside the 32-bit range. */
  function Wrap(x: int): (r: int32)
    ensures MinInt32 <= x <= MaxInt32 ==> r as int == x
    ensures (x - r as int) % Modulus == 0
  {
    ((x - MinInt32) % Modulus + MinInt32) as int32
  }

  /** C# `a + b` on `int` in an unchecked context. */
  function Add(a: int32, b: int32): (r: int32)
    ensures MinInt32 <= a as int + b as int <= MaxInt32 ==> r as int == a as int + b as int
    ensures (a as int + b as int - r as int) % Modulus == 0
  {
    Wrap(a as int + b as int)
  }

  /** Wrapping an intermediate sum early does not change the final value:
      a chain of unchecked additions equals the wrapped exact total. */
  lemma WrapAdd(x: int, y: int)
    ensures Wrap(Wrap(x) as int + y) == Wrap(x + y)
  {
    var q := (x - MinInt32) / Modulus;
    assert Wrap(x) as int == x - q * Modulus;
    assert (x - q * Modulus + y - MinInt32) % Modulus == (x + y - MinInt32) % Modulus;
  }

  predicate IsDigit(c: char) { '0' <= c <= '9' }

  predicate AllDigits(s: string) { forall i :: 0 <= i < |s| ==> IsDigit(s[i]) }

  /** The white space `NumberStyles.Integer` lets `int.TryParse` skip at
      either end: U+0009..U+000D and U+0020. */
  predicate IsNumberWhite(c: char) { c == ' ' || '\t' <= c <= '\r' }

  /** The value of a string of decimal digits, most significant first. */
  function DigitsValue(d: string): nat
    requires AllDigits(d)
  {
    if d == [] then 0
    else 10 * DigitsValue(d[..|d| - 1]) + (d[|d| - 1] as int - '0' as int)
  }

  /** `int.TryParse(s, out v)` with the invariant culture: optional white
      space, then a signed decimal; anything else fails. */
  function ParseInt32(s: string): Option<int32>
  {
    ParseTrimmed(Trim(s, IsNumberWhite))
  }

  /** `int.TryParse` succeeds exactly on a numeral in range between white
      space, and yields the value that numeral spells. */
  lemma ParseInt32Numeral(s: string)
    ensures var t := Trim(s, IsNumberWhite);
      ParseInt32(s).Some? ==> exists j :: Numeral(t, j) && ParseInt32(s).value as int == NumeralValue(t, j)
    ensures var t := Trim(s, IsNumberWhite);
      forall j :: Numeral(t, j) && MinInt32 <= NumeralValue(t, j) <= MaxInt32 ==> ParseInt32(s) == Some(NumeralValue(t, j) as int32)
  {
    ParseTrimmedNumeral(Trim(s, IsNumberWhite));
  }

  /** What `ParseTrimmed` accepts is exactly a numeral in range. */
  lemma ParseTrimmedNumeral(t: string)
    ensures var r := ParseTrimmed(t);
      r.Some? ==> exists j :: Numeral(t, j) && r.value as int == NumeralValue(t, j)
    ensures forall j :: Numeral(t, j) && MinInt32 <= NumeralValue(t, j) <= MaxInt32 ==> ParseTrimmed(t) == Some(NumeralValue(t, j) as int32)
  {
    if t != [] {
      var j := if t[0] == '+' || t[0] == '-' then 1 else 0;
      forall j' | Numeral(t, j') ensures j' == j {
        if j' == 0 { assert IsDigit(t[0]); }
      }
      var r := ParseTrimmed(t);
      if r.Some? {
        assert Numeral(t, j) && r.value as int == NumeralValue(t, j);
      }
    }
  }

  /** `t[j..]` is a non-empty run of digits and `t[..j]` is empty or a
      single sign. */
  predicate Numeral(t: string, j: int)
  {
    0 <= j <= 1 && j < |t| && (j == 1 ==> t[0] == '+' || t[0] == '-') && AllDigits(t[j..])
  }

  /** The value a numeral spells: its digits, negated after a `-`. */
  function NumeralValue(t: string, j: int): int
    requires Numeral(t, j)
  {
    if j == 1 && t[0] == '-' then -(DigitsValue(t[j..]) as int) else DigitsValue(t[j..])
  }

  /** The text between the white space: an optional `+` or `-`, at least
      one digit, and a value inside the 32-bit range. */
  function ParseTrimmed(t: string): Option<int32>
  {
    if t == [] then None
    else
      var signed := t[0] == '+' || t[0] == '-';
      var digits := if signed then t[1..] else t;
      if digits == [] || !AllDigits(digits) then None
      else
        var v: int := if t[0] == '-' then -(DigitsValue(digits) as int) else DigitsValue(digits);
        if MinInt32 <= v <= MaxInt32 then Some(v as int32) else None
  }

  /** The shortest decimal digits of `k`. */
  function NatDigits(k: nat): (d: string)
    ensures |d| >= 1 && AllDigits(d)
    ensures DigitsValue(d) == k
    ensures IsDigit(d[0]) && IsDigit(d[|d| - 1])
  {
    var last := ['0' + (k % 10) as char];
    if k < 10 then last
    else
      var d := NatDigits(k / 10) + last;
      assert d[..|d| - 1] == NatDigits(k / 10);
      d
  }

  /** The way an author writes a delta in an `affect` list: `+3`, `-2`, `+0`. */
  function SignedDecimal(n: int32): (s: string)
    ensures |s| >= 2 && (s[0] == '+' || s[0] == '-') && AllDigits(s[1..])
  {
    (if n < 0 then "-" else "+") + NatDigits(if n < 0 then -(n as int) else n as int)
  }

  /** A sign followed by digits reads as the signed value when that is in
      range. */
  lemma ParseSigned(c: char, d: string, v: int)
    requires (c == '+' || c == '-') && |d| >= 1 && AllDigits(d)
    requires v == if c == '-' then -(DigitsValue(d) as int) else DigitsValue(d)
    requires MinInt32 <= v <= MaxInt32
    ensures ParseTrimmed([c] + d) == Some(v as int32)
  {
    assert ([c] + d)[1..] == d;
  }

  /** A sign followed by digits has no white space to trim. */
  lemma TrimSigned(c: char, d: string)
    requires (c == '+' || c == '-') && |d| >= 1 && AllDigits(d)
    ensures Trim([c] + d, IsNumberWhite) == [c] + d
  {
    var s := [c] + d;
    assert s[|s| - 1] == d[|d| - 1];
  }

  /** The sign and the digits of `n` read back as `n`. */
  lemma ParseSignAndMagnitude(n: int32, c: char, d: string)
    requires c == (if n < 0 then '-' else '+') && |d| >= 1 && AllDigits(d)
    requires DigitsValue(d) == if n < 0 then -(n as int) else n as int
    ensures ParseInt32([c] + d) == Some(n)
  {
    var k: int := DigitsValue(d);
    assert (if c == '-' then -k else k) == n as int;
    TrimSigned(c, d);
    ParseSigned(c, d, n as int);
  }

  /** `int.TryParse` reads back exactly the value a signed decimal spells. */
  lemma ParseSignedDecimal(n: int32)
    ensures ParseInt32(SignedDecimal(n)) == Some(n)
  {
    var c := if n < 0 then '-' else '+';
    var d := NatDigits(if n < 0 then -(n as int) else n as int);
    assert SignedDecimal(n) == [c] + d;
    ParseSignAndMagnitude(n, c, d);
  }

  /** A plain run of digits parses to its value when that is in range. */
  lemma ParseDigits(d: string)
    requires |d| >= 1 && AllDigits(d) && DigitsValue(d) <= MaxInt32
    ensures ParseInt32(d) == Some(DigitsValue(d) as int32)
  {
    assert IsDigit(d[0]) && IsDigit(d[|d| - 1]);
    assert Trim(d, IsNumberWhite) == d;
    ParseUnsigned(d);
  }

  /** Digits without a sign read as their value when that is in range. */
  lemma ParseUnsigned(d: string)
    requires |d| >= 1 && AllDigits(d) && DigitsValue(d) <= MaxInt32
    ensures ParseTrimmed(d) == Some(DigitsValue(d) as int32)
  {
    assert IsDigit(d[0]);
  }

  /** Plain digits within range parse too, "0" among them. */
  lemma ParseNatDigits(k: nat)
    requires k <= MaxInt32
    ensures ParseInt32(NatDigits(k)) == Some(k as int32)
  {
    ParseDigits(NatDigits(k));
  }
}
