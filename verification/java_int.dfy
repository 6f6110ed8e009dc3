/** Java `int` arithmetic and decimal text: `Integer.parseInt` /
    `Integer.valueOf`, `Integer.toString` / `String.valueOf` / `"" + n`, and
    the wrapping `++` on a 32-bit two's-complement int. */
module JavaInt {
  import opened Wrappers

  const MinInt: int := -0x8000_0000
  const MaxInt: int := 0x7fff_ffff

  predicate InInt32(n: int) { MinInt <= n <= MaxInt }

  predicate IsDigit(c: char) { '0' <= c <= '9' }

  /** A non-empty run of ASCII decimal digits (the regex `\d+`). */
  predicate IsDigits(s: string) {
    |s| > 0 && forall i :: 0 <= i < |s| ==> IsDigit(s[i])
  }

  /** The value of a digit string, most significant digit first. */
  function DigitsValue(s: string): (v: nat)
    requires forall i :: 0 <= i < |s| ==> IsDigit(s[i])
  {
    if s == [] then 0
    else
      assert IsDigit(s[|s| - 1]);
      DigitsValue(s[..|s| - 1]) * 10 + (s[|s| - 1] as int - '0' as int)
  }

  function DigitChar(d: nat): (c: char)
    requires d < 10
    ensures IsDigit(c) && c as int - '0' as int == d
  {
    ('0' as int + d) as char
  }

  /** Decimal text of a natural number, without leading zeros. */
  function NatToString(n: nat): (s: string)
    decreases n
  {
    if n < 10 then [DigitChar(n)] else NatToString(n / 10) + [DigitChar(n % 10)]
  }

  /** `Integer.toString(n)`: a minus sign for negative values, then the digits. */
  function IntToString(n: int): (s: string)
  {
    if n < 0 then "-" + NatToString(-n) else NatToString(n)
  }

  /** The texts `Integer.parseInt` accepts in radix 10: digits of a value
      within the int range, or a `+` or `-` followed by such digits whose
      signed value is within the int range. */
  predicate IsIntText(s: string) {
    (IsDigits(s) && DigitsValue(s) <= MaxInt) ||
    (|s| > 1 && (s[0] == '+' || s[0] == '-') && IsDigits(s[1..]) &&
     InInt32(if s[0] == '-' then -(DigitsValue(s[1..]) as int) else DigitsValue(s[1..]) as int))
  }

  /** `Integer.parseInt(s)` in radix 10: an optional `+` or `-`, then at
      least one digit, and the value must fit an int; anything else is a
      NumberFormatException, here `None`. */
  function ParseInt(s: string): (r: Option<int>)
    ensures r.Some? ==> InInt32(r.value)
    ensures r.Some? ==> |s| > 0 && (IsDigit(s[0]) || s[0] == '+' || s[0] == '-')
    ensures IsDigits(s) ==> (r.Some? <==> DigitsValue(s) <= MaxInt)
    ensures IsDigits(s) && r.Some? ==> r.value == DigitsValue(s)
    ensures r.Some? <==> IsIntText(s)
    ensures r.Some? && s[0] == '-' ==> IsDigits(s[1..]) && r.value == -(DigitsValue(s[1..]) as int)
    ensures r.Some? && s[0] == '+' ==> IsDigits(s[1..]) && r.value == DigitsValue(s[1..])
  {
    if |s| == 0 then None
    else if s[0] == '-' || s[0] == '+' then
      if IsDigits(s[1..]) then
        var v: int := if s[0] == '-' then -(DigitsValue(s[1..]) as int) else DigitsValue(s[1..]);
        if InInt32(v) then Some(v) else None
      else None
    else if IsDigits(s) then
      if DigitsValue(s) <= MaxInt then Some(DigitsValue(s)) else None
    else None
  }

  /** Java `++n` on an int: wraps from MaxInt to MinInt. */
  function Inc32(n: int): (r: int)
    requires InInt32(n)
    ensures InInt32(r)
    ensures n < MaxInt ==> r == n + 1
    ensures n == MaxInt ==> r == MinInt
  {
    if n == MaxInt then MinInt else n + 1
  }

  /** The decimal text of a natural number is a digit string whose value is
      that number. */
  lemma {:induction false} NatToStringValue(n: nat)
    ensures IsDigits(NatToString(n))
    ensures DigitsValue(NatToString(n)) == n
    decreases n
  {
    if n >= 10 {
      NatToStringValue(n / 10);
      var s := NatToString(n);
      assert s[..|s| - 1] == NatToString(n / 10);
    }
  }

  /** Round trip: the text Java writes for an int (`String.valueOf`) is read
      back by `Integer.parseInt` as the same int. */
  lemma ParseIntToString(n: int)
    requires InInt32(n)
    ensures ParseInt(IntToString(n)) == Some(n)
  {
    if n < 0 {
      NatToStringValue(-n);
      assert IntToString(n)[1..] == NatToString(-n);
    } else {
      NatToStringValue(n);
    }
  }

  /** The text of a non-negative int has no sign: it is a plain digit string. */
  lemma IntToStringDigits(n: int)
    requires n >= 0
    ensures IsDigits(IntToString(n)) && DigitsValue(IntToString(n)) == n
  {
    NatToStringValue(n);
  }

  /** The text of any int ends in a digit. */
  lemma IntToStringEndsInDigit(n: int)
    ensures |IntToString(n)| > 0 && IsDigit(IntToString(n)[|IntToString(n)| - 1])
  {
    var m: nat := if n < 0 then -n else n;
    NatToStringValue(m);
    var t := NatToString(m);
    assert IsDigit(t[|t| - 1]);
    assert IntToString(n)[|IntToString(n)| - 1] == t[|t| - 1];
  }

  /** The text of a negative int starts with a minus sign. */
  lemma IntToStringNegative(n: int)
    requires n < 0
    ensures |IntToString(n)| > 1 && IntToString(n)[0] == '-'
    ensures !IsDigits(IntToString(n))
  {
  }
}
