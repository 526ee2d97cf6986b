/**
 * Decimal text of unsigned machine integers: `usize::to_string` and
 * `str::parse::<usize>`, for a 64-bit `usize`.
 */
module Decimal {
  import opened Wrappers

  /** `usize::MAX` on a 64-bit target. */
  const USIZE_MAX: nat := 0xFFFF_FFFF_FFFF_FFFF

  predicate IsDigit(c: char) {
    '0' <= c <= '9'
  }

  predicate AllDigits(s: string) {
    forall i :: 0 <= i < |s| ==> IsDigit(s[i])
  }

  /** The number a run of decimal digits denotes (most significant first). */
  function DigitsValue(s: string): nat
    requires AllDigits(s)
  {
    if s == [] then 0 else DigitsValue(s[..|s| - 1]) * 10 + (s[|s| - 1] as int - '0' as int)
  }

  function DigitChar(d: nat): (c: char)
    requires d < 10
    ensures IsDigit(c) && c as int - '0' as int == d
  {
    ('0' as int + d) as char
  }

  /** `n.to_string()`: the shortest decimal text of `n`. */
  function ToDecimal(n: nat): (s: string)
    ensures |s| >= 1 && AllDigits(s)
    ensures |s| > 1 ==> s[0] != '0'
  {
    if n < 10 then [DigitChar(n)] else ToDecimal(n / 10) + [DigitChar(n % 10)]
  }

  /** The digits that follow the optional leading '+'. */
  function Magnitude(s: string): string {
    if |s| > 0 && s[0] == '+' then s[1..] else s
  }

  /**
   * `s.parse::<usize>()`: an optional '+', then one or more ASCII digits
   * (leading zeros allowed) whose value fits in a `usize`. Anything else,
   * including the empty string, a lone '+', a '-' sign and surrounding
   * blanks, is an error.
   */
  function ParseUsize(s: string): (r: Option<nat>)
    ensures r.Some? <==> |Magnitude(s)| > 0 && AllDigits(Magnitude(s)) && DigitsValue(Magnitude(s)) <= USIZE_MAX
    ensures r.Some? ==> r.value == DigitsValue(Magnitude(s)) && r.value <= USIZE_MAX
  {
    var d := Magnitude(s);
    if |d| == 0 || !AllDigits(d) then None
    else if DigitsValue(d) <= USIZE_MAX then Some(DigitsValue(d))
    else None
  }

  /** Reading back the text `to_string` writes gives the number. */
  lemma {:induction false} ToDecimalValue(n: nat)
    ensures DigitsValue(ToDecimal(n)) == n
    decreases n
  {
    if n >= 10 {
      ToDecimalValue(n / 10);
      var s := ToDecimal(n);
      assert s[..|s| - 1] == ToDecimal(n / 10);
    }
  }

  /** A `usize` printed with `to_string` parses back to itself. */
  lemma ParseToDecimal(n: nat)
    requires n <= USIZE_MAX
    ensures ParseUsize(ToDecimal(n)) == Some(n)
  {
    ToDecimalValue(n);
    assert Magnitude(ToDecimal(n)) == ToDecimal(n);
  }

  lemma {:induction false} LeadingDigitPositive(s: string)
    requires |s| >= 1 && AllDigits(s) && s[0] != '0'
    ensures DigitsValue(s) > 0
    decreases |s|
  {
    if |s| > 1 {
      LeadingDigitPositive(s[..|s| - 1]);
    }
  }

  /** Digits without a leading zero are exactly what `to_string` writes for their value. */
  lemma {:induction false} CanonicalDigits(s: string)
    requires |s| >= 1 && AllDigits(s)
    requires |s| > 1 ==> s[0] != '0'
    ensures ToDecimal(DigitsValue(s)) == s
    decreases |s|
  {
    if |s| > 1 {
      var init, last := s[..|s| - 1], s[|s| - 1] as int - '0' as int;
      CanonicalDigits(init);
      LeadingDigitPositive(init);
      var n := DigitsValue(s);
      assert n == DigitsValue(init) * 10 + last;
      assert n / 10 == DigitsValue(init) && n % 10 == last;
      assert DigitChar(last) == s[|s| - 1];
      assert s == init + [s[|s| - 1]];
    }
  }

  /**
   * The text of a parsed length differs from `to_string`'s only by a '+'
   * sign and leading zeros.
   */
  lemma ParsedIsCanonicalUpToZeros(s: string, zeros: nat, n: nat)
    requires ParseUsize(s) == Some(n)
    requires zeros < |Magnitude(s)|
    requires forall i :: 0 <= i < zeros ==> Magnitude(s)[i] == '0'
    requires zeros + 1 < |Magnitude(s)| ==> Magnitude(s)[zeros] != '0'
    ensures ToDecimal(n) == Magnitude(s)[zeros..]
  {
    var d := Magnitude(s);
    DropLeadingZeros(d, zeros);
    CanonicalDigits(d[zeros..]);
  }

  lemma {:induction false} DropLeadingZeros(d: string, zeros: nat)
    requires zeros <= |d| && AllDigits(d)
    requires forall i :: 0 <= i < zeros ==> d[i] == '0'
    ensures DigitsValue(d[zeros..]) == DigitsValue(d)
    decreases |d|
  {
    if zeros < |d| {
      DropLeadingZeros(d[..|d| - 1], zeros);
      assert d[zeros..][..|d[zeros..]| - 1] == d[..|d| - 1][zeros..];
    } else {
      ZerosValue(d);
    }
  }

  lemma {:induction false} ZerosValue(d: string)
    requires forall i :: 0 <= i < |d| ==> d[i] == '0'
    ensures AllDigits(d) && DigitsValue(d) == 0
    decreases |d|
  {
    if d != [] {
      ZerosValue(d[..|d| - 1]);
    }
  }
}
