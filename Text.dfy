/** Decimal text: `std::to_string` for the form keys and the leaderboard
    time, and the strtol-based `std::stoi` / `std::stoll` with their
    exceptions as None. */
module Text {
  import opened Wrappers

  const IntMin: int := -0x8000_0000
  const IntMax: int := 0x7fff_ffff
  const LongMin: int := -0x8000_0000_0000_0000
  const LongMax: int := 0x7fff_ffff_ffff_ffff

  predicate IsDigit(c: char) {
    '0' <= c <= '9'
  }

  /** `isspace` in the C locale: space, \t, \n, \v, \f and \r. */
  predicate IsSpace(c: char) {
    c == ' ' || ('\t' <= c <= '\r')
  }

  predicate AllDigits(s: string) {
    forall i :: 0 <= i < |s| ==> IsDigit(s[i])
  }

  function DigitChar(d: nat): (c: char)
    requires d < 10
    ensures IsDigit(c)
  {
    ('0' as int + d) as char
  }

  function DigitValue(c: char): (d: nat)
    requires IsDigit(c)
    ensures d < 10 && DigitChar(d) == c
  {
    c as int - '0' as int
  }

  /** `std::to_string` of a non-negative number: its decimal digits, most
      significant first, without leading zeros. */
  function NatToString(n: nat): (s: string)
    ensures |s| > 0 && AllDigits(s)
    ensures s[0] == '0' ==> n == 0
  {
    if n < 10 then [DigitChar(n)] else NatToString(n / 10) + [DigitChar(n % 10)]
  }

  /** `std::to_string` of any int. */
  function IntToString(i: int): (s: string)
    ensures |s| > 0
    ensures i < 0 <==> s[0] == '-'
  {
    if i < 0 then "-" + NatToString(-i) else NatToString(i)
  }

  /** The number a string of decimal digits denotes. */
  function DigitsValue(s: string): nat
    requires AllDigits(s)
  {
    if |s| == 0 then 0 else DigitsValue(s[..|s| - 1]) * 10 + DigitValue(s[|s| - 1])
  }

  /** Reading the digits of n gives n back. */
  lemma {:induction false} DigitsOfNat(n: nat)
    ensures DigitsValue(NatToString(n)) == n
  {
    if n >= 10 {
      var s := NatToString(n);
      DigitsOfNat(n / 10);
      assert s[..|s| - 1] == NatToString(n / 10);
    }
  }

  /** Distinct numbers have distinct decimal forms, so `"question_text_" +
      std::to_string(i)` names a different form field for every i. */
  lemma NatToStringInjective(m: nat, n: nat)
    requires NatToString(m) == NatToString(n)
    ensures m == n
  {
    DigitsOfNat(m);
    DigitsOfNat(n);
  }

  /** Number of leading white-space characters. */
  function SpaceRun(s: string): (k: nat)
    ensures k <= |s|
    ensures forall i :: 0 <= i < k ==> IsSpace(s[i])
    ensures k < |s| ==> !IsSpace(s[k])
  {
    if |s| == 0 || !IsSpace(s[0]) then 0 else 1 + SpaceRun(s[1..])
  }

  /** Number of leading digits. */
  function DigitRun(s: string): (k: nat)
    ensures k <= |s|
    ensures AllDigits(s[..k])
    ensures k < |s| ==> !IsDigit(s[k])
  {
    if |s| == 0 || !IsDigit(s[0]) then 0
    else
      var k := 1 + DigitRun(s[1..]);
      assert s[..k] == [s[0]] + s[1..][..k - 1];
      k
  }

  /** strtol in base 10 with the range check of `std::stoi` / `std::stoll`:
      leading white space is skipped, an optional sign is read, then the
      longest run of digits, which must not be empty; the rest of the
      string is ignored. No digits (invalid_argument) or a value outside
      [lo, hi] (out_of_range) is None. */
  function ParseInt(s: string, lo: int, hi: int): (r: Option<int>)
    ensures r.Some? ==> lo <= r.value <= hi
  {
    var t := s[SpaceRun(s)..];
    var signed := |t| > 0 && (t[0] == '-' || t[0] == '+');
    var u := if signed then t[1..] else t;
    var k := DigitRun(u);
    if k == 0 then None
    else
      var m: int := DigitsValue(u[..k]);
      var v := if signed && t[0] == '-' then -m else m;
      if lo <= v <= hi then Some(v) else None
  }

  /** `std::stoi`. */
  function Stoi(s: string): Option<int> {
    ParseInt(s, IntMin, IntMax)
  }

  /** `std::stoll`. */
  function Stoll(s: string): Option<int> {
    ParseInt(s, LongMin, LongMax)
  }

  /** Parsing the decimal form of i gives i back whenever i is in range. */
  lemma ParseIntToString(i: int, lo: int, hi: int)
    requires lo <= i <= hi
    ensures ParseInt(IntToString(i), lo, hi) == Some(i)
  {
    var s := IntToString(i);
    var n: nat := if i < 0 then -i else i;
    DigitsOfNat(n);
    assert SpaceRun(s) == 0;
    assert s[0..] == s;
    var u := if i < 0 then s[1..] else s;
    assert u == NatToString(n);
    assert DigitRun(u) == |u|;
    assert u[..|u|] == u;
  }

  /** Text that does not start with a digit, a sign or white space is
      rejected: `std::stoi("abc")` throws. */
  lemma ParseIntNeedsDigits(s: string, lo: int, hi: int)
    requires |s| > 0 && !IsDigit(s[0]) && !IsSpace(s[0]) && s[0] != '-' && s[0] != '+'
    ensures ParseInt(s, lo, hi) == None
  {
    assert SpaceRun(s) == 0;
    assert s[0..] == s;
  }
}
