/** Decimal numerals, as package strconv and package fmt print and read them. */
module Decimal {
  import opened Wrappers
  import opened Arithmetic

  const MAX_INT64: int := 0x7FFF_FFFF_FFFF_FFFF

  function DigitChar(d: nat): (c: char)
    requires d < 10
    ensures '0' <= c <= '9' && c as int - '0' as int == d
  {
    '0' + d as char
  }

  predicate IsDigit(c: char) {
    '0' <= c <= '9'
  }

  predicate AllDigits(s: string) {
    forall i :: 0 <= i < |s| ==> IsDigit(s[i])
  }

  function Print(n: nat): (s: string)
    ensures s != "" && AllDigits(s)
  {
    if n < 10 then [DigitChar(n)] else Print(n / 10) + [DigitChar(n % 10)]
  }

  function ValueOf(s: string): nat
    requires AllDigits(s)
  {
    if s == "" then 0
    else ValueOf(s[..|s| - 1]) * 10 + (s[|s| - 1] as int - '0' as int)
  }

  /** Reading what was printed gives the number back. */
  lemma {:induction false} ValuePrint(n: nat)
    ensures ValueOf(Print(n)) == n
  {
    if n >= 10 {
      ValuePrint(n / 10);
      assert Print(n)[..|Print(n)| - 1] == Print(n / 10);
    }
  }

  lemma PrintIsInjective(m: nat, n: nat)
    requires Print(m) == Print(n)
    ensures m == n
  {
    ValuePrint(m);
    ValuePrint(n);
  }

  function Pow10(k: nat): (p: nat)
    ensures p >= 1
  {
    if k == 0 then 1 else 10 * Pow10(k - 1)
  }

  lemma {:induction false} PrintLength(n: nat, k: nat)
    requires k >= 1 && n < Pow10(k)
    ensures |Print(n)| <= k
  {
    if n >= 10 {
      PrintLength(n / 10, k - 1);
    }
  }

  lemma {:induction false} PrintLengthByBits(n: nat, k: nat)
    requires n < Pow2(k)
    ensures |Print(n)| <= k + 1
  {
    if n >= 10 {
      PrintLengthByBits(n / 10, k - 1);
    }
  }

  /** `strconv.ParseInt` to base 10 and 64 bits: an optional sign, at least one digit, and the range. */
  function ParseInt64(s: string): (r: Option<int>)
    ensures r.Some? ==> -MAX_INT64 - 1 <= r.value <= MAX_INT64
  {
    var signed := s != "" && (s[0] == '-' || s[0] == '+');
    var digits := if signed then s[1..] else s;
    if digits == "" || !AllDigits(digits) then None
    else
      var v: int := ValueOf(digits);
      var n := if signed && s[0] == '-' then -v else v;
      if -MAX_INT64 - 1 <= n <= MAX_INT64 then Some(n) else None
  }

  /** Signs are read, and the range is that of 64 bits, which reaches one further below zero. */
  lemma ParseSigned(n: int)
    requires n >= 0
    ensures ParseInt64("-" + Print(n)) == if n <= MAX_INT64 + 1 then Some(-n) else None
    ensures ParseInt64("+" + Print(n)) == if n <= MAX_INT64 then Some(n) else None
    ensures ParseInt64(Print(n)) == if n <= MAX_INT64 then Some(n) else None
  {
    hide Print, AllDigits;
    var s := Print(n);
    ValuePrint(n);
    assert '0' <= s[0] <= '9' by { FirstIsDigit(s); }
    Signed('-', s);
    Signed('+', s);
  }

  lemma FirstIsDigit(s: string)
    requires s != "" && AllDigits(s)
    ensures '0' <= s[0] <= '9'
  {
    assert IsDigit(s[0]);
  }

  lemma Signed(sign: char, digits: string)
    ensures ([sign] + digits)[0] == sign && ([sign] + digits)[1..] == digits
  {
  }

  lemma ParsePrinted(n: nat)
    requires n <= MAX_INT64
    ensures ParseInt64(Print(n)) == Some(n)
    ensures |Print(n)| <= 19
  {
    ValuePrint(n);
    assert IsDigit(Print(n)[0]);
    assert Pow10(5) == 100_000;
    assert Pow10(10) == 10_000_000_000;
    assert Pow10(15) == 1_000_000_000_000_000;
    assert Pow10(19) == 10_000_000_000_000_000_000;
    PrintLength(n, 19);
  }
}
