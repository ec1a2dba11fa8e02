/** Decimal numerals: `std::ostream << n` on the way out, `std::stoi` on the way in. */
module Decimal {
  import opened Text

  const INT_MIN := -0x8000_0000
  const INT_MAX := 0x7FFF_FFFF

  predicate IsDigit(c: char) {
    '0' <= c <= '9'
  }

  lemma DigitRange(c: char)
    ensures IsDigit(c) <==> 48 <= c as int <= 57
  {
  }

  predicate AllDigits(s: string) {
    forall i :: 0 <= i < |s| ==> IsDigit(s[i])
  }

  function Print(n: nat): (s: string)
    ensures s != "" && AllDigits(s)
  {
    if n < 10 then ['0' + n as char] else Print(n / 10) + ['0' + (n % 10) as char]
  }

  function Parse(s: string): nat
    requires AllDigits(s)
  {
    if s == "" then 0
    else Parse(s[..|s| - 1]) * 10 + (s[|s| - 1] - '0') as nat
  }

  lemma {:induction false} ParseUndoesPrint(n: nat)
    ensures Parse(Print(n)) == n
  {
    if n >= 10 {
      ParseUndoesPrint(n / 10);
      assert Print(n)[..|Print(n)| - 1] == Print(n / 10);
    }
  }

  /** Number of leading digits. */
  function DigitRun(s: string): (k: nat)
    ensures k <= |s| && AllDigits(s[..k])
    ensures k < |s| ==> !IsDigit(s[k])
  {
    if s == "" || !IsDigit(s[0]) then 0 else 1 + DigitRun(s[1..])
  }

  function InRange(n: int): Option<int> {
    if INT_MIN <= n <= INT_MAX then Some(n) else None
  }

  /** `std::stoi`: leading space, a sign, the longest run of digits; `None` is its exception. */
  function Stoi(s: string): Option<int> {
    if s != "" && IsSpace(s[0]) then Stoi(s[1..])
    else
      var negative := s != "" && s[0] == '-';
      var body := if s != "" && (s[0] == '-' || s[0] == '+') then s[1..] else s;
      var k := DigitRun(body);
      if k == 0 then None
      else
        var value: int := Parse(body[..k]);
        InRange(if negative then -value else value)
  }

  /** A minus sign negates the numeral; the range is that of a 32-bit `int`. */
  lemma StoiReadsNegative(ds: string)
    requires ds != "" && AllDigits(ds)
    ensures Stoi("-" + ds) == if Parse(ds) <= 2147483648 then Some(-(Parse(ds) as int)) else None
  {
    WholeRun(ds);
    assert ("-" + ds)[1..] == ds;
    StoiOfMinus("-" + ds, ds);
  }

  lemma StoiOfMinus(s: string, ds: string)
    requires s != "" && s[0] == '-' && s[1..] == ds && ds != "" && AllDigits(ds)
    requires DigitRun(ds) == |ds| && ds[..|ds|] == ds
    ensures Stoi(s) == InRange(-(Parse(ds) as int))
  {
  }

  lemma WholeRun(ds: string)
    requires AllDigits(ds)
    ensures DigitRun(ds) == |ds| && ds[..|ds|] == ds
  {
    assert ds + "" == ds;
    DigitRunExact(ds, "");
  }

  /** White space before a number does not matter, nor does a plus sign. */
  lemma StoiSkips(ds: string, space: char)
    requires ds != "" && AllDigits(ds) && IsSpace(space)
    ensures Stoi(ds) == if Parse(ds) <= 2147483647 then Some(Parse(ds)) else None
    ensures Stoi([space] + ds) == Stoi(ds) && Stoi("+" + ds) == Stoi(ds)
  {
    assert ("+" + ds)[1..] == ds && ([space] + ds)[1..] == ds;
    WholeRun(ds);
  }

  /** Without a digit there is no number. */
  lemma StoiNeedsDigit(s: string)
    requires s == "" || (!IsSpace(s[0]) && !IsDigit(s[0]) && s[0] != '-' && s[0] != '+')
    ensures Stoi(s) == None
  {
  }

  lemma DigitRunExact(ds: string, rest: string)
    requires AllDigits(ds) && (rest == "" || !IsDigit(rest[0]))
    ensures DigitRun(ds + rest) == |ds|
  {
    if ds == "" {
      assert ds + rest == rest;
    } else {
      assert (ds + rest)[1..] == ds[1..] + rest;
    }
  }

  /** A numeral followed by anything but a digit is read as its value, or refused when too large. */
  lemma StoiReadsNumeral(ds: string, rest: string)
    requires ds != "" && AllDigits(ds) && (rest == "" || !IsDigit(rest[0]))
    ensures Stoi(ds + rest) == InRange(Parse(ds))
  {
    DigitRunExact(ds, rest);
    assert IsDigit((ds + rest)[0]);
    assert (ds + rest)[..|ds|] == ds;
  }
}
