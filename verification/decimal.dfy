/** Decimal text of integers, as Rust's `format!("{}", n)` writes an `i64`, and the parse that inverts it. */
module Decimal {

  predicate IsDigit(c: char) {
    '0' <= c <= '9'
  }

  function DigitChar(d: nat): (c: char)
    requires d < 10
    ensures IsDigit(c) && c as int - '0' as int == d
  {
    ('0' as int + d) as char
  }

  /** Shortest decimal spelling of a natural number, most significant digit first. */
  function NatToString(n: nat): (s: string)
    ensures s != [] && forall c | c in s :: IsDigit(c)
  {
    if n < 10 then [DigitChar(n)] else NatToString(n / 10) + [DigitChar(n % 10)]
  }

  /** A minus sign for negative numbers, then the digits of the magnitude. */
  function IntToString(i: int): (s: string)
    ensures s != [] && forall c | c in s[1..] :: IsDigit(c)
    ensures s[0] == '-' <==> i < 0
    ensures IsDigit(s[0]) <==> i >= 0
  {
    if i < 0 then
      var digits := NatToString(-i);
      assert ("-" + digits)[1..] == digits;
      "-" + digits
    else
      var digits := NatToString(i);
      assert digits[0] in digits && forall c | c in digits[1..] :: c in digits;
      digits
  }

  function ParseNat(s: string): nat
    requires forall c | c in s :: IsDigit(c)
  {
    if s == [] then 0
    else
      var last := s[|s| - 1];
      assert last in s && IsDigit(last);
      ParseNat(s[..|s| - 1]) * 10 + (last as int - '0' as int)
  }

  function ParseInt(s: string): int
    requires s != []
    requires forall c | c in s[1..] :: IsDigit(c)
    requires s[0] == '-' || IsDigit(s[0])
  {
    if s[0] == '-' then -(ParseNat(s[1..]) as int) else ParseNat(s)
  }

  lemma {:induction false} ParseNatToString(n: nat)
    ensures ParseNat(NatToString(n)) == n
  {
    if n >= 10 {
      var s := NatToString(n);
      ParseNatToString(n / 10);
      assert s[..|s| - 1] == NatToString(n / 10);
    }
  }

  /** Parsing the text gives the number back, so distinct numbers have distinct texts. */
  lemma ParseIntToString(i: int)
    ensures var s := IntToString(i);
            && (forall c | c in s[1..] :: IsDigit(c))
            && (s[0] == '-' || IsDigit(s[0]))
            && ParseInt(s) == i
  {
    var s := IntToString(i);
    if i < 0 {
      assert s[1..] == NatToString(-i);
      ParseNatToString(-i);
    } else {
      assert s[0] in s;
      assert forall c | c in s[1..] :: c in s;
      ParseNatToString(i);
    }
  }

  lemma IntToStringInjective(a: int, b: int)
    requires IntToString(a) == IntToString(b)
    ensures a == b
  {
    ParseIntToString(a);
    ParseIntToString(b);
  }
}
