/** Numbers in decimal, printed and read back. */
module Decimals {
  import opened Widths

  function Digit(d: nat): char
    requires d < 10
  {
    ('0' as int + d) as char
  }

  predicate IsDigit(c: char) {
    '0' as int <= c as int <= '9' as int
  }

  /** Decimal, as `std::to_string` prints it. */
  function ToString(n: nat): string {
    if n < 10 then [Digit(n)] else ToString(n / 10) + [Digit(n % 10)]
  }

  predicate IsSpace(c: char) {
    c == ' ' || '\t' <= c <= '\r'
  }

  function Trim(s: string): string {
    if s != "" && IsSpace(s[0]) then Trim(s[1..]) else s
  }

  /** The number the leading digits continue. */
  function Number(s: string, sofar: nat): nat {
    if s != "" && IsDigit(s[0]) then Number(s[1..], 10 * sofar + (s[0] as int - '0' as int)) else sofar
  }

  /** The number at the beginning: after white space, line ends included, and a sign, up to the first
      non-digit. */
  function Leading(s: string): int {
    var t := Trim(s);
    if t != "" && t[0] == '-' then 0 - Number(t[1..], 0) as int
    else if t != "" && t[0] == '+' then Number(t[1..], 0)
    else Number(t, 0)
  }

  /** A 64-bit number stays at its bounds. */
  function Saturated(n: int): int {
    if n >= TWO_64 / 2 then TWO_64 / 2 - 1 else if n < -(TWO_64 / 2) then -(TWO_64 / 2) else n
  }

  /** `atoi`: reads a 64-bit number and keeps its low 32 bits. */
  function Atoi(s: string): int {
    Wrapped(Saturated(Leading(s)), TWO_32)
  }

  lemma {:induction false} NumberReadsOn(n: nat, rest: string)
    ensures Number(ToString(n) + rest, 0) == Number(rest, n)
  {
    if n < 10 {
      assert (ToString(n) + rest)[1..] == rest;
    } else {
      var d := [Digit(n % 10)];
      assert ToString(n) + rest == ToString(n / 10) + (d + rest);
      NumberReadsOn(n / 10, d + rest);
      assert (d + rest)[1..] == rest;
    }
  }

  lemma {:induction false} AllDigits(n: nat)
    ensures ToString(n) != "" && forall c :: c in ToString(n) ==> IsDigit(c)
  {
    if n >= 10 {
      AllDigits(n / 10);
    }
  }

  /** Reading back what was printed. */
  lemma LeadingInverts(n: nat, rest: string)
    requires rest != "" && !IsDigit(rest[0])
    ensures Leading(ToString(n) + rest) == n
  {
    AllDigits(n);
    NumberReadsOn(n, rest);
    assert (ToString(n) + rest)[0] == ToString(n)[0] && ToString(n)[0] in ToString(n);
  }

  /** A number is printed without a zero in front. */
  lemma {:induction false} NoLeadingZero(n: nat)
    requires n > 0
    ensures ToString(n)[0] != '0'
  {
    if n >= 10 {
      NoLeadingZero(n / 10);
    }
  }

  /** White space is passed over. */
  lemma SpaceIsSkipped(space: char, s: string)
    requires space in {' ', '\t', '\n', 11 as char, 12 as char, '\r'}
    ensures Leading([space] + s) == Leading(s)
  {
    assert ([space] + s)[1..] == s;
  }

  /** One sign is read. */
  lemma SignIsRead(n: nat, rest: string)
    requires rest != "" && !IsDigit(rest[0])
    ensures Leading("-" + ToString(n) + rest) + n == 0 && Leading("+" + ToString(n) + rest) == n
  {
    hide ToString;
    NumberReadsOn(n, rest);
    var digits := ToString(n) + rest;
    assert "-" + ToString(n) + rest == "-" + digits && "+" + ToString(n) + rest == "+" + digits;
    SignedLeading('-', digits);
    SignedLeading('+', digits);
    assert Number(digits, 0) == n;
  }

  lemma SignedLeading(sign: char, s: string)
    requires sign == '-' || sign == '+'
    ensures Leading([sign] + s) == if sign == '-' then 0 - Number(s, 0) as int else Number(s, 0)
  {
    hide Number;
    assert ([sign] + s)[1..] == s;
  }

  /** `atoi` is the number itself within 32 bits, leaves out multiples of 2^32 within 64, and is -1 above and 0
      below. */
  lemma AtoiIs(s: string)
    ensures var n, m := Leading(s), TWO_64 / 2;
      && -(TWO_32 / 2) <= Atoi(s) < TWO_32 / 2
      && (-m <= n < m ==> (n - Atoi(s)) % TWO_32 == 0) && (n >= m ==> Atoi(s) == -1) && (n < -m ==> Atoi(s) == 0)
  {
    hide Leading;
    assert (TWO_64 / 2 - 1) % TWO_32 == TWO_32 - 1;
    var n := Saturated(Leading(s));
    Complement(n);
  }

  lemma Complement(n: int)
    ensures (n - n % TWO_32) % TWO_32 == 0 && (n - (n % TWO_32 - TWO_32)) % TWO_32 == 0
  {
    var q := n / TWO_32;
    assert n - n % TWO_32 == q * TWO_32;
    assert n - (n % TWO_32 - TWO_32) == (q + 1) * TWO_32;
  }

  /** ... as far as 32 bits go. */
  lemma AtoiInverts(n: nat, rest: string)
    requires n < TWO_32 / 2 && rest != "" && !IsDigit(rest[0])
    ensures Atoi(ToString(n) + rest) == n
  {
    hide Leading;
    LeadingInverts(n, rest);
    SignedInverts(n, TWO_32);
  }

  /** `std::to_string` of a signed number. */
  function Printed(n: int): string {
    if n < 0 then "-" + ToString(-n) else ToString(n)
  }

  lemma PrintedIsRead(n: int)
    ensures Leading(Printed(n)) == n
  {
    var m: nat := if n < 0 then -n else n;
    AllDigits(m);
    NumberReadsOn(m, "");
    assert ToString(m) + "" == ToString(m);
    assert ToString(m)[0] in ToString(m);
    assert Printed(-1 - m)[0] == '-';
    if n < 0 {
      assert Printed(n)[1..] == ToString(m);
    }
  }

  lemma PrintedApart(m: int, n: int)
    requires Printed(m) == Printed(n)
    ensures m == n
  {
    PrintedIsRead(m);
    PrintedIsRead(n);
  }
}
