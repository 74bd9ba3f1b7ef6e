/**
 * IPv4 addresses and their text forms: the decimal digits `snprintf("%d")` writes and
 * the dotted quad `inet_ntoa` / `inet_ntop` produce.
 */
module Inet {

  datatype Option<T> = None | Some(value: T)

  type Octet = x: int | 0 <= x < 256

  datatype Ipv4 = Ipv4(a: Octet, b: Octet, c: Octet, d: Octet)

  predicate IsDigit(ch: char)
  {
    '0' <= ch <= '9'
  }

  function DigitChar(d: int): (ch: char)
    requires 0 <= d < 10
    ensures IsDigit(ch)
  {
    ('0' as int + d) as char
  }

  /** The shortest decimal representation of n, most significant digit first. */
  function Decimal(n: nat): (s: string)
    ensures |s| >= 1
    ensures forall i :: 0 <= i < |s| ==> IsDigit(s[i])
    ensures n < 10 ==> |s| == 1
    ensures 10 <= n < 100 ==> |s| == 2
    ensures 100 <= n < 1000 ==> |s| == 3
  {
    if n < 10 then [DigitChar(n)] else Decimal(n / 10) + [DigitChar(n % 10)]
  }

  /** The value of a string of decimal digits. */
  function DecimalValue(s: string): nat
  {
    if s == [] then 0
    else
      var d := s[|s| - 1] as int - '0' as int;
      10 * DecimalValue(s[..|s| - 1]) + (if 0 <= d < 10 then d else 0)
  }

  lemma {:induction false} DecimalRoundTrip(n: nat)
    ensures DecimalValue(Decimal(n)) == n
  {
    if n >= 10 {
      DecimalRoundTrip(n / 10);
      var s := Decimal(n);
      assert s[..|s| - 1] == Decimal(n / 10);
    }
  }

  /** Different numbers print differently. */
  lemma DecimalInjective(m: nat, n: nat)
    requires Decimal(m) == Decimal(n)
    ensures m == n
  {
    DecimalRoundTrip(m);
    DecimalRoundTrip(n);
  }

  lemma DecimalHasNoDot(n: nat)
    ensures '.' !in Decimal(n)
  {
    var s := Decimal(n);
    forall i | 0 <= i < |s| ensures s[i] != '.' {
      assert IsDigit(s[i]);
    }
  }

  function DottedQuad(ip: Ipv4): string
  {
    Decimal(ip.a) + "." + Decimal(ip.b) + "." + Decimal(ip.c) + "." + Decimal(ip.d)
  }

  /** The text before the last dot of a dotted quad: the first three octets. */
  function FirstThreeOctets(ip: Ipv4): string
  {
    Decimal(ip.a) + "." + Decimal(ip.b) + "." + Decimal(ip.c)
  }

  lemma DottedQuadSplit(ip: Ipv4)
    ensures DottedQuad(ip) == FirstThreeOctets(ip) + "." + Decimal(ip.d)
  {
  }

  /** A dot-free head is recovered from `head + "." + tail` at its first dot. */
  lemma SplitAtFirstDot(x: string, y: string, x': string, y': string)
    requires '.' !in x && '.' !in x'
    requires x + "." + y == x' + "." + y'
    ensures x == x' && y == y'
  {
    var s := x + "." + y;
    assert s[|x|] == '.';
    assert (x' + "." + y')[|x'|] == '.';
    if |x| < |x'| {
      assert false;
    } else if |x'| < |x| {
      assert false;
    }
    assert x == s[..|x|] == x';
    assert y == s[|x| + 1..] == y';
  }

  /** The leading number of `Decimal(m) + "." + y` and the rest are determined by the text. */
  lemma LeadingNumber(m: nat, y: string, n: nat, y': string)
    requires Decimal(m) + "." + y == Decimal(n) + "." + y'
    ensures m == n && y == y'
  {
    DecimalHasNoDot(m);
    DecimalHasNoDot(n);
    SplitAtFirstDot(Decimal(m), y, Decimal(n), y');
    DecimalInjective(m, n);
  }

  /** The dotted quad, grouped from the right. */
  lemma DottedQuadRight(ip: Ipv4)
    ensures DottedQuad(ip) == Decimal(ip.a) + "." + (Decimal(ip.b) + "." + (Decimal(ip.c) + "." + Decimal(ip.d)))
  {
  }

  /** Two addresses with the same dotted-quad text are the same address. */
  lemma DottedQuadInjective(p: Ipv4, q: Ipv4)
    requires DottedQuad(p) == DottedQuad(q)
    ensures p == q
  {
    DottedQuadRight(p);
    DottedQuadRight(q);
    var pc, qc := Decimal(p.c) + "." + Decimal(p.d), Decimal(q.c) + "." + Decimal(q.d);
    var pb, qb := Decimal(p.b) + "." + pc, Decimal(q.b) + "." + qc;
    LeadingNumber(p.a, pb, q.a, qb);
    LeadingNumber(p.b, pc, q.b, qc);
    LeadingNumber(p.c, Decimal(p.d), q.c, Decimal(q.d));
    DecimalInjective(p.d, q.d);
  }
}
