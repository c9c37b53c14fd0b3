/** Decimal rendering of natural numbers, as Rust's `format!("{}", n)` writes a
    `usize`, and the `prefix{a}_{b}` strings the benchmark workers build from it. */
module Format {

  predicate IsDigit(c: char) {
    '0' <= c <= '9'
  }

  predicate AllDigits(s: string) {
    forall k :: 0 <= k < |s| ==> IsDigit(s[k])
  }

  function DigitValue(c: char): nat
    requires IsDigit(c)
  {
    c as int - '0' as int
  }

  function DigitChar(d: nat): (c: char)
    requires d < 10
    ensures IsDigit(c) && DigitValue(c) == d
  {
    ('0' as int + d) as char
  }

  /** The decimal digits of `n`: no sign, no leading zero, "0" for zero. */
  function NatToString(n: nat): (s: string)
    ensures |s| > 0 && AllDigits(s)
    ensures (s[0] == '0') == (n == 0)
    ensures n == 0 ==> s == "0"
  {
    if n < 10 then [DigitChar(n)] else NatToString(n / 10) + [DigitChar(n % 10)]
  }

  /** Reads a string of decimal digits back as a number (most significant digit first). */
  function ParseNat(s: string): nat
    requires AllDigits(s)
  {
    if s == [] then 0 else ParseNat(s[..|s| - 1]) * 10 + DigitValue(s[|s| - 1])
  }

  lemma {:induction false} ParseNatToString(n: nat)
    ensures ParseNat(NatToString(n)) == n
  {
    if n >= 10 {
      var s := NatToString(n);
      assert s[..|s| - 1] == NatToString(n / 10);
      ParseNatToString(n / 10);
    }
  }

  lemma NatToStringInjective(m: nat, n: nat)
    requires NatToString(m) == NatToString(n)
    ensures m == n
  {
    ParseNatToString(m);
    ParseNatToString(n);
  }

  /** `s` reads as `prefix{a}_{b}`: it starts with `prefix`, and after it the
      digits before the first `_` read back as `a` and the digits after it as `b`. */
  predicate Encodes(prefix: string, s: string, a: nat, b: nat) {
    && |prefix| <= |s| && s[..|prefix|] == prefix
    && var rest := s[|prefix|..];
       var k := SeparatorAt(rest);
       && k < |rest|
       && AllDigits(rest[..k]) && AllDigits(rest[k + 1..])
       && ParseNat(rest[..k]) == a && ParseNat(rest[k + 1..]) == b
  }

  /** `prefix{a}_{b}`: the shape of `format!("key_{}_{}", client_id, i)`. */
  function Tagged(prefix: string, a: nat, b: nat): string {
    prefix + NatToString(a) + "_" + NatToString(b)
  }

  /** A tagged string reads back as its prefix and its two numbers. */
  lemma TaggedEncodes(prefix: string, a: nat, b: nat)
    ensures Encodes(prefix, Tagged(prefix, a, b), a, b)
  {
    var d, e := NatToString(a), NatToString(b);
    var rest := d + "_" + e;
    SeparatorAfterDigits(d, e);
    ParseNatToString(a);
    ParseNatToString(b);
    assert rest[..|d|] == d && rest[|d| + 1..] == e;
    assert Tagged(prefix, a, b) == prefix + rest;
    assert (prefix + rest)[..|prefix|] == prefix && (prefix + rest)[|prefix|..] == rest;
  }

  /** Position of the first `_` in `s`, or `|s|` when there is none. */
  function SeparatorAt(s: string): (k: nat)
    ensures k <= |s|
  {
    if s == [] || s[0] == '_' then 0 else 1 + SeparatorAt(s[1..])
  }

  lemma {:induction false} SeparatorAfterDigits(d: string, rest: string)
    requires AllDigits(d)
    ensures SeparatorAt(d + "_" + rest) == |d|
  {
    if d != [] {
      assert (d + "_" + rest)[1..] == d[1..] + "_" + rest;
      SeparatorAfterDigits(d[1..], rest);
    }
  }

  /** The digits contain no `_`, so the separator splits a tagged string uniquely. */
  lemma TaggedInjective(prefix: string, a1: nat, b1: nat, a2: nat, b2: nat)
    requires Tagged(prefix, a1, b1) == Tagged(prefix, a2, b2)
    ensures a1 == a2 && b1 == b2
  {
    var s1, t1 := NatToString(a1), NatToString(b1);
    var s2, t2 := NatToString(a2), NatToString(b2);
    var x, y := s1 + "_" + t1, s2 + "_" + t2;
    assert Tagged(prefix, a1, b1) == prefix + x;
    assert Tagged(prefix, a2, b2) == prefix + y;
    assert x == (prefix + x)[|prefix|..];
    assert x == y;
    SeparatorAfterDigits(s1, t1);
    SeparatorAfterDigits(s2, t2);
    assert s1 == x[..|s1|] && s2 == y[..|s2|];
    assert t1 == x[|s1| + 1..] && t2 == y[|s2| + 1..];
    NatToStringInjective(a1, a2);
    NatToStringInjective(b1, b2);
  }
}
