/** The two pieces of Python's `str` behaviour the pipeline relies on:
    the `<` comparison that `sorted` uses, and `str(n)` for a natural number. */
module Strings {

  /** `a` and `b` agree on their first `n` characters, and position `n` is
      where `a` is found smaller: either `a` ends there and `b` goes on, or
      both go on and `a`'s character has the smaller code point. */
  ghost predicate SmallerAt(a: string, b: string, n: nat) {
    && n <= |a| && n <= |b| && a[..n] == b[..n]
    && (if n == |a| then n < |b| else n < |b| && a[n] < b[n])
  }

  lemma SmallerAtTail(a: string, b: string)
    requires a != [] && b != [] && a[0] == b[0]
    ensures !SmallerAt(a, b, 0)
    ensures forall n: nat :: SmallerAt(a, b, n + 1) <==> SmallerAt(a[1..], b[1..], n)
    ensures forall n: nat :: SmallerAt(a, b, n) ==> 0 < n && SmallerAt(a[1..], b[1..], n - 1)
  {
    forall n: nat ensures SmallerAt(a, b, n + 1) <==> SmallerAt(a[1..], b[1..], n) {
      if n + 1 <= |a| && n + 1 <= |b| {
        assert a[..n + 1] == [a[0]] + a[1..][..n];
        assert b[..n + 1] == [b[0]] + b[1..][..n];
      }
    }
  }

  lemma SmallerAtHead(a: string, b: string)
    requires a != [] && b != [] && a[0] != b[0]
    ensures forall n: nat :: SmallerAt(a, b, n) <==> n == 0 && a[0] < b[0]
  {
    forall n: nat | 0 < n && n <= |a| && n <= |b| ensures a[..n] != b[..n] {
      assert a[..n][0] == a[0] && b[..n][0] == b[0];
    }
  }

  /** Python's `a < b` on strings: lexicographic by code point, a proper
      prefix ordering before the longer string. */
  predicate Less(a: string, b: string)
    ensures Less(a, b) <==> exists n: nat :: SmallerAt(a, b, n)
    decreases |a|
  {
    if a == [] then
      assert b != [] ==> SmallerAt(a, b, 0);
      b != []
    else if b == [] then false
    else if a[0] != b[0] then
      SmallerAtHead(a, b);
      assert a[0] < b[0] ==> SmallerAt(a, b, 0);
      a[0] < b[0]
    else
      SmallerAtTail(a, b);
      Less(a[1..], b[1..])
  }

  predicate LessOrEqual(a: string, b: string) {
    a == b || Less(a, b)
  }

  lemma {:induction false} LessIrreflexive(a: string)
    ensures !Less(a, a)
  {
    if a != [] {
      LessIrreflexive(a[1..]);
    }
  }

  lemma {:induction false} LessTransitive(a: string, b: string, c: string)
    requires Less(a, b) && Less(b, c)
    ensures Less(a, c)
  {
    if a != [] && a[0] == b[0] && b[0] == c[0] {
      LessTransitive(a[1..], b[1..], c[1..]);
    }
  }

  /** Any two strings are comparable: `<` on `str` is a total order. */
  lemma {:induction false} LessTotal(a: string, b: string)
    ensures a == b || Less(a, b) || Less(b, a)
  {
    if a != [] && b != [] && a[0] == b[0] {
      LessTotal(a[1..], b[1..]);
      if a[1..] == b[1..] {
        assert a == [a[0]] + a[1..] && b == [b[0]] + b[1..];
      }
    }
  }

  lemma LessAsymmetric(a: string, b: string)
    requires Less(a, b)
    ensures !Less(b, a) && a != b
  {
    LessIrreflexive(a);
    if Less(b, a) {
      LessTransitive(a, b, a);
    }
  }

  lemma LessOrEqualTransitive(a: string, b: string, c: string)
    requires LessOrEqual(a, b) && LessOrEqual(b, c)
    ensures LessOrEqual(a, c)
  {
    if a != b && b != c {
      LessTransitive(a, b, c);
    }
  }

  lemma LessOrEqualAntisymmetric(a: string, b: string)
    requires LessOrEqual(a, b) && LessOrEqual(b, a)
    ensures a == b
  {
    if a != b {
      LessAsymmetric(a, b);
    }
  }

  function DigitChar(d: nat): (c: char)
    requires d < 10
    ensures '0' <= c <= '9'
  {
    ('0' as int + d) as char
  }

  function DigitValue(c: char): nat {
    if '0' <= c <= '9' then c as int - '0' as int else 0
  }

  /** Python's `str(n)` for `n >= 0`: decimal digits, no leading zero. */
  function DecimalString(n: nat): (s: string)
    ensures |s| > 0
    ensures forall i :: 0 <= i < |s| ==> '0' <= s[i] <= '9'
    ensures s[0] == '0' ==> s == "0"
  {
    if n < 10 then [DigitChar(n)] else DecimalString(n / 10) + [DigitChar(n % 10)]
  }

  /** Python's `int(s)` on a string of decimal digits. */
  function ParseDecimal(s: string): nat {
    if s == [] then 0 else ParseDecimal(s[..|s| - 1]) * 10 + DigitValue(s[|s| - 1])
  }

  lemma {:induction false} ParseDecimalString(n: nat)
    ensures ParseDecimal(DecimalString(n)) == n
  {
    var s := DecimalString(n);
    if n >= 10 {
      assert s[..|s| - 1] == DecimalString(n / 10);
      ParseDecimalString(n / 10);
    }
  }

  /** Distinct window positions get distinct keys. */
  lemma DecimalStringInjective(a: nat, b: nat)
    requires DecimalString(a) == DecimalString(b)
    ensures a == b
  {
    ParseDecimalString(a);
    ParseDecimalString(b);
  }
}
