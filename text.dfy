/**
 * The parts of Ruby's String and Integer behaviour that the checker relies on:
 * decimal rendering of an integer (string interpolation), `String#include?`,
 * and the byte-wise ordering `String#<=>` used by `sort`.
 */
module Text {

  predicate IsDigit(c: char) {
    '0' <= c <= '9'
  }

  predicate AllDigits(s: string) {
    forall i :: 0 <= i < |s| ==> IsDigit(s[i])
  }

  function DigitValue(c: char): (d: nat)
    requires IsDigit(c)
    ensures d < 10
  {
    c as int - '0' as int
  }

  function DigitChar(d: nat): (c: char)
    requires d < 10
    ensures IsDigit(c) && DigitValue(c) == d
  {
    ('0' as int + d) as char
  }

  /** `"#{n}"` for a non-negative integer: most significant digit first, no leading zero. */
  function Decimal(n: nat): (r: string)
    ensures 1 <= |r| && AllDigits(r)
    ensures |r| == 1 <==> n < 10
    ensures n > 0 ==> r[0] != '0'
  {
    if n < 10 then [DigitChar(n)] else Decimal(n / 10) + [DigitChar(n % 10)]
  }

  /** Reads a run of decimal digits back as a number. */
  function ParseDecimal(s: string): nat
    requires AllDigits(s)
  {
    if s == [] then 0 else ParseDecimal(s[..|s| - 1]) * 10 + DigitValue(s[|s| - 1])
  }

  /** Reading back what `Decimal` wrote gives the number again. */
  lemma {:induction false} DecimalRoundTrip(n: nat)
    ensures ParseDecimal(Decimal(n)) == n
  {
    if n >= 10 {
      var d := Decimal(n / 10);
      assert Decimal(n) == d + [DigitChar(n % 10)];
      assert (d + [DigitChar(n % 10)])[..|d|] == d;
      DecimalRoundTrip(n / 10);
    }
  }

  /** Distinct numbers are rendered as distinct strings. */
  lemma DecimalInjective(m: nat, n: nat)
    requires Decimal(m) == Decimal(n)
    ensures m == n
  {
    DecimalRoundTrip(m);
    DecimalRoundTrip(n);
  }

  predicate IsPrefix(p: string, s: string) {
    |p| <= |s| && s[..|p|] == p
  }

  /** `t` occurs in `s` starting at index `i`. */
  predicate OccursAt(s: string, t: string, i: nat) {
    i + |t| <= |s| && s[i..i + |t|] == t
  }

  /**
   * `s.include?(t)`: `t` occurs in `s` as a contiguous substring. So it is
   * no longer than `s`, each of its characters is one of `s`, and every
   * prefix of `s` is included.
   */
  predicate Includes(s: string, t: string)
    ensures Includes(s, t) ==> |t| <= |s| && forall c :: c in t ==> c in s
    ensures IsPrefix(t, s) ==> Includes(s, t)
  {
    assert (exists i: nat | i <= |s| :: OccursAt(s, t, i)) ==> forall c :: c in t ==> c in s by {
      if exists i: nat | i <= |s| :: OccursAt(s, t, i) {
        var i: nat :| i <= |s| && OccursAt(s, t, i);
        forall c | c in t ensures c in s {
          var j :| 0 <= j < |t| && t[j] == c;
          assert s[i + j] == c;
        }
      }
    }
    assert IsPrefix(t, s) ==> OccursAt(s, t, 0);
    exists i: nat | i <= |s| :: OccursAt(s, t, i)
  }

  /** Two prefixes of one string are prefixes of each other, the shorter of the longer. */
  lemma PrefixesOfOneString(p: string, q: string, s: string)
    requires IsPrefix(p, s) && IsPrefix(q, s) && |p| <= |q|
    ensures IsPrefix(p, q)
  {
    assert q[..|p|] == s[..|q|][..|p|] == s[..|p|];
  }

  lemma PrefixIsIncluded(p: string, s: string)
    requires IsPrefix(p, s)
    ensures Includes(s, p)
  {
    assert OccursAt(s, p, 0);
  }

  /** Whatever occurs in a suffix of `s` occurs in `s`. */
  lemma IncludedInSuffix(s: string, k: nat)
    requires k <= |s|
    ensures forall t :: Includes(s[k..], t) ==> Includes(s, t)
  {
    forall t | Includes(s[k..], t)
      ensures Includes(s, t)
    {
      var i: nat :| i <= |s[k..]| && OccursAt(s[k..], t, i);
      assert i + |t| <= |s| - k;
      assert s[k + i..k + i + |t|] == s[k..][i..i + |t|];
      assert OccursAt(s, t, k + i);
    }
  }

  /** A string without `c` contains no substring that starts with `c`. */
  lemma NotIncludedWithoutFirstChar(s: string, t: string)
    requires t != [] && t[0] !in s
    ensures !Includes(s, t)
  {
  }

  /** `a` and `b` agree up to some index where `a` has the smaller character. */
  ghost predicate SmallerAtFirstDifference(a: string, b: string) {
    exists k :: 0 <= k < |a| && k < |b| && a[..k] == b[..k] && a[k] < b[k]
  }

  /**
   * `a <=> b <= 0` for Ruby strings: lexicographic comparison character by
   * character, a proper prefix coming first. UTF-8 preserves code-point order,
   * so comparing code points agrees with Ruby's byte-wise comparison.
   */
  predicate StringLe(a: string, b: string)
    ensures StringLe(a, b) <==> IsPrefix(a, b) || SmallerAtFirstDifference(a, b)
  {
    if a == [] then true
    else if b == [] then false
    else if a[0] != b[0] then
      assert a[0] < b[0] ==> a[..0] == b[..0];
      a[0] < b[0]
    else
      SameHeadComparesTails(a, b);
      StringLe(a[1..], b[1..])
  }

  /** Dropping a common first character changes neither prefix nor first difference. */
  lemma SameHeadComparesTails(a: string, b: string)
    requires a != [] && b != [] && a[0] == b[0]
    ensures IsPrefix(a, b) <==> IsPrefix(a[1..], b[1..])
    ensures SmallerAtFirstDifference(a, b) <==> SmallerAtFirstDifference(a[1..], b[1..])
  {
    if IsPrefix(a[1..], b[1..]) {
      assert b[..|a|] == [b[0]] + b[1..][..|a| - 1];
      assert a == [a[0]] + a[1..];
    }
    if IsPrefix(a, b) {
      assert b[1..][..|a| - 1] == b[..|a|][1..];
    }
    if SmallerAtFirstDifference(a, b) {
      var k :| 0 <= k < |a| && k < |b| && a[..k] == b[..k] && a[k] < b[k];
      assert k != 0;
      assert a[1..][..k - 1] == a[..k][1..];
      assert b[1..][..k - 1] == b[..k][1..];
      assert a[1..][k - 1] == a[k];
    }
    if SmallerAtFirstDifference(a[1..], b[1..]) {
      var k :| 0 <= k < |a| - 1 && k < |b| - 1 && a[1..][..k] == b[1..][..k] && a[1..][k] < b[1..][k];
      assert a[..k + 1] == [a[0]] + a[1..][..k];
      assert b[..k + 1] == [b[0]] + b[1..][..k];
      assert a[k + 1] == a[1..][k];
    }
  }

  lemma {:induction false} StringLeTotal(a: string, b: string)
    ensures StringLe(a, b) || StringLe(b, a)
  {
    if a != [] && b != [] && a[0] == b[0] {
      StringLeTotal(a[1..], b[1..]);
    }
  }

  lemma {:induction false} StringLeAntisymmetric(a: string, b: string)
    requires StringLe(a, b) && StringLe(b, a)
    ensures a == b
  {
    if a != [] && b != [] {
      StringLeAntisymmetric(a[1..], b[1..]);
      assert a == [a[0]] + a[1..];
      assert b == [b[0]] + b[1..];
    }
  }

  lemma {:induction false} StringLeTransitive(a: string, b: string, c: string)
    requires StringLe(a, b) && StringLe(b, c)
    ensures StringLe(a, c)
  {
    if a != [] && b != [] && c != [] && a[0] == b[0] && b[0] == c[0] {
      StringLeTransitive(a[1..], b[1..], c[1..]);
    }
  }
}
