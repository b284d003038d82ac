/**
 * The stray-percent test of `check_single_percent_string`: the pattern
 * `(?<!%)%(?![%@dsf]|[0-9]+\$[@dsf])`, read as a predicate on each index of
 * a value. A `%` is stray when the character before it is not `%` and what
 * follows it is neither one of `% @ d s f` nor a run of digits, `$` and one
 * of `@ d s f`.
 */
module StrayPercent {
  import opened Text

  /** The class `[%@dsf]`. */
  predicate IsFormatChar(c: char) {
    c == '%' || c == '@' || c == 'd' || c == 's' || c == 'f'
  }

  /** The class `[@dsf]`. */
  predicate IsPositionalFormatChar(c: char) {
    c == '@' || c == 'd' || c == 's' || c == 'f'
  }

  /** The length of the run of digits at the start of `r`. */
  function DigitRun(r: string): (k: nat)
    ensures k <= |r| && AllDigits(r[..k])
    ensures k < |r| ==> !IsDigit(r[k])
  {
    if r != [] && IsDigit(r[0]) then
      assert r[..1 + DigitRun(r[1..])] == [r[0]] + r[1..][..DigitRun(r[1..])];
      1 + DigitRun(r[1..])
    else 0
  }

  /**
   * Whether the lookahead `[%@dsf]|[0-9]+\$[@dsf]` matches at the start of
   * `r`, decided from the one place where the digit run can end.
   */
  predicate ValidAfterPercent(r: string) {
    || (|r| >= 1 && IsFormatChar(r[0]))
    || (var k := DigitRun(r); 1 <= k && k + 1 < |r| && r[k] == '$' && IsPositionalFormatChar(r[k + 1]))
  }

  /**
   * The same lookahead as the pattern states it: some non-empty digit
   * prefix, of any length, is followed by `$` and a format letter.
   */
  ghost predicate LookaheadMatches(r: string) {
    || (|r| >= 1 && IsFormatChar(r[0]))
    || exists k :: 1 <= k && k + 1 < |r| && AllDigits(r[..k]) && r[k] == '$' && IsPositionalFormatChar(r[k + 1])
  }

  /** A digit prefix never runs past the maximal digit run. */
  lemma {:induction false} DigitPrefixWithinRun(r: string, k: nat)
    requires k <= |r| && AllDigits(r[..k])
    ensures k <= DigitRun(r)
  {
    if k > 0 {
      assert IsDigit(r[..k][0]);
      assert r[1..][..k - 1] == r[..k][1..];
      DigitPrefixWithinRun(r[1..], k - 1);
    }
  }

  /** Deciding the lookahead from the digit run agrees with the pattern's backtracking reading. */
  lemma ValidAfterPercentIsLookahead(r: string)
    ensures ValidAfterPercent(r) <==> LookaheadMatches(r)
  {
    if LookaheadMatches(r) && !(|r| >= 1 && IsFormatChar(r[0])) {
      var k :| 1 <= k && k + 1 < |r| && AllDigits(r[..k]) && r[k] == '$' && IsPositionalFormatChar(r[k + 1]);
      DigitPrefixWithinRun(r, k);
    }
  }

  /**
   * The pattern matches at index `i` of `v`: a `%` there, no `%` just
   * before it, and the negative lookahead holding on the rest of the value.
   */
  predicate StrayAt(v: string, i: int): (stray: bool)
    ensures stray <==>
      (0 <= i < |v| && v[i] == '%' && (i == 0 || v[i - 1] != '%') && !LookaheadMatches(v[i + 1..]))
  {
    if 0 <= i < |v| then
      ValidAfterPercentIsLookahead(v[i + 1..]);
      v[i] == '%' && !(i > 0 && v[i - 1] == '%') && !ValidAfterPercent(v[i + 1..])
    else false
  }

  /** `value.match?(pattern)`: the pattern matches at some index of `v`. */
  predicate HasStrayPercent(v: string) {
    exists i | 0 <= i < |v| :: StrayAt(v, i)
  }

  /**
   * A value matches the pattern exactly when it holds a `%` that does not
   * follow another `%` and after which the lookahead fails; in particular
   * a value without `%` never matches.
   */
  lemma HasStrayPercentMeaning(v: string)
    ensures HasStrayPercent(v) <==>
      exists i {:trigger LookaheadMatches(v[i + 1..])} ::
        0 <= i < |v| && v[i] == '%' && (i == 0 || v[i - 1] != '%') && !LookaheadMatches(v[i + 1..])
    ensures HasStrayPercent(v) ==> '%' in v
  {
    if HasStrayPercent(v) {
      var i :| 0 <= i < |v| && StrayAt(v, i);
      assert v[i] == '%' && (i == 0 || v[i - 1] != '%') && !LookaheadMatches(v[i + 1..]);
      assert v[i] in v;
    } else {
      forall i {:trigger LookaheadMatches(v[i + 1..])} | 0 <= i < |v|
        ensures !(v[i] == '%' && (i == 0 || v[i - 1] != '%') && !LookaheadMatches(v[i + 1..]))
      {
        assert !StrayAt(v, i);
      }
    }
  }

  /**
   * A `%` that follows no `%` and is followed by the end of the value or by
   * a character that is neither a digit nor one of `% @ d s f` is stray.
   */
  lemma LonePercentIsStray(v: string, i: nat)
    requires i < |v| && v[i] == '%'
    requires i == 0 || v[i - 1] != '%'
    requires i + 1 == |v| || (!IsDigit(v[i + 1]) && !IsFormatChar(v[i + 1]))
    ensures HasStrayPercent(v)
  {
    assert DigitRun(v[i + 1..]) == 0;
    assert StrayAt(v, i);
  }

  /** A value that ends in a single `%` has a stray percent. */
  lemma TrailingPercentIsStray(v: string)
    requires |v| >= 1 && v[|v| - 1] == '%'
    requires |v| == 1 || v[|v| - 2] != '%'
    ensures HasStrayPercent(v)
  {
    LonePercentIsStray(v, |v| - 1);
  }

  /**
   * The pieces a value may be built from without a stray percent: text
   * without `%`, `%` and one of `% @ d s f`, or `%`, digits, `$` and one of
   * `@ d s f`.
   */
  ghost predicate IsCleanPiece(p: string) {
    || '%' !in p
    || (|p| == 2 && p[0] == '%' && IsFormatChar(p[1]))
    || (|p| >= 4 && p[0] == '%' && AllDigits(p[1..|p| - 2]) && p[|p| - 2] == '$'
        && IsPositionalFormatChar(p[|p| - 1]))
  }

  function Concat(ps: seq<string>): string {
    if ps == [] then [] else ps[0] + Concat(ps[1..])
  }

  /** A stray `%` after a prefix is still stray once the prefix is cut off. */
  lemma StrayInSuffix(p: string, rest: string, j: nat)
    requires StrayAt(p + rest, |p| + j)
    ensures StrayAt(rest, j)
  {
    var v := p + rest;
    assert v[|p| + j + 1..] == rest[j + 1..];
    assert v[|p| + j] == rest[j];
    if j > 0 {
      assert v[|p| + j - 1] == rest[j - 1];
    }
  }

  /** A run of digits followed by a non-digit is exactly the digit run. */
  lemma {:induction false} DigitRunOfDigits(d: string, r: string)
    requires AllDigits(d)
    requires r != [] && !IsDigit(r[0])
    ensures DigitRun(d + r) == |d|
  {
    if d != [] {
      assert (d + r)[1..] == d[1..] + r;
      DigitRunOfDigits(d[1..], r);
    } else {
      assert d + r == r;
    }
  }

  /** No index inside a clean piece is stray, whatever follows the piece. */
  lemma CleanPieceNoStray(p: string, rest: string, k: nat)
    requires IsCleanPiece(p) && k < |p|
    ensures !StrayAt(p + rest, k)
  {
    var v := p + rest;
    assert v[k] == p[k];
    if '%' in p && k == 0 {
      if |p| == 2 && p[0] == '%' && IsFormatChar(p[1]) {
        assert v[1..][0] == p[1];
      } else {
        var digits := p[1..|p| - 2];
        assert v[1..] == digits + ("$" + [p[|p| - 1]] + rest);
        DigitRunOfDigits(digits, "$" + [p[|p| - 1]] + rest);
        assert v[1..][|digits|] == '$' && v[1..][|digits| + 1] == p[|p| - 1];
      }
    } else if '%' in p && |p| == 2 && p[0] == '%' && IsFormatChar(p[1]) {
      assert k == 1 && v[0] == '%';
    } else if '%' in p {
      if 1 <= k < |p| - 2 {
        assert p[k] == p[1..|p| - 2][k - 1];
      }
    }
  }

  /** A value built only from clean pieces has no stray percent. */
  lemma {:induction false} CleanPiecesNoStray(ps: seq<string>)
    requires forall i :: 0 <= i < |ps| ==> IsCleanPiece(ps[i])
    ensures !HasStrayPercent(Concat(ps))
  {
    if ps != [] {
      var p, rest := ps[0], Concat(ps[1..]);
      CleanPiecesNoStray(ps[1..]);
      forall k | 0 <= k < |p + rest| ensures !StrayAt(p + rest, k) {
        if k < |p| {
          CleanPieceNoStray(p, rest, k);
        } else if StrayAt(p + rest, k) {
          StrayInSuffix(p, rest, k - |p|);
        }
      }
    }
  }

  lemma ConcatFive(p1: string, p2: string, p3: string, p4: string, p5: string)
    ensures Concat([p1, p2, p3, p4, p5]) == p1 + p2 + p3 + p4 + p5
  {
    var ps := [p1, p2, p3, p4, p5];
    assert ps[1..][1..][1..][1..][1..] == [];
    assert Concat(ps[1..][1..][1..][1..]) == p5 + [];
    assert Concat(ps[1..][1..][1..]) == p4 + (p5 + []);
    assert Concat(ps[1..][1..]) == p3 + (p4 + (p5 + []));
    assert Concat(ps[1..]) == p2 + (p3 + (p4 + (p5 + [])));
  }

  /**
   * Text without `%` around `%%` and `%s` has no stray percent; nor has
   * text around `%1$s` and `%2$d`.
   */
  lemma EscapesAndSpecifiersAreNotStray(a: string, b: string, c: string)
    requires '%' !in a && '%' !in b && '%' !in c
    ensures !HasStrayPercent(a + "%%" + b + "%s" + c)
    ensures !HasStrayPercent(a + "%1$s" + b + "%2$d" + c)
  {
    ConcatFive(a, "%%", b, "%s", c);
    CleanPiecesNoStray([a, "%%", b, "%s", c]);
    ConcatFive(a, "%1$s", b, "%2$d", c);
    assert AllDigits("%1$s"[1..2]) && AllDigits("%2$d"[1..2]);
    CleanPiecesNoStray([a, "%1$s", b, "%2$d", c]);
  }

  /** `%%%` has no stray percent: the last two `%` each follow a `%`. */
  lemma TripledPercentNotStray()
    ensures !HasStrayPercent("%%%")
  {
    var v := "%%%";
    assert v[1..][0] == '%';
  }
}
