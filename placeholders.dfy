/**
 * The placeholder vocabulary `SPECIAL_STRINGS` and the scan that
 * `check_replace_strings` evidently intends: `value.scan` with an alternation
 * that matches the tokens themselves. The pattern the code actually builds
 * escapes them twice and is modelled in `EscapedUnion`.
 */
module Placeholders {
  import opened Wrappers
  import opened Text
  import opened ArrayOps

  /** The conversion letters of the vocabulary: `s`, `d` and `@`. */
  predicate IsConversion(c: char) {
    c == 's' || c == 'd' || c == '@'
  }

  /** `"%#{n}$#{conv}"`, the positional specifier for argument `n`. */
  function PositionalText(conv: char, n: nat): string {
    "%" + Decimal(n) + "$" + [conv]
  }

  /**
   * A positional specifier is `%`, digits that read back as its argument
   * index, `$` and its conversion letter; so distinct indices or letters give
   * distinct specifiers.
   */
  lemma PositionalTextReadsBack(conv: char, n: nat)
    ensures var r := PositionalText(conv, n);
      && |r| >= 4 && r[0] == '%' && r[|r| - 2] == '$' && r[|r| - 1] == conv
      && AllDigits(r[1..|r| - 2]) && ParseDecimal(r[1..|r| - 2]) == n
    ensures forall c, m :: PositionalText(c, m) == PositionalText(conv, n) ==> c == conv && m == n
  {
    var r := PositionalText(conv, n);
    assert r[1..|r| - 2] == Decimal(n);
    DecimalRoundTrip(n);
    forall c, m | PositionalText(c, m) == r ensures c == conv && m == n {
      var q := PositionalText(c, m);
      assert q[1..|q| - 2] == Decimal(m) && q[|q| - 1] == c;
      DecimalRoundTrip(m);
    }
  }

  /** `(1..count).map { |n| "%#{n}$#{conv}" }` */
  function PositionalRun(conv: char, count: nat): (r: seq<string>)
    ensures |r| == count
  {
    if count == 0 then [] else PositionalRun(conv, count - 1) + [PositionalText(conv, count)]
  }

  /**
   * `SPECIAL_STRINGS`: `%%`, the two characters backslash and `n`, the bare
   * specifiers `%s`, `%d`, `%@`, then the positional specifiers for 1..20,
   * first all `s`, then all `d`, then all `@`.
   */
  function SpecialStrings(): (r: seq<string>)
    ensures |r| == 65
  {
    ["%%", "\\n", "%s", "%d", "%@"]
      + PositionalRun('s', 20) + PositionalRun('d', 20) + PositionalRun('@', 20)
  }

  /**
   * The vocabulary as a grammar: a literal escape (`%%` or backslash-n), a
   * bare specifier, or a positional specifier whose index is 1..20.
   */
  ghost predicate InVocabulary(t: string) {
    || t == "%%"
    || t == "\\n"
    || (|t| == 2 && t[0] == '%' && IsConversion(t[1]))
    || exists c: char, n: nat :: IsConversion(c) && 1 <= n <= 20 && t == PositionalText(c, n)
  }

  lemma {:induction false} PositionalRunMembers(conv: char, count: nat, t: string)
    ensures t in PositionalRun(conv, count) <==> exists n: nat :: 1 <= n <= count && t == PositionalText(conv, n)
  {
    if count > 0 {
      PositionalRunMembers(conv, count - 1, t);
    }
  }

  /** The list `SPECIAL_STRINGS` holds exactly the strings the grammar describes. */
  lemma SpecialStringsAreVocabulary()
    ensures forall t :: t in SpecialStrings() <==> InVocabulary(t)
  {
    forall t ensures t in SpecialStrings() <==> InVocabulary(t) {
      SpecialStringsParts(t);
      LiteralTokens(t);
      PositionalRuns(t);
    }
  }

  /** A member of `SPECIAL_STRINGS` is one of the five literals or a member of one of the runs. */
  lemma SpecialStringsParts(t: string)
    ensures t in SpecialStrings() <==>
      || t in ["%%", "\\n", "%s", "%d", "%@"]
      || t in PositionalRun('s', 20) || t in PositionalRun('d', 20) || t in PositionalRun('@', 20)
  {
  }

  /** The five literals are `%%`, backslash-n and the bare specifiers. */
  lemma LiteralTokens(t: string)
    ensures t in ["%%", "\\n", "%s", "%d", "%@"] <==>
      t == "%%" || t == "\\n" || (|t| == 2 && t[0] == '%' && IsConversion(t[1]))
  {
    if |t| == 2 && t[0] == '%' && IsConversion(t[1]) {
      assert t == ['%', t[1]];
    }
  }

  /** The three runs hold the positional specifiers with index 1..20, and only them. */
  lemma PositionalRuns(t: string)
    ensures (t in PositionalRun('s', 20) || t in PositionalRun('d', 20) || t in PositionalRun('@', 20)) <==>
      exists c: char, n: nat :: IsConversion(c) && 1 <= n <= 20 && t == PositionalText(c, n)
  {
    if exists c: char, n: nat :: IsConversion(c) && 1 <= n <= 20 && t == PositionalText(c, n) {
      var c: char, n: nat :| IsConversion(c) && 1 <= n <= 20 && t == PositionalText(c, n);
      PositionalRunMembers(c, 20, t);
    }
    forall c | IsConversion(c) && t in PositionalRun(c, 20)
      ensures exists c: char, n: nat :: IsConversion(c) && 1 <= n <= 20 && t == PositionalText(c, n)
    {
      PositionalRunMembers(c, 20, t);
      var n: nat :| 1 <= n <= 20 && t == PositionalText(c, n);
    }
    assert IsConversion('s') && IsConversion('d') && IsConversion('@');
  }

  /** The characters of a positional specifier with index 1..20, position by position. */
  lemma PositionalShape(c: char, n: nat)
    requires 1 <= n <= 20
    ensures var t := PositionalText(c, n);
      && t[0] == '%' && IsDigit(t[1]) && t[1] != '0' && t[|t| - 2] == '$' && t[|t| - 1] == c
      && (n < 10 ==> |t| == 4 && t[1] == DigitChar(n))
      && (n >= 10 ==> |t| == 5 && t[1] == DigitChar(n / 10) && t[2] == DigitChar(n % 10))
  {
    if n >= 10 {
      assert Decimal(n) == [DigitChar(n / 10), DigitChar(n % 10)];
    }
  }

  /** Every token is two to five characters long and starts with `%` or a backslash. */
  lemma VocabularyShape(t: string)
    requires InVocabulary(t)
    ensures 2 <= |t| <= 5 && (t[0] == '%' || t[0] == '\\')
  {
    if exists c: char, n: nat :: IsConversion(c) && 1 <= n <= 20 && t == PositionalText(c, n) {
      var c: char, n: nat :| IsConversion(c) && 1 <= n <= 20 && t == PositionalText(c, n);
      PositionalShape(c, n);
    }
  }

  /** No token is a proper prefix of another, so at most one token starts at any position. */
  lemma VocabularyPrefixFree(t: string, u: string)
    ensures InVocabulary(t) && InVocabulary(u) && IsPrefix(t, u) ==> t == u
  {
    if InVocabulary(t) && InVocabulary(u) && |t| < |u| {
      VocabularyShape(t);
      VocabularyShape(u);
      var c: char, m: nat :| IsConversion(c) && 1 <= m <= 20 && u == PositionalText(c, m);
      PositionalShape(c, m);
      if |t| == 2 {
        assert t[1] != u[1];
      } else {
        var c': char, n: nat :| IsConversion(c') && 1 <= n <= 20 && t == PositionalText(c', n);
        PositionalShape(c', n);
        assert t[|t| - 1] != u[|t| - 1];
      }
      assert u[..|t|][|t| - 1] == u[|t| - 1];
    } else if |t| == |u| {
      assert u[..|t|] == u;
    }
  }

  /** A positional specifier whose index is 0 or above 20 is not in `SPECIAL_STRINGS`. */
  lemma PositionalOutOfRange(c: char, n: nat)
    requires n == 0 || n > 20
    ensures PositionalText(c, n) !in SpecialStrings()
  {
    var t := PositionalText(c, n);
    SpecialStringsParts(t);
    PositionalRuns(t);
    PositionalTextReadsBack(c, n);
    assert t !in ["%%", "\\n", "%s", "%d", "%@"];
    assert !exists c': char, m: nat :: IsConversion(c') && 1 <= m <= 20 && t == PositionalText(c', m);
  }

  /** The tokens the source's own test expects to find in `SPECIAL_STRINGS` are all there. */
  lemma SpecialStringsContainExpected()
    ensures forall t :: t in ["%%", "\\n", "%s", "%d", "%@"] ==> t in SpecialStrings()
    ensures forall c: char, n: nat :: IsConversion(c) && 1 <= n <= 20 ==> PositionalText(c, n) in SpecialStrings()
  {
    forall c: char, n: nat | IsConversion(c) && 1 <= n <= 20
      ensures PositionalText(c, n) in SpecialStrings()
    {
      SpecialStringsParts(PositionalText(c, n));
      PositionalRuns(PositionalText(c, n));
    }
    forall t | t in ["%%", "\\n", "%s", "%d", "%@"] ensures t in SpecialStrings() {
      SpecialStringsParts(t);
    }
  }

  /** A lone `%` is not in `SPECIAL_STRINGS`. */
  lemma LonePercentNotSpecial()
    ensures "%" !in SpecialStrings()
  {
    SpecialStringsAreVocabulary();
    if "%" in SpecialStrings() {
      VocabularyShape("%");
    }
  }

  lemma SpellIndex21()
    ensures PositionalText('s', 21) == "%21$s" && PositionalText('d', 21) == "%21$d" && PositionalText('@', 21) == "%21$@"
  {
    assert Decimal(21) == "21";
  }

  /** The index-21 specifiers `%21$s`, `%21$d`, `%21$@` are not in `SPECIAL_STRINGS`. */
  lemma Index21NotSpecial()
    ensures "%21$s" !in SpecialStrings() && "%21$d" !in SpecialStrings() && "%21$@" !in SpecialStrings()
  {
    SpellIndex21();
    PositionalOutOfRange('s', 21);
    PositionalOutOfRange('d', 21);
    PositionalOutOfRange('@', 21);
  }

  /**
   * One step of the alternation: the first token of `toks`, in list order,
   * that `s` starts with.
   */
  function FirstPrefix(toks: seq<string>, s: string): (r: Option<string>)
    ensures r.Some? ==> r.value in toks && IsPrefix(r.value, s)
    ensures r.None? <==> forall t :: t in toks ==> !IsPrefix(t, s)
  {
    if toks == [] then None
    else if IsPrefix(toks[0], s) then Some(toks[0])
    else FirstPrefix(toks[1..], s)
  }

  /**
   * The alternation commits to the first listed token that matches: what
   * `FirstPrefix` returns sits at an index before which no listed token is
   * a prefix of `s`.
   */
  lemma {:induction false} FirstPrefixIsFirst(toks: seq<string>, s: string)
    ensures var r := FirstPrefix(toks, s);
      r.Some? ==> exists k :: (0 <= k < |toks| && toks[k] == r.value
        && forall j :: 0 <= j < k ==> !IsPrefix(toks[j], s))
  {
    if toks != [] && !IsPrefix(toks[0], s) {
      var r := FirstPrefix(toks[1..], s);
      FirstPrefixIsFirst(toks[1..], s);
      if r.Some? {
        var k :| 0 <= k < |toks[1..]| && toks[1..][k] == r.value
          && forall j :: 0 <= j < k ==> !IsPrefix(toks[1..][j], s);
        assert toks[k + 1] == r.value;
        assert forall j :: 1 <= j < k + 1 ==> toks[j] == toks[1..][j - 1];
      }
    }
  }

  /**
   * The token that `s` starts with, read off its first characters: a
   * backslash and `n`; `%` and one of `%`, `s`, `d`, `@`; or `%`, an index
   * 1..20 written without leading zero, `$` and a conversion letter.
   */
  function TokenAt(s: string): (r: Option<string>)
    ensures r.Some? ==> InVocabulary(r.value) && IsPrefix(r.value, s)
  {
    if |s| >= 2 && s[0] == '\\' && s[1] == 'n' then Some(s[..2])
    else if |s| >= 2 && s[0] == '%' && (s[1] == '%' || IsConversion(s[1])) then Some(s[..2])
    else if |s| >= 4 && s[0] == '%' && IsDigit(s[1]) && s[1] != '0' && s[2] == '$' && IsConversion(s[3]) then
      var n := DigitValue(s[1]);
      assert s[..4] == PositionalText(s[3], n);
      Some(s[..4])
    else if |s| >= 5 && s[0] == '%' && (s[1] == '1' || s[1] == '2') && IsDigit(s[2])
      && (s[1] == '2' ==> s[2] == '0') && s[3] == '$' && IsConversion(s[4]) then
      var n := DigitValue(s[1]) * 10 + DigitValue(s[2]);
      assert Decimal(n) == [DigitChar(n / 10), DigitChar(n % 10)] == s[1..3];
      assert s[..5] == PositionalText(s[4], n);
      Some(s[..5])
    else None
  }

  /** Every token that `s` starts with is the one `TokenAt` reads off. */
  lemma TokenAtComplete(s: string, t: string)
    requires InVocabulary(t) && IsPrefix(t, s)
    ensures TokenAt(s) == Some(t)
  {
    VocabularyShape(t);
    assert TokenAt(s).Some? by {
      assert s[..|t|] == t;
      if exists c: char, n: nat :: IsConversion(c) && 1 <= n <= 20 && t == PositionalText(c, n) {
        var c: char, n: nat :| IsConversion(c) && 1 <= n <= 20 && t == PositionalText(c, n);
        PositionalShape(c, n);
        if n < 10 {
          assert s[1] == t[1] && s[2] == t[2] && s[3] == t[3];
        } else {
          assert s[1] == t[1] && s[2] == t[2] && s[3] == t[3] && s[4] == t[4];
          assert n / 10 == 1 || n / 10 == 2;
        }
      } else {
        assert s[0] == t[0] && s[1] == t[1];
      }
    }
    var u := TokenAt(s).value;
    if |u| <= |t| {
      PrefixesOfOneString(u, t, s);
      VocabularyPrefixFree(u, t);
    } else {
      PrefixesOfOneString(t, u, s);
      VocabularyPrefixFree(t, u);
    }
  }

  /**
   * The intended alternation tries the tokens in list order, but the order does not
   * matter: it matches exactly the one token that `s` starts with, which is
   * what `TokenAt` computes.
   */
  lemma TokenAtIsAlternation(s: string)
    ensures TokenAt(s) == FirstPrefix(SpecialStrings(), s)
  {
    SpecialStringsAreVocabulary();
    var r := FirstPrefix(SpecialStrings(), s);
    if r.Some? {
      TokenAtComplete(s, r.value);
    }
  }

  /**
   * `value.scan(regex)` with the intended pattern: from left to right, emit the token that starts at
   * the current position and continue after it; where no token starts,
   * move on by one character.
   */
  function Scan(s: string): (r: seq<string>)
    ensures forall t :: t in r ==> InVocabulary(t) && Includes(s, t)
    decreases |s|
  {
    if s == [] then []
    else match TokenAt(s)
      case Some(t) =>
        VocabularyShape(t);
        PrefixIsIncluded(t, s);
        IncludedInSuffix(s, |t|);
        [t] + Scan(s[|t|..])
      case None =>
        IncludedInSuffix(s, 1);
        Scan(s[1..])
  }

  /** `value.scan(regex).uniq` with the intended pattern: the distinct tokens of a value, in order of first occurrence. */
  function Tokens(value: string): (r: seq<string>)
    ensures forall t :: t in r ==> t in SpecialStrings() && Includes(value, t)
    ensures NoDuplicates(r)
  {
    SpecialStringsAreVocabulary();
    Uniq(Scan(value))
  }

  /** Dropping the first character shifts every occurrence one place to the left. */
  lemma OccursInTail(s: string, u: string, j: nat)
    requires s != []
    ensures OccursAt(s[1..], u, j) <==> OccursAt(s, u, j + 1)
  {
    if j + 1 + |u| <= |s| {
      assert s[1..][j..j + |u|] == s[j + 1..j + 1 + |u|];
    }
  }

  /**
   * Leftmost matching: when `t` occurs at `i` and no token occurs before `i`,
   * the scan skips to `i`, finds `t` there and resumes right after it.
   */
  lemma {:induction false} ScanLeftmost(s: string, t: string, i: nat)
    requires InVocabulary(t) && OccursAt(s, t, i)
    requires forall j: nat, u :: j < i && InVocabulary(u) ==> !OccursAt(s, u, j)
    ensures Scan(s) == [t] + Scan(s[i + |t|..])
    decreases i
  {
    VocabularyShape(t);
    if i == 0 {
      assert s[..|t|] == s[0..|t|];
      TokenAtComplete(s, t);
    } else {
      var r := TokenAt(s);
      assert r.Some? ==> OccursAt(s, r.value, 0) by {
        assert r.Some? ==> s[0..|r.value|] == s[..|r.value|];
      }
      var rest := s[1..];
      OccursInTail(s, t, i - 1);
      forall j: nat, u | j < i - 1 && InVocabulary(u)
        ensures !OccursAt(rest, u, j)
      {
        OccursInTail(s, u, j);
      }
      ScanLeftmost(rest, t, i - 1);
      assert rest[i - 1 + |t|..] == s[i + |t|..];
    }
  }

  /** A value in which some token occurs yields at least one match. */
  lemma {:induction false} ScanFindsOccurrence(s: string, t: string, i: nat)
    requires InVocabulary(t) && OccursAt(s, t, i)
    ensures Scan(s) != []
    decreases i
  {
    VocabularyShape(t);
    if i == 0 {
      assert s[..|t|] == s[0..|t|];
      TokenAtComplete(s, t);
    } else if TokenAt(s).None? {
      OccursInTail(s, t, i - 1);
      ScanFindsOccurrence(s[1..], t, i - 1);
    }
  }

  /** The scan finds nothing exactly when no token occurs anywhere in the value. */
  lemma ScanEmptyIff(s: string)
    ensures Scan(s) == [] <==> forall t :: InVocabulary(t) ==> !Includes(s, t)
  {
    if exists t :: InVocabulary(t) && Includes(s, t) {
      var t :| InVocabulary(t) && Includes(s, t);
      var i: nat :| i <= |s| && OccursAt(s, t, i);
      ScanFindsOccurrence(s, t, i);
    } else {
      assert Scan(s) != [] ==> Scan(s)[0] in Scan(s);
    }
  }

  /** A value that starts with a token scans as that token followed by the scan of the rest. */
  lemma ScanToken(t: string, rest: string)
    requires InVocabulary(t)
    ensures Scan(t + rest) == [t] + Scan(rest)
  {
    var s := t + rest;
    assert IsPrefix(t, s);
    TokenAtComplete(s, t);
    VocabularyShape(t);
    assert s[|t|..] == rest;
  }

  /** Text with neither `%` nor a backslash yields no token and is skipped. */
  lemma {:induction false} ScanPlain(p: string, rest: string)
    requires '%' !in p && '\\' !in p
    ensures Scan(p + rest) == Scan(rest)
  {
    if p != [] {
      var s := p + rest;
      assert s[0] == p[0];
      assert TokenAt(s) == None;
      assert s[1..] == p[1..] + rest;
      ScanPlain(p[1..], rest);
    } else {
      assert p + rest == rest;
    }
  }

  /** `%%s` yields only `%%`: the `%%` consumes the `%` that `%s` would have needed. */
  lemma ScanEscapedPercentThenS()
    ensures Scan("%%s") == ["%%"]
  {
    ScanToken("%%", "s");
    ScanPlain("s", "");
    assert "%%" + "s" == "%%s" && "s" + "" == "s";
  }

  lemma SmallPositionalsInVocabulary()
    ensures InVocabulary("%1$s") && InVocabulary("%2$d")
  {
    assert PositionalText('s', 1) == "%1$s" && PositionalText('d', 2) == "%2$d";
  }

  /** A token followed by plain text scans as that token alone. */
  lemma ScanTokenThenPlain(t: string, after: string)
    requires InVocabulary(t)
    requires '%' !in after && '\\' !in after
    ensures Scan(t + after) == [t]
  {
    ScanToken(t, after);
    ScanPlain(after, []);
    assert after + [] == after;
  }

  /** Plain text, then `%2$d`, then plain text yields `%2$d` alone. */
  lemma ScanPlainTokenPlain(between: string, after: string)
    requires '%' !in between && '\\' !in between
    requires '%' !in after && '\\' !in after
    ensures Scan(between + "%2$d" + after) == ["%2$d"]
  {
    SmallPositionalsInVocabulary();
    var second := "%2$d";
    var tail := second + after;
    ScanTokenThenPlain(second, after);
    ScanPlain(between, tail);
    assert between + second + after == between + tail;
  }

  /**
   * Regrouping four strings. Stated over variables so that the literal
   * specifiers it is applied to are not unfolded character by character.
   */
  lemma ConcatAssociative(a: string, b: string, c: string, d: string)
    ensures a + b + c + d == a + (b + c + d)
  {
  }

  /** `%1$s`, then plain text, then `%2$d` yields both positional specifiers, in order. */
  lemma ScanTwoPositionals(between: string, after: string)
    requires '%' !in between && '\\' !in between
    requires '%' !in after && '\\' !in after
    ensures Scan("%1$s" + between + "%2$d" + after) == ["%1$s", "%2$d"]
  {
    var mid := between + "%2$d" + after;
    ScanPlainTokenPlain(between, after);
    SmallPositionalsInVocabulary();
    ScanToken("%1$s", mid);
    ConcatAssociative("%1$s", between, "%2$d", after);
  }

  /** `%21$s` yields nothing: index 21 is not in the vocabulary, and its `%` is skipped. */
  lemma ScanIndex21(rest: string)
    ensures Scan("%21$s" + rest) == Scan(rest)
  {
    var s := "%21$s" + rest;
    assert s[..5] == "%21$s";
    assert TokenAt(s) == None;
    ScanPlain("21$s", rest);
    assert s[1..] == "21$s" + rest;
  }
}
