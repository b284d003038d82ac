/**
 * The pattern `check_replace_strings` actually builds:
 * `Regexp.union(SPECIAL_STRINGS.map { |s| Regexp.escape(s) })`.
 *
 * `Regexp.escape` turns each token into regular-expression source, and
 * `Regexp.union` then quotes each string argument again, so every alternative
 * matches its ESCAPED text literally: `%1\$s` with a backslash before the
 * `$`, and two backslashes followed by `n`. The pattern therefore never finds
 * a positional specifier or a lone backslash-n; of the vocabulary only `%%`,
 * `%s`, `%d` and `%@`, which have nothing to escape, are found as intended.
 * `Placeholders.Scan` models the intended scan; `ScanAsWritten` models this one.
 */
module EscapedUnion {
  import opened Wrappers
  import opened Text
  import opened Placeholders

  /** The characters `Regexp.escape` puts a backslash in front of. */
  predicate IsRegexpMeta(c: char) {
    || c == '[' || c == ']' || c == '{' || c == '}' || c == '(' || c == ')'
    || c == '|' || c == '-' || c == '*' || c == '.' || c == '\\' || c == '?'
    || c == '+' || c == '^' || c == '$' || c == '#' || c == ' '
  }

  /** Tab, line feed, carriage return, form feed and vertical tab, which it spells as letters. */
  predicate IsSpelledControl(c: char) {
    c == '\t' || c == '\n' || c == '\r' || c as int == 0x0C || c as int == 0x0B
  }

  predicate NeedsEscape(c: char) {
    IsRegexpMeta(c) || IsSpelledControl(c)
  }

  /** The escaped form of one character. */
  function EscapeChar(c: char): (r: string)
    ensures NeedsEscape(c) <==> |r| == 2
    ensures NeedsEscape(c) ==> r[0] == '\\'
    ensures !NeedsEscape(c) ==> r == [c]
  {
    if c == '\t' then "\\t"
    else if c == '\n' then "\\n"
    else if c == '\r' then "\\r"
    else if c as int == 0x0C then "\\f"
    else if c as int == 0x0B then "\\v"
    else if IsRegexpMeta(c) then ['\\', c]
    else [c]
  }

  /**
   * `Regexp.escape(t)`: each character that needs it is escaped. The result
   * is at least as long as `t`, holds a backslash exactly when some character
   * of `t` needs escaping, and is `t` itself when none does.
   */
  function RegexpEscape(t: string): (r: string)
    ensures |r| >= |t|
    ensures '\\' in r <==> exists i :: 0 <= i < |t| && NeedsEscape(t[i])
    ensures (forall i :: 0 <= i < |t| ==> !NeedsEscape(t[i])) ==> r == t
    ensures t != [] ==> r[0] == (if NeedsEscape(t[0]) then '\\' else t[0])
  {
    if t == [] then []
    else
      var head, tail := EscapeChar(t[0]), RegexpEscape(t[1..]);
      assert forall i :: 1 <= i < |t| ==> t[i] == t[1..][i - 1];
      assert t == [t[0]] + t[1..];
      head + tail
  }

  /** The character an escape letter stands for. */
  function UnescapeLetter(c: char): char {
    if c == 't' then '\t'
    else if c == 'n' then '\n'
    else if c == 'r' then '\r'
    else if c == 'f' then 0x0C as char
    else if c == 'v' then 0x0B as char
    else c
  }

  /** Reads escaped text back: a backslash and the next character stand for one character. */
  function Unescape(r: string): string
    decreases |r|
  {
    if r == [] then []
    else if r[0] == '\\' && |r| >= 2 then [UnescapeLetter(r[1])] + Unescape(r[2..])
    else [r[0]] + Unescape(r[1..])
  }

  /** Reading back one escaped character. */
  lemma UnescapeChar(c: char, rest: string)
    ensures Unescape(EscapeChar(c) + rest) == [c] + Unescape(rest)
  {
    var e := EscapeChar(c);
    if NeedsEscape(c) {
      assert (e + rest)[2..] == rest;
      assert UnescapeLetter(e[1]) == c;
    } else {
      assert (e + rest)[1..] == rest;
    }
  }

  /** Escaping loses nothing: reading the escaped text back gives the token again. */
  lemma {:induction false} EscapeRoundTrip(t: string)
    ensures Unescape(RegexpEscape(t)) == t
  {
    if t != [] {
      assert RegexpEscape(t) == EscapeChar(t[0]) + RegexpEscape(t[1..]);
      UnescapeChar(t[0], RegexpEscape(t[1..]));
      EscapeRoundTrip(t[1..]);
      assert t == [t[0]] + t[1..];
    }
  }

  /** Escaping works character by character, so it distributes over concatenation. */
  lemma {:induction false} EscapeConcat(a: string, b: string)
    ensures RegexpEscape(a + b) == RegexpEscape(a) + RegexpEscape(b)
  {
    if a != [] {
      assert (a + b)[1..] == a[1..] + b;
      EscapeConcat(a[1..], b);
    } else {
      assert a + b == b;
    }
  }

  /** `Regexp.escape` of `"%#{n}$#{conv}"`: the `$` gains a backslash. */
  function EscapedPositional(conv: char, n: nat): string {
    "%" + Decimal(n) + "\\$" + [conv]
  }

  /** The escaped positional specifiers for 1..count with one conversion letter. */
  function EscapedRun(conv: char, count: nat): (r: seq<string>)
    ensures |r| == count
  {
    if count == 0 then [] else EscapedRun(conv, count - 1) + [EscapedPositional(conv, count)]
  }

  /**
   * The texts the alternatives of the pattern match, in the order of
   * `SPECIAL_STRINGS`: `%%`, two backslashes and `n`, the bare specifiers,
   * then the escaped positional specifiers.
   */
  function Alternatives(): (r: seq<string>)
    ensures |r| == 65
  {
    ["%%", "\\\\n", "%s", "%d", "%@"]
      + EscapedRun('s', 20) + EscapedRun('d', 20) + EscapedRun('@', 20)
  }

  /** `%%`, `%s`, `%d` or `%@`: the tokens with nothing to escape. */
  predicate IsBareToken(t: string) {
    |t| == 2 && t[0] == '%' && (t[1] == '%' || IsConversion(t[1]))
  }

  /** The alternatives as a grammar. */
  ghost predicate IsAlternative(t: string) {
    || IsBareToken(t)
    || t == "\\\\n"
    || exists c: char, n: nat :: IsConversion(c) && 1 <= n <= 20 && t == EscapedPositional(c, n)
  }

  /** Text with nothing to escape is left as it is. */
  lemma EscapeLeavesPlain(t: string)
    requires forall i :: 0 <= i < |t| ==> !NeedsEscape(t[i])
    ensures RegexpEscape(t) == t
  {
  }

  /** Escaping a positional specifier puts a backslash before its `$` and changes nothing else. */
  lemma EscapePositional(c: char, n: nat)
    requires IsConversion(c)
    ensures RegexpEscape(PositionalText(c, n)) == EscapedPositional(c, n)
  {
    var d := Decimal(n);
    var head := "%" + d;
    assert forall i :: 0 <= i < |head| ==> !NeedsEscape(head[i]) by {
      assert forall i :: 1 <= i < |head| ==> head[i] == d[i - 1];
    }
    EscapeLeavesPlain(head);
    EscapeLeavesPlain([c]);
    assert RegexpEscape("$") == "\\$";
    EscapeConcat(head + "$", [c]);
    EscapeConcat(head, "$");
    assert PositionalText(c, n) == head + "$" + [c];
  }

  /** Each escaped run is its positional run escaped element by element. */
  lemma {:induction false} EscapedRunIsEscape(conv: char, count: nat)
    requires IsConversion(conv)
    ensures forall j :: 0 <= j < count ==> EscapedRun(conv, count)[j] == RegexpEscape(PositionalRun(conv, count)[j])
  {
    if count > 0 {
      var es, ps := EscapedRun(conv, count - 1), PositionalRun(conv, count - 1);
      EscapedRunIsEscape(conv, count - 1);
      EscapePositional(conv, count);
      assert EscapedRun(conv, count) == es + [EscapedPositional(conv, count)];
      assert PositionalRun(conv, count) == ps + [PositionalText(conv, count)];
      forall j | 0 <= j < count
        ensures EscapedRun(conv, count)[j] == RegexpEscape(PositionalRun(conv, count)[j])
      {
        if j < count - 1 {
          assert EscapedRun(conv, count)[j] == es[j];
          assert PositionalRun(conv, count)[j] == ps[j];
        }
      }
    }
  }

  /** A two-character text is escaped one character at a time. */
  lemma EscapePair(a: char, b: char)
    ensures RegexpEscape([a, b]) == EscapeChar(a) + EscapeChar(b)
  {
    assert [a, b][1..] == [b];
    assert [b][1..] == [];
  }

  /** Escaping leaves `%%`, `%s`, `%d`, `%@` alone and doubles the backslash of backslash-n. */
  lemma EscapeLiteralTokens()
    ensures RegexpEscape("%%") == "%%" && RegexpEscape("%s") == "%s"
    ensures RegexpEscape("%d") == "%d" && RegexpEscape("%@") == "%@"
    ensures RegexpEscape("\\n") == "\\\\n"
  {
    EscapeBare('%');
    EscapeBare('s');
    EscapeBare('d');
    EscapeBare('@');
    EscapePair('\\', 'n');
    assert EscapeChar('n') == "n";
    assert EscapeChar('\\') == "\\\\";
  }

  /** `%` followed by `%` or a conversion letter has nothing to escape. */
  lemma EscapeBare(c: char)
    requires c == '%' || IsConversion(c)
    ensures RegexpEscape(['%', c]) == ['%', c]
  {
    EscapePair('%', c);
  }

  /** The alternatives are `SPECIAL_STRINGS` escaped one by one, in the same order. */
  lemma AlternativesAreEscapedTokens()
    ensures forall i :: 0 <= i < 65 ==> Alternatives()[i] == RegexpEscape(SpecialStrings()[i])
  {
    forall i | 0 <= i < 65 ensures Alternatives()[i] == RegexpEscape(SpecialStrings()[i]) {
      AlternativeAt(i);
    }
  }

  /** The alternative at index `i` is the token at index `i`, escaped. */
  lemma AlternativeAt(i: nat)
    requires i < 65
    ensures Alternatives()[i] == RegexpEscape(SpecialStrings()[i])
  {
    if i < 5 {
      LiteralAlternatives();
    } else {
      RunAlternatives((i - 5) % 20);
      if i < 25 {
        EscapedRunIsEscape('s', 20);
      } else if i < 45 {
        EscapedRunIsEscape('d', 20);
      } else {
        EscapedRunIsEscape('@', 20);
      }
    }
  }

  /** Past the five literal tokens, both lists hold their three runs in the same places. */
  lemma RunAlternatives(k: nat)
    requires k < 20
    ensures SpecialStrings()[5 + k] == PositionalRun('s', 20)[k] && Alternatives()[5 + k] == EscapedRun('s', 20)[k]
    ensures SpecialStrings()[25 + k] == PositionalRun('d', 20)[k] && Alternatives()[25 + k] == EscapedRun('d', 20)[k]
    ensures SpecialStrings()[45 + k] == PositionalRun('@', 20)[k] && Alternatives()[45 + k] == EscapedRun('@', 20)[k]
  {
    SplitLists();
  }

  /** Both lists are five literal tokens followed by their `s`, `d` and `@` runs. */
  lemma SplitLists()
    ensures SpecialStrings()[..5] == ["%%", "\\n", "%s", "%d", "%@"]
    ensures Alternatives()[..5] == ["%%", "\\\\n", "%s", "%d", "%@"]
    ensures SpecialStrings() == SpecialStrings()[..5] + PositionalRun('s', 20) + PositionalRun('d', 20) + PositionalRun('@', 20)
    ensures Alternatives() == Alternatives()[..5] + EscapedRun('s', 20) + EscapedRun('d', 20) + EscapedRun('@', 20)
  {
  }

  /** The first five alternatives are the five literal tokens, escaped. */
  lemma LiteralAlternatives()
    ensures forall i :: 0 <= i < 5 ==> Alternatives()[i] == RegexpEscape(SpecialStrings()[i])
  {
    SplitLists();
    LiteralPairs(SpecialStrings()[..5], Alternatives()[..5]);
    assert forall i :: 0 <= i < 5 ==> SpecialStrings()[i] == SpecialStrings()[..5][i];
    assert forall i :: 0 <= i < 5 ==> Alternatives()[i] == Alternatives()[..5][i];
  }

  /** The five escaped literals are the five literal tokens escaped, position by position. */
  lemma LiteralPairs(lits: seq<string>, escaped: seq<string>)
    requires lits == ["%%", "\\n", "%s", "%d", "%@"]
    requires escaped == ["%%", "\\\\n", "%s", "%d", "%@"]
    ensures forall i :: 0 <= i < 5 ==> escaped[i] == RegexpEscape(lits[i])
  {
    EscapeLiteralTokens();
  }

  /** An escaped run holds the escaped specifiers for exactly the indices 1..count. */
  lemma {:induction false} EscapedRunMembers(conv: char, count: nat, t: string)
    ensures t in EscapedRun(conv, count) <==> exists n: nat :: 1 <= n <= count && t == EscapedPositional(conv, n)
  {
    if count > 0 {
      EscapedRunMembers(conv, count - 1, t);
    }
  }

  /** The list of alternatives holds exactly the strings the grammar describes. */
  lemma AlternativesAreGrammar()
    ensures forall t :: t in Alternatives() <==> IsAlternative(t)
  {
    forall t ensures t in Alternatives() <==> IsAlternative(t) {
      AlternativesParts(t);
      EscapedLiterals(t);
      EscapedRuns(t);
    }
  }

  /** An alternative is one of the five escaped literals or a member of one of the escaped runs. */
  lemma AlternativesParts(t: string)
    ensures t in Alternatives() <==>
      || t in ["%%", "\\\\n", "%s", "%d", "%@"]
      || t in EscapedRun('s', 20) || t in EscapedRun('d', 20) || t in EscapedRun('@', 20)
  {
  }

  /** The five escaped literals are the bare tokens and two backslashes followed by `n`. */
  lemma EscapedLiterals(t: string)
    ensures t in ["%%", "\\\\n", "%s", "%d", "%@"] <==> IsBareToken(t) || t == "\\\\n"
  {
    if IsBareToken(t) {
      assert t == ['%', t[1]];
    }
  }

  /** The escaped runs hold the escaped positional specifiers with index 1..20, and only them. */
  lemma EscapedRuns(t: string)
    ensures (t in EscapedRun('s', 20) || t in EscapedRun('d', 20) || t in EscapedRun('@', 20)) <==>
      exists c: char, n: nat :: IsConversion(c) && 1 <= n <= 20 && t == EscapedPositional(c, n)
  {
    if exists c: char, n: nat :: IsConversion(c) && 1 <= n <= 20 && t == EscapedPositional(c, n) {
      var c: char, n: nat :| IsConversion(c) && 1 <= n <= 20 && t == EscapedPositional(c, n);
      EscapedRunMembers(c, 20, t);
    }
    forall c | IsConversion(c) && t in EscapedRun(c, 20)
      ensures exists c: char, n: nat :: IsConversion(c) && 1 <= n <= 20 && t == EscapedPositional(c, n)
    {
      EscapedRunMembers(c, 20, t);
      var n: nat :| 1 <= n <= 20 && t == EscapedPositional(c, n);
    }
    assert IsConversion('s') && IsConversion('d') && IsConversion('@');
  }

  /**
   * Each alternative is at least two characters long and starts with `%` or a
   * backslash; it is a bare token or it holds a backslash.
   */
  lemma AlternativeKinds(t: string)
    requires IsAlternative(t)
    ensures |t| >= 2 && (t[0] == '%' || t[0] == '\\')
    ensures IsBareToken(t) || '\\' in t
  {
    if exists c: char, n: nat :: IsConversion(c) && 1 <= n <= 20 && t == EscapedPositional(c, n) {
      var c: char, n: nat :| IsConversion(c) && 1 <= n <= 20 && t == EscapedPositional(c, n);
      var d := Decimal(n);
      assert t[|d| + 1] == '\\';
    } else if t == "\\\\n" {
      assert t[0] == '\\';
    }
  }

  /** The four bare tokens are alternatives. */
  lemma BareTokensAreAlternatives()
    ensures forall t :: IsBareToken(t) ==> t in Alternatives()
  {
    AlternativesAreGrammar();
    forall t | IsBareToken(t) ensures IsAlternative(t) {
    }
  }

  /** A vocabulary token without `$` and without a backslash is a bare token. */
  lemma VocabularyWithoutMeta(t: string)
    requires InVocabulary(t)
    ensures '$' in t || '\\' in t || IsBareToken(t)
  {
    if exists c: char, n: nat :: IsConversion(c) && 1 <= n <= 20 && t == PositionalText(c, n) {
      var c: char, n: nat :| IsConversion(c) && 1 <= n <= 20 && t == PositionalText(c, n);
      PositionalShape(c, n);
      assert t[|t| - 2] == '$';
    } else if t == "\\n" {
      assert t[0] == '\\';
    }
  }

  /** A character that is not in `s` is not in any prefix of `s`. */
  lemma CharNotInPrefix(p: string, s: string, c: char)
    ensures IsPrefix(p, s) && c !in s ==> c !in p
  {
    if IsPrefix(p, s) && c in p {
      var k :| 0 <= k < |p| && p[k] == c;
      assert s[k] == c;
    }
  }

  /**
   * In a value without backslash, an alternative it starts with is a bare
   * token, and is the token the intended scan reads off there.
   */
  lemma AlternativePrefixIsBare(s: string, u: string)
    ensures IsAlternative(u) && IsPrefix(u, s) && '\\' !in s ==> IsBareToken(u) && TokenAt(s) == Some(u)
  {
    if IsAlternative(u) && IsPrefix(u, s) && '\\' !in s {
      AlternativeKinds(u);
      CharNotInPrefix(u, s, '\\');
      assert InVocabulary(u) by {
        assert u == "%%" || (|u| == 2 && u[0] == '%' && IsConversion(u[1]));
      }
      TokenAtComplete(s, u);
    }
  }

  /**
   * One step of the pattern as built: in a value with neither a backslash nor
   * a `$`, the first alternative it starts with is the token the intended
   * scan reads off.
   */
  lemma StepAgrees(s: string)
    requires '\\' !in s && '$' !in s
    ensures FirstPrefix(Alternatives(), s) == TokenAt(s)
  {
    if TokenAt(s).Some? {
      var t := TokenAt(s).value;
      CharNotInPrefix(t, s, '\\');
      CharNotInPrefix(t, s, '$');
      VocabularyWithoutMeta(t);
      BareTokensAreAlternatives();
      var u := FirstPrefix(Alternatives(), s).value;
      AlternativesAreGrammar();
      AlternativePrefixIsBare(s, u);
    } else {
      AlternativesAreGrammar();
      forall u | u in Alternatives() ensures !IsPrefix(u, s) {
        AlternativePrefixIsBare(s, u);
      }
    }
  }

  /**
   * `value.scan(regex)` with the pattern as built: from left to right, emit
   * the first alternative, in list order, whose text starts at the current
   * position; where none does, move on by one character.
   */
  function ScanAsWritten(s: string): (r: seq<string>)
    ensures forall t :: t in r ==> IsAlternative(t) && Includes(s, t)
    decreases |s|
  {
    if s == [] then []
    else match FirstPrefix(Alternatives(), s)
      case Some(t) =>
        AlternativesAreGrammar();
        AlternativeKinds(t);
        IncludedInSuffix(s, |t|);
        [t] + ScanAsWritten(s[|t|..])
      case None =>
        IncludedInSuffix(s, 1);
        ScanAsWritten(s[1..])
  }

  /** The characters of an escaped positional specifier with index 1..20. */
  lemma EscapedPositionalShape(c: char, n: nat)
    requires 1 <= n <= 20
    ensures var e := EscapedPositional(c, n);
      && (|e| == 5 || |e| == 6) && e[0] == '%' && IsDigit(e[1]) && e[|e| - 3] == '\\'
      && (|e| == 6 ==> IsDigit(e[2]))
  {
    var d := Decimal(n);
    if n >= 10 {
      assert d == Decimal(n / 10) + [DigitChar(n % 10)];
    }
    assert EscapedPositional(c, n)[1] == d[0];
    assert |d| == 2 ==> EscapedPositional(c, n)[2] == d[1];
  }

  /**
   * The alternatives by length: a bare token has two characters and no digit
   * after its `%`, backslash-backslash-n has three, and an escaped positional
   * specifier five or six, with a backslash three from the end.
   */
  lemma AlternativeShape(t: string)
    requires IsAlternative(t)
    ensures |t| == 2 || |t| == 3 || |t| == 5 || |t| == 6
    ensures |t| == 2 ==> t[0] == '%' && !IsDigit(t[1])
    ensures |t| == 3 ==> t[0] == '\\'
    ensures |t| >= 5 ==> t[0] == '%' && IsDigit(t[1]) && t[|t| - 3] == '\\'
    ensures |t| == 6 ==> IsDigit(t[2])
  {
    if exists c: char, n: nat :: IsConversion(c) && 1 <= n <= 20 && t == EscapedPositional(c, n) {
      var c: char, n: nat :| IsConversion(c) && 1 <= n <= 20 && t == EscapedPositional(c, n);
      EscapedPositionalShape(c, n);
    } else if t == "\\\\n" {
      assert t[0] == '\\';
    }
  }

  /** No alternative is a proper prefix of another, so at most one starts at any position. */
  lemma AlternativesPrefixFree(t: string, u: string)
    ensures IsAlternative(t) && IsAlternative(u) && IsPrefix(t, u) ==> t == u
  {
    if IsAlternative(t) && IsAlternative(u) && |t| < |u| {
      AlternativeShape(t);
      AlternativeShape(u);
      var k := if |t| == 2 && u[0] == '%' then 1 else if |t| == 5 then 2 else 0;
      assert t[k] != u[k];
      assert u[..|t|][k] == u[k];
    } else if |t| == |u| {
      assert u[..|t|] == u;
    }
  }

  /** An alternative the value starts with is the one the pattern as built tries first. */
  lemma FirstAlternativeAt(s: string, t: string)
    requires IsAlternative(t) && IsPrefix(t, s)
    ensures FirstPrefix(Alternatives(), s) == Some(t)
  {
    AlternativesAreGrammar();
    var u := FirstPrefix(Alternatives(), s).value;
    AlternativeShape(t);
    AlternativeShape(u);
    if |u| <= |t| {
      PrefixesOfOneString(u, t, s);
      AlternativesPrefixFree(u, t);
    } else {
      PrefixesOfOneString(t, u, s);
      AlternativesPrefixFree(t, u);
    }
  }

  /** What one step of the pattern as built matches is an alternative. */
  lemma FirstFoundIsAlternative(s: string)
    ensures FirstPrefix(Alternatives(), s).Some? ==> IsAlternative(FirstPrefix(Alternatives(), s).value)
  {
    AlternativesAreGrammar();
  }

  /** Where no alternative starts, the pattern as built moves on by one character. */
  lemma ScanAsWrittenSkips(s: string)
    requires s != [] && forall u :: IsAlternative(u) ==> !IsPrefix(u, s)
    ensures ScanAsWritten(s) == ScanAsWritten(s[1..])
  {
    FirstFoundIsAlternative(s);
  }

  /** Where alternative `t` starts, the pattern as built takes it and resumes after it. */
  lemma ScanAsWrittenTakes(s: string, t: string)
    requires IsAlternative(t) && IsPrefix(t, s)
    ensures ScanAsWritten(s) == [t] + ScanAsWritten(s[|t|..])
  {
    AlternativeShape(t);
    FirstAlternativeAt(s, t);
  }

  /**
   * Leftmost matching with the pattern as built: when alternative `t` occurs
   * at `i` and no alternative occurs before `i`, the scan finds `t` first and
   * resumes right after it.
   */
  lemma ScanAsWrittenLeftmost(s: string, t: string, i: nat)
    requires IsAlternative(t) && OccursAt(s, t, i)
    requires forall j: nat, u :: j < i && IsAlternative(u) ==> !OccursAt(s, u, j)
    ensures ScanAsWritten(s) == [t] + ScanAsWritten(s[i + |t|..])
  {
    ScanAsWrittenSkipsTo(s, i);
    var rest := s[i..];
    assert IsPrefix(t, rest) by {
      assert rest[..|t|] == s[i..i + |t|];
    }
    ScanAsWrittenTakes(rest, t);
    assert rest[|t|..] == s[i + |t|..];
  }

  /** Where no alternative occurs before `i`, the pattern as built moves straight on to `i`. */
  lemma {:induction false} ScanAsWrittenSkipsTo(s: string, i: nat)
    requires i <= |s|
    requires forall j: nat, u :: j < i && IsAlternative(u) ==> !OccursAt(s, u, j)
    ensures ScanAsWritten(s) == ScanAsWritten(s[i..])
    decreases i
  {
    if i > 0 {
      NoAlternativeBefore(s, i);
      ScanAsWrittenSkips(s);
      ScanAsWrittenSkipsTo(s[1..], i - 1);
      assert s[1..][i - 1..] == s[i..];
    }
  }

  /**
   * When no alternative occurs before `i > 0`, none starts the value, and
   * none occurs before `i - 1` in the value without its first character.
   */
  lemma NoAlternativeBefore(s: string, i: nat)
    requires 0 < i <= |s|
    requires forall j: nat, u :: j < i && IsAlternative(u) ==> !OccursAt(s, u, j)
    ensures forall u :: IsAlternative(u) ==> !IsPrefix(u, s)
    ensures forall j: nat, u :: j < i - 1 && IsAlternative(u) ==> !OccursAt(s[1..], u, j)
  {
    forall u | IsAlternative(u) ensures !IsPrefix(u, s) {
      if |u| <= |s| {
        assert s[0..|u|] == s[..|u|];
      }
      assert !OccursAt(s, u, 0);
    }
    forall j: nat, u | j < i - 1 && IsAlternative(u)
      ensures !OccursAt(s[1..], u, j)
    {
      OccursInTail(s, u, j);
    }
  }

  /** A value in which some alternative occurs yields at least one match as written. */
  lemma {:induction false} ScanAsWrittenFindsOccurrence(s: string, t: string, i: nat)
    requires IsAlternative(t) && OccursAt(s, t, i)
    ensures ScanAsWritten(s) != []
    decreases i
  {
    AlternativeShape(t);
    if i == 0 {
      assert s[..|t|] == s[0..|t|];
      ScanAsWrittenTakes(s, t);
    } else if FirstPrefix(Alternatives(), s).None? {
      OccursInTail(s, t, i - 1);
      ScanAsWrittenFindsOccurrence(s[1..], t, i - 1);
    }
  }

  /** The pattern as built finds nothing exactly when no alternative occurs in the value. */
  lemma ScanAsWrittenEmptyIff(s: string)
    ensures ScanAsWritten(s) == [] <==> forall t :: IsAlternative(t) ==> !Includes(s, t)
  {
    if exists t :: IsAlternative(t) && Includes(s, t) {
      var t :| IsAlternative(t) && Includes(s, t);
      var i: nat :| i <= |s| && OccursAt(s, t, i);
      ScanAsWrittenFindsOccurrence(s, t, i);
    } else {
      assert ScanAsWritten(s) != [] ==> ScanAsWritten(s)[0] in ScanAsWritten(s);
    }
  }

  /**
   * On a value with neither a backslash nor a `$` the pattern as built finds
   * exactly what the intended scan finds.
   */
  lemma {:induction false} ScanAsWrittenAgrees(s: string)
    requires '\\' !in s && '$' !in s
    ensures ScanAsWritten(s) == Scan(s)
    decreases |s|
  {
    if s != [] {
      StepAgrees(s);
      match TokenAt(s)
      case Some(t) =>
        VocabularyShape(t);
        assert forall c :: c in s[|t|..] ==> c in s;
        ScanAsWrittenAgrees(s[|t|..]);
      case None =>
        assert forall c :: c in s[1..] ==> c in s;
        ScanAsWrittenAgrees(s[1..]);
    }
  }

  /** A value without backslash that includes no bare token yields nothing as written. */
  lemma NothingFoundWithoutBareTokens(s: string)
    requires '\\' !in s
    requires forall t :: IsBareToken(t) ==> !Includes(s, t)
    ensures ScanAsWritten(s) == []
  {
    FirstFoundIsBare(s);
  }

  /** In a value without backslash, the first thing found as written is a bare token of it. */
  lemma FirstFoundIsBare(s: string)
    ensures var r := ScanAsWritten(s);
      '\\' !in s && r != [] ==> IsBareToken(r[0]) && Includes(s, r[0])
  {
    var r := ScanAsWritten(s);
    if '\\' !in s && r != [] {
      OnlyBareTokensWithoutBackslash(s);
      assert r[0] in r;
    }
  }

  /** In a value without backslash the pattern as built finds bare tokens only. */
  lemma OnlyBareTokensWithoutBackslash(s: string)
    requires '\\' !in s
    ensures forall t :: t in ScanAsWritten(s) ==> IsBareToken(t)
  {
    forall t | t in ScanAsWritten(s) ensures IsBareToken(t) {
      AlternativeKinds(t);
    }
  }

  /**
   * In plain text around a positional specifier the only `%` is the
   * specifier's own, it is followed by a digit, and there is no backslash.
   */
  lemma PositionalLayout(text: string, c: char, n: nat, after: string)
    requires '%' !in text && '\\' !in text && '%' !in after && '\\' !in after
    requires IsConversion(c) && 1 <= n <= 20
    ensures var s := text + PositionalText(c, n) + after;
      && '\\' !in s && |text| + 1 < |s| && IsDigit(s[|text| + 1])
      && forall k :: 0 <= k < |s| && s[k] == '%' ==> k == |text|
  {
    var p := PositionalText(c, n);
    var s := text + p + after;
    PositionalShape(c, n);
    forall k | 0 <= k < |s|
      ensures s[k] != '\\'
      ensures s[k] == '%' ==> k == |text|
    {
      if k < |text| {
        assert s[k] == text[k];
      } else if k < |text| + |p| {
        assert s[k] == p[k - |text|];
      } else {
        assert s[k] == after[k - |text| - |p|];
      }
    }
    assert s[|text| + 1] == p[1];
  }

  /** A value whose only `%` is followed by a digit includes no bare token. */
  lemma NoBareTokenIncluded(s: string, j: nat)
    requires j + 1 < |s| && IsDigit(s[j + 1])
    requires forall k :: 0 <= k < |s| && s[k] == '%' ==> k == j
    ensures forall t :: IsBareToken(t) ==> !Includes(s, t)
  {
    forall t | IsBareToken(t) ensures !Includes(s, t) {
      forall i: nat | i <= |s| ensures !OccursAt(s, t, i) {
        if i + 2 <= |s| && s[i] == '%' {
          assert s[i + 1] != t[1];
        }
      }
    }
  }

  /** The intended scan finds a positional specifier between plain texts. */
  lemma ScanFindsPositional(text: string, c: char, n: nat, after: string)
    requires '%' !in text && '\\' !in text && '%' !in after && '\\' !in after
    requires IsConversion(c) && 1 <= n <= 20
    ensures Scan(text + PositionalText(c, n) + after) == [PositionalText(c, n)]
  {
    var p := PositionalText(c, n);
    assert InVocabulary(p);
    ScanTokenThenPlain(p, after);
    ScanPlain(text, p + after);
    assert text + p + after == text + (p + after);
  }

  /**
   * Plain text, a positional specifier with index 1..20, plain text: the
   * intended scan finds the specifier, the pattern as built finds nothing.
   */
  lemma PositionalMissedAsWritten(text: string, c: char, n: nat, after: string)
    requires '%' !in text && '\\' !in text && '%' !in after && '\\' !in after
    requires IsConversion(c) && 1 <= n <= 20
    ensures Scan(text + PositionalText(c, n) + after) == [PositionalText(c, n)]
    ensures ScanAsWritten(text + PositionalText(c, n) + after) == []
  {
    var s := text + PositionalText(c, n) + after;
    ScanFindsPositional(text, c, n, after);
    PositionalLayout(text, c, n, after);
    NoBareTokenIncluded(s, |text|);
    NothingFoundWithoutBareTokens(s);
  }

  /**
   * The escaped text of a positional specifier, `%`, the index, a backslash,
   * `$` and the conversion letter, is what the pattern as built finds.
   */
  lemma EscapedPositionalFoundAsWritten(c: char, n: nat, rest: string)
    requires IsConversion(c) && 1 <= n <= 20
    ensures ScanAsWritten(EscapedPositional(c, n) + rest) != []
  {
    var e := EscapedPositional(c, n);
    AlternativesAreGrammar();
    assert IsAlternative(e);
    var s := e + rest;
    assert IsPrefix(e, s);
    assert FirstPrefix(Alternatives(), s).Some?;
  }
}
