/**
 * The four checks `perform_checks` runs on one (base, other) pair of parsed
 * `.strings` files. Each returns only the boolean verdict; what the source
 * prints along the way is not modelled.
 */
module LocaleChecks {
  import opened Wrappers
  import opened Text
  import opened ArrayOps
  import opened Placeholders
  import opened StrayPercent
  import opened EscapedUnion

  /** One single-entry hash `{ key => value }` of `key_values`. */
  datatype KeyValue = KeyValue(key: string, value: string)

  /**
   * What the parser yields for one `.strings` file: the `keys` array, the
   * `comments` hash as its ordered `[key, comment]` pairs, and `key_values`.
   */
  datatype StringsFile = StringsFile(
    keys: seq<string>,
    comments: seq<(string, string)>,
    keyValues: seq<KeyValue>)

  // ---------------------------------------------------------------- keys

  lemma StringOrderIsTotal()
    ensures IsTotalOrder(StringLe)
  {
    forall a, b ensures StringLe(a, b) || StringLe(b, a) {
      StringLeTotal(a, b);
    }
    forall a, b | StringLe(a, b) && StringLe(b, a) ensures a == b {
      StringLeAntisymmetric(a, b);
    }
    forall a, b, c | StringLe(a, b) && StringLe(b, c) ensures StringLe(a, c) {
      StringLeTransitive(a, b, c);
    }
  }

  /**
   * `check_same_keys`: `base_keys.sort == other_keys.sort`, which holds
   * exactly when both hold the same keys equally often, in whatever order.
   */
  function CheckSameKeys(baseKeys: seq<string>, otherKeys: seq<string>): (same: bool)
    ensures same <==> multiset(baseKeys) == multiset(otherKeys)
  {
    StringOrderIsTotal();
    SortEqualIffSameMultiset(baseKeys, otherKeys, StringLe);
    Sort(baseKeys, StringLe) == Sort(otherKeys, StringLe)
  }

  /** Reordering the base keys never changes the verdict. */
  lemma CheckSameKeysIgnoresOrder(baseKeys: seq<string>, reordered: seq<string>, otherKeys: seq<string>)
    requires multiset(reordered) == multiset(baseKeys)
    ensures CheckSameKeys(reordered, otherKeys) == CheckSameKeys(baseKeys, otherKeys)
  {
  }

  /** For key lists without repeats the check is plain set equality. */
  lemma CheckSameKeysIsSetEquality(baseKeys: seq<string>, otherKeys: seq<string>)
    requires NoDuplicates(baseKeys) && NoDuplicates(otherKeys)
    ensures CheckSameKeys(baseKeys, otherKeys) <==> (set k | k in baseKeys) == (set k | k in otherKeys)
  {
    DistinctMultisetIsSet(baseKeys, otherKeys);
  }

  // ------------------------------------------------------------ comments

  /** `Array#<=>` on `[key, comment]` pairs: by key, then by comment. */
  predicate PairLe(p: (string, string), q: (string, string)) {
    if p.0 == q.0 then StringLe(p.1, q.1) else StringLe(p.0, q.0)
  }

  lemma PairOrderIsTotal()
    ensures IsTotalOrder(PairLe)
  {
    forall p, q ensures PairLe(p, q) || PairLe(q, p) {
      StringLeTotal(p.0, q.0);
      StringLeTotal(p.1, q.1);
    }
    forall p, q | PairLe(p, q) && PairLe(q, p) ensures p == q {
      if p.0 == q.0 {
        StringLeAntisymmetric(p.1, q.1);
      } else {
        StringLeAntisymmetric(p.0, q.0);
      }
    }
    forall p, q, r | PairLe(p, q) && PairLe(q, r) ensures PairLe(p, r) {
      if p.0 == q.0 && q.0 == r.0 {
        StringLeTransitive(p.1, q.1, r.1);
      } else if p.0 == r.0 {
        StringLeAntisymmetric(p.0, q.0);
      } else if p.0 != q.0 && q.0 != r.0 {
        StringLeTransitive(p.0, q.0, r.0);
      }
    }
  }

  /**
   * `check_same_comments`: `base_comments.sort == other_comments.sort` on the
   * `[key, comment]` pairs, which holds exactly when both hold the same pairs.
   * No pair is set aside, not even one whose comment is empty.
   */
  function CheckSameComments(baseComments: seq<(string, string)>, otherComments: seq<(string, string)>): (same: bool)
    ensures same <==> multiset(baseComments) == multiset(otherComments)
  {
    PairOrderIsTotal();
    SortEqualIffSameMultiset(baseComments, otherComments, PairLe);
    Sort(baseComments, PairLe) == Sort(otherComments, PairLe)
  }

  /** The keys of a hash are distinct. */
  predicate UniqueKeys(pairs: seq<(string, string)>) {
    forall i, j :: 0 <= i < j < |pairs| ==> pairs[i].0 != pairs[j].0
  }

  /** The hash as a map from key to comment. */
  function AsMap(pairs: seq<(string, string)>): map<string, string> {
    if pairs == [] then map[] else AsMap(pairs[1..])[pairs[0].0 := pairs[0].1]
  }

  /** In a hash with distinct keys, a pair is present exactly when the map agrees with it. */
  lemma {:induction false} AsMapHolds(pairs: seq<(string, string)>)
    requires UniqueKeys(pairs)
    ensures forall p :: p in pairs <==> p.0 in AsMap(pairs) && AsMap(pairs)[p.0] == p.1
    ensures forall k :: k in AsMap(pairs) ==> (k, AsMap(pairs)[k]) in pairs
  {
    if pairs != [] {
      var rest := pairs[1..];
      assert UniqueKeys(rest);
      AsMapHolds(rest);
      forall p | p in rest ensures p.0 != pairs[0].0 {
        var j :| 0 <= j < |rest| && rest[j] == p;
        assert pairs[j + 1] == p;
      }
      assert pairs == [pairs[0]] + rest;
    }
  }

  /**
   * For two hashes the comment check is hash equality: the same keys, each
   * with the same comment.
   */
  lemma CheckSameCommentsIsHashEquality(baseComments: seq<(string, string)>, otherComments: seq<(string, string)>)
    requires UniqueKeys(baseComments) && UniqueKeys(otherComments)
    ensures CheckSameComments(baseComments, otherComments) <==> AsMap(baseComments) == AsMap(otherComments)
  {
    AsMapHolds(baseComments);
    AsMapHolds(otherComments);
    DistinctMultisetIsSet(baseComments, otherComments);
    var sb, so := set p | p in baseComments, set p | p in otherComments;
    if AsMap(baseComments) == AsMap(otherComments) {
      assert sb == so;
    }
    if sb == so {
      forall k | k in AsMap(baseComments) ensures k in AsMap(otherComments) && AsMap(otherComments)[k] == AsMap(baseComments)[k] {
        assert (k, AsMap(baseComments)[k]) in sb;
      }
      forall k | k in AsMap(otherComments) ensures k in AsMap(baseComments) {
        assert (k, AsMap(otherComments)[k]) in so;
      }
    }
  }

  /**
   * An empty comment is compared like any other: base `{k1: "", k2: "note"}`
   * and other `{k1: "x", k2: "note"}` do not match.
   */
  lemma EmptyCommentIsCompared()
    ensures !CheckSameComments([("k1", ""), ("k2", "note")], [("k1", "x"), ("k2", "note")])
  {
    var b, o := [("k1", ""), ("k2", "note")], [("k1", "x"), ("k2", "note")];
    assert multiset(b)[("k1", "")] == 1;
    assert ("k1", "") !in o;
  }

  /** `hash.keys`, in order. */
  function KeysOf(pairs: seq<(string, string)>): (r: seq<string>)
    ensures |r| == |pairs| && forall i :: 0 <= i < |pairs| ==> r[i] == pairs[i].0
  {
    if pairs == [] then [] else [pairs[0].0] + KeysOf(pairs[1..])
  }

  /** `xs - ys`: the elements of `xs` that do not occur in `ys`, in order. */
  function Difference(xs: seq<string>, ys: seq<string>): (r: seq<string>)
    ensures forall x :: x in r <==> x in xs && x !in ys
  {
    if xs == [] then []
    else if xs[0] in ys then Difference(xs[1..], ys)
    else [xs[0]] + Difference(xs[1..], ys)
  }

  /** What a call of `check_same_comments` as written ends in. */
  datatype CommentsOutcome = Returned(same: bool) | RaisedNameError

  /**
   * `check_same_comments` as written: on a mismatch it computes
   * `missing_comment_keys`, but when that list is non-empty it iterates the
   * undefined `missing_comments`, so the call raises `NameError` instead of
   * returning.
   */
  function CheckSameCommentsAsWritten(baseComments: seq<(string, string)>, otherComments: seq<(string, string)>): (r: CommentsOutcome)
    ensures r.RaisedNameError? <==>
      && multiset(baseComments) != multiset(otherComments)
      && exists k :: k in KeysOf(baseComments) && k !in KeysOf(otherComments)
    ensures r.Returned? ==> r.same == CheckSameComments(baseComments, otherComments)
  {
    var same := CheckSameComments(baseComments, otherComments);
    var missingCommentKeys := Difference(KeysOf(baseComments), KeysOf(otherComments));
    assert missingCommentKeys != [] ==>
      missingCommentKeys[0] in KeysOf(baseComments) && missingCommentKeys[0] !in KeysOf(otherComments);
    if !same && missingCommentKeys != [] then RaisedNameError
    else Returned(same)
  }

  /** A base comment whose key the other file lacks makes the code as written raise. */
  lemma MissingCommentKeyRaises()
    ensures CheckSameCommentsAsWritten([("greeting", "Shown at launch")], []) == RaisedNameError
  {
    var b: seq<(string, string)> := [("greeting", "Shown at launch")];
    assert b[0].0 !in KeysOf([]);
  }

  // -------------------------------------------------- replacement strings

  /** `other_key_values.find { |hash| hash.key?(key) }&.[](key)`: the value of the first entry with `key`. */
  function Lookup(kvs: seq<KeyValue>, key: string): (r: Option<string>)
    ensures r.None? <==> forall i :: 0 <= i < |kvs| ==> kvs[i].key != key
    ensures r.Some? ==> exists i :: (0 <= i < |kvs| && kvs[i] == KeyValue(key, r.value)
      && forall j :: 0 <= j < i ==> kvs[j].key != key)
  {
    if kvs == [] then None
    else if kvs[0].key == key then Some(kvs[0].value)
    else
      var r := Lookup(kvs[1..], key);
      if r.Some? then
        var i :| 0 <= i < |kvs[1..]| && kvs[1..][i] == KeyValue(key, r.value)
          && (forall j :: 0 <= j < i ==> kvs[1..][j].key != key);
        assert kvs[i + 1] == KeyValue(key, r.value);
        assert forall j :: 1 <= j < i + 1 ==> kvs[j] == kvs[1..][j - 1];
        r
      else r
  }

  /** Whether `token` survives in the other value: `other_value&.include?(token)`. */
  predicate Present(otherValue: Option<string>, token: string) {
    otherValue.Some? && Includes(otherValue.value, token)
  }

  /** `matches.reject { |str| other_value&.include?(str) }` */
  function Missing(tokens: seq<string>, otherValue: Option<string>): (r: seq<string>)
    ensures forall t :: t in r <==> t in tokens && !Present(otherValue, t)
    ensures otherValue.None? ==> r == tokens
  {
    if tokens == [] then []
    else if Present(otherValue, tokens[0]) then Missing(tokens[1..], otherValue)
    else [tokens[0]] + Missing(tokens[1..], otherValue)
  }

  lemma {:induction false} NothingMissingWhenAllPresent(tokens: seq<string>, otherValue: Option<string>)
    requires forall t :: t in tokens ==> Present(otherValue, t)
    ensures Missing(tokens, otherValue) == []
  {
    if tokens != [] {
      NothingMissingWhenAllPresent(tokens[1..], otherValue);
    }
  }

  /** One `[key, missing_strings]` entry of `diff_list`. */
  datatype Diff = Diff(key: string, missing: seq<string>)

  /** Every placeholder the scan finds in the base value occurs in the other file's value for that key. */
  predicate PlaceholdersKept(kv: KeyValue, other: seq<KeyValue>) {
    forall t :: t in Scan(kv.value) ==> Present(Lookup(other, kv.key), t)
  }

  /** The tokens lost from one base entry: exactly its scanned placeholders absent from the other value. */
  lemma MissingTokensMeaning(kv: KeyValue, other: seq<KeyValue>)
    ensures forall t :: t in Missing(Tokens(kv.value), Lookup(other, kv.key)) <==>
      t in Scan(kv.value) && !Present(Lookup(other, kv.key), t)
  {
    UniqSameElements(Scan(kv.value));
  }

  /** Nothing is missing from the distinct tokens exactly when every token found is present. */
  lemma NothingMissingIffAllPresent(found: seq<string>, otherValue: Option<string>)
    ensures Missing(Uniq(found), otherValue) == [] <==> forall t :: t in found ==> Present(otherValue, t)
  {
    var missing := Missing(Uniq(found), otherValue);
    UniqSameElements(found);
    if missing != [] {
      assert missing[0] in missing;
    } else {
      forall t | t in found ensures Present(otherValue, t) {
        assert t in Uniq(found);
      }
    }
  }

  /** Nothing is lost from an entry exactly when all of its placeholders are kept. */
  lemma NothingMissingIffKept(kv: KeyValue, other: seq<KeyValue>)
    ensures Missing(Tokens(kv.value), Lookup(other, kv.key)) == [] <==> PlaceholdersKept(kv, other)
  {
    MissingTokensMeaning(kv, other);
    var missing := Missing(Tokens(kv.value), Lookup(other, kv.key));
    if !PlaceholdersKept(kv, other) {
      var t :| t in Scan(kv.value) && !Present(Lookup(other, kv.key), t);
      assert t in missing;
    } else {
      UniqSameElements(Scan(kv.value));
      NothingMissingWhenAllPresent(Tokens(kv.value), Lookup(other, kv.key));
    }
  }

  /**
   * What one base entry adds to `diff_list`: nothing exactly when all of its
   * placeholders are kept, otherwise its key with the non-empty list of
   * exactly the placeholders that were lost.
   */
  function EntryDiff(kv: KeyValue, other: seq<KeyValue>): (r: Option<Diff>)
    ensures r.None? <==> PlaceholdersKept(kv, other)
    ensures r.Some? ==> r.value.key == kv.key && r.value.missing != []
    ensures r.Some? ==> forall t :: t in r.value.missing <==>
      t in Scan(kv.value) && !Present(Lookup(other, kv.key), t)
  {
    var matches := Tokens(kv.value);
    MissingTokensMeaning(kv, other);
    NothingMissingIffKept(kv, other);
    assert matches == [] ==> Missing(matches, Lookup(other, kv.key)) == [];
    if matches == [] then None
    else
      var missing := Missing(matches, Lookup(other, kv.key));
      if missing == [] then None else Some(Diff(kv.key, missing))
  }

  /**
   * The `diff_list` that `each_with_object` builds over the base entries, in
   * order: empty exactly when every entry keeps its placeholders, and no
   * longer than the base list.
   */
  function DiffList(base: seq<KeyValue>, other: seq<KeyValue>): (r: seq<Diff>)
    ensures r == [] <==> forall i :: 0 <= i < |base| ==> PlaceholdersKept(base[i], other)
    ensures |r| <= |base|
  {
    if base == [] then []
    else
      var rest := DiffList(base[1..], other);
      assert forall i :: 1 <= i < |base| ==> base[i] == base[1..][i - 1];
      match EntryDiff(base[0], other)
      case Some(d) => [d] + rest
      case None => rest
  }

  /** Each element of `diff_list` is the diff of some base entry that lost placeholders. */
  lemma DiffListFromEntries(base: seq<KeyValue>, other: seq<KeyValue>)
    ensures forall d :: d in DiffList(base, other) ==>
      exists i :: 0 <= i < |base| && EntryDiff(base[i], other) == Some(d)
  {
    forall d | d in DiffList(base, other)
      ensures exists i :: 0 <= i < |base| && EntryDiff(base[i], other) == Some(d)
    {
      var i := DiffSource(base, other, d);
    }
  }

  /** The diff of one base entry, as a function of the entry. */
  function DiffStep(other: seq<KeyValue>): KeyValue -> Option<Diff> {
    kv => EntryDiff(kv, other)
  }

  /** `diff_list` is the walk over the base entries that pushes each entry's diff. */
  lemma {:induction false} DiffListIsCollect(base: seq<KeyValue>, other: seq<KeyValue>)
    ensures DiffList(base, other) == Collect(base, DiffStep(other))
  {
    if base != [] {
      DiffListIsCollect(base[1..], other);
      assert DiffStep(other)(base[0]) == EntryDiff(base[0], other);
    }
  }

  /**
   * `diff_list` keeps the order of the base entries: over two runs of
   * entries, one after the other, it is the diffs of the first run followed
   * by the diffs of the second.
   */
  lemma DiffListAppend(a: seq<KeyValue>, b: seq<KeyValue>, other: seq<KeyValue>)
    ensures DiffList(a + b, other) == DiffList(a, other) + DiffList(b, other)
  {
    DiffListIsCollect(a + b, other);
    DiffListIsCollect(a, other);
    DiffListIsCollect(b, other);
    CollectAppend(a, b, DiffStep(other));
  }

  /** Every base entry that lost placeholders has its diff in `diff_list`. */
  lemma DiffListComplete(base: seq<KeyValue>, other: seq<KeyValue>, i: nat)
    requires i < |base| && EntryDiff(base[i], other).Some?
    ensures EntryDiff(base[i], other).value in DiffList(base, other)
  {
    DiffListIsCollect(base, other);
    assert DiffStep(other)(base[i]) == EntryDiff(base[i], other);
    CollectComplete(base, DiffStep(other), i);
  }

  /** The index of a base entry whose diff is `d`. */
  lemma {:induction false} DiffSource(base: seq<KeyValue>, other: seq<KeyValue>, d: Diff) returns (i: nat)
    requires d in DiffList(base, other)
    ensures i < |base| && EntryDiff(base[i], other) == Some(d)
  {
    var rest := DiffList(base[1..], other);
    if d in rest {
      var j := DiffSource(base[1..], other, d);
      assert base[j + 1] == base[1..][j];
      i := j + 1;
    } else {
      i := 0;
    }
  }

  /**
   * `check_replace_strings`: true exactly when `diff_list` is empty, that is
   * when every base entry keeps all of its placeholders in the other file.
   */
  function CheckReplaceStrings(base: seq<KeyValue>, other: seq<KeyValue>): (ok: bool)
    ensures ok <==> forall i :: 0 <= i < |base| ==> PlaceholdersKept(base[i], other)
  {
    DiffList(base, other) == []
  }

  /** Every match of the pattern as built in the base value occurs in the other file's value. */
  predicate KeptAsWritten(kv: KeyValue, other: seq<KeyValue>) {
    forall t :: t in ScanAsWritten(kv.value) ==> Present(Lookup(other, kv.key), t)
  }

  /**
   * `check_replace_strings` with the pattern as it is built: the same walk
   * over the base entries, with the matches of the escaped alternation.
   */
  function CheckReplaceStringsAsWritten(base: seq<KeyValue>, other: seq<KeyValue>): (ok: bool)
    ensures ok <==> forall i :: 0 <= i < |base| ==> KeptAsWritten(base[i], other)
  {
    if base == [] then true
    else
      var found := ScanAsWritten(base[0].value);
      var matches := Uniq(found);
      var missing := Missing(matches, Lookup(other, base[0].key));
      NothingMissingIffAllPresent(found, Lookup(other, base[0].key));
      assert missing == [] <==> KeptAsWritten(base[0], other);
      assert forall i :: 1 <= i < |base| ==> base[i] == base[1..][i - 1];
      (matches == [] || missing == []) && CheckReplaceStringsAsWritten(base[1..], other)
  }

  /** Where no base value holds a backslash or a `$`, the check as written gives the intended verdict. */
  lemma CheckReplaceStringsAgree(base: seq<KeyValue>, other: seq<KeyValue>)
    requires forall i :: 0 <= i < |base| ==> '\\' !in base[i].value && '$' !in base[i].value
    ensures CheckReplaceStringsAsWritten(base, other) == CheckReplaceStrings(base, other)
  {
    forall i | 0 <= i < |base| ensures KeptAsWritten(base[i], other) == PlaceholdersKept(base[i], other) {
      ScanAsWrittenAgrees(base[i].value);
    }
  }

  /**
   * The base value `text` + `%1$s`-like specifier against a translation
   * without `%`: the check as written passes, the intended check fails.
   * Base `{greet: "Hello %1$s"}` against other `{greet: "Hallo"}` is one case.
   */
  lemma LostPositionalPassesAsWritten(key: string, text: string, c: char, n: nat, translated: string)
    requires '%' !in text && '\\' !in text && '%' !in translated
    requires IsConversion(c) && 1 <= n <= 20
    ensures CheckReplaceStringsAsWritten([KeyValue(key, text + PositionalText(c, n))], [KeyValue(key, translated)])
    ensures !CheckReplaceStrings([KeyValue(key, text + PositionalText(c, n))], [KeyValue(key, translated)])
  {
    var p := PositionalText(c, n);
    var base := [KeyValue(key, text + p)];
    var other := [KeyValue(key, translated)];
    assert text + p + [] == text + p;
    PositionalMissedAsWritten(text, c, n, []);
    PositionalTextReadsBack(c, n);
    NotIncludedWithoutFirstChar(translated, p);
    assert p in Scan(base[0].value);
    assert Lookup(other, key) == Some(translated);
    assert !PlaceholdersKept(base[0], other);
  }

  /** The base entries whose values hold at least one placeholder. */
  function WithPlaceholders(base: seq<KeyValue>): (r: seq<KeyValue>)
    ensures forall kv :: kv in r <==> kv in base && Scan(kv.value) != []
  {
    if base == [] then []
    else if Scan(base[0].value) == [] then WithPlaceholders(base[1..])
    else [base[0]] + WithPlaceholders(base[1..])
  }

  /** An entry whose value holds no placeholder never contributes to `diff_list`. */
  lemma {:induction false} EntriesWithoutPlaceholdersIgnored(base: seq<KeyValue>, other: seq<KeyValue>)
    ensures DiffList(base, other) == DiffList(WithPlaceholders(base), other)
  {
    if base != [] {
      EntriesWithoutPlaceholdersIgnored(base[1..], other);
      if Scan(base[0].value) == [] {
        assert Tokens(base[0].value) == [];
      } else {
        var w := WithPlaceholders(base);
        assert w[0] == base[0] && w[1..] == WithPlaceholders(base[1..]);
      }
    }
  }

  /** A key missing from the other file loses all of its placeholders. */
  lemma AbsentKeyLosesAllPlaceholders(kv: KeyValue, other: seq<KeyValue>)
    requires forall i :: 0 <= i < |other| ==> other[i].key != kv.key
    requires Scan(kv.value) != []
    ensures EntryDiff(kv, other) == Some(Diff(kv.key, Tokens(kv.value)))
  {
    assert Scan(kv.value)[0] in Tokens(kv.value);
  }

  /** Whatever is not present in the other value is missing from it, in order. */
  lemma {:induction false} NothingPresentAllMissing(tokens: seq<string>, otherValue: Option<string>)
    requires forall t :: t in tokens ==> !Present(otherValue, t)
    ensures Missing(tokens, otherValue) == tokens
  {
    if tokens != [] {
      assert tokens == [tokens[0]] + tokens[1..];
      NothingPresentAllMissing(tokens[1..], otherValue);
    }
  }

  /**
   * The first placeholder of a base value is reported when the other file's
   * value for that key does not include it: by leftmost matching the scan
   * finds it, whatever follows.
   */
  lemma FirstPlaceholderLostReported(base: seq<KeyValue>, other: seq<KeyValue>, i: nat, t: string, j: nat)
    requires i < |base|
    requires InVocabulary(t) && OccursAt(base[i].value, t, j)
    requires forall k: nat, u :: k < j && InVocabulary(u) ==> !OccursAt(base[i].value, u, k)
    requires !Present(Lookup(other, base[i].key), t)
    ensures EntryDiff(base[i], other).Some? && t in EntryDiff(base[i], other).value.missing
    ensures !CheckReplaceStrings(base, other)
  {
    ScanLeftmost(base[i].value, t, j);
    assert t in Scan(base[i].value);
  }

  /**
   * A base value that includes some placeholder, against an other value that
   * includes none (or no value for the key), is reported with all of its
   * placeholders.
   */
  lemma AllPlaceholdersLostReported(base: seq<KeyValue>, other: seq<KeyValue>, i: nat, t: string)
    requires i < |base| && InVocabulary(t) && Includes(base[i].value, t)
    requires forall u :: InVocabulary(u) ==> !Present(Lookup(other, base[i].key), u)
    ensures EntryDiff(base[i], other) == Some(Diff(base[i].key, Tokens(base[i].value)))
    ensures !CheckReplaceStrings(base, other)
  {
    var kv := base[i];
    ScanEmptyIff(kv.value);
    UniqSameElements(Scan(kv.value));
    assert Scan(kv.value)[0] in Tokens(kv.value);
    NothingPresentAllMissing(Tokens(kv.value), Lookup(other, kv.key));
  }

  predicate UniqueEntryKeys(kvs: seq<KeyValue>) {
    forall i, j :: 0 <= i < j < |kvs| ==> kvs[i].key != kvs[j].key
  }

  /** A file compared with itself keeps every placeholder. */
  lemma CheckReplaceStringsReflexive(kvs: seq<KeyValue>)
    requires UniqueEntryKeys(kvs)
    ensures CheckReplaceStrings(kvs, kvs)
  {
    forall i | 0 <= i < |kvs| ensures PlaceholdersKept(kvs[i], kvs) {
      var r := Lookup(kvs, kvs[i].key);
      var j :| 0 <= j < |kvs| && kvs[j] == KeyValue(kvs[i].key, r.value)
        && forall m :: 0 <= m < j ==> kvs[m].key != kvs[i].key;
      assert j == i;
    }
  }

  /**
   * A base value of plain text and `%s` whose translation has no `%` loses
   * `%s`: base `{greet: "Hello %s"}` against other `{greet: "Hallo"}` gives
   * the single entry `[greet, ["%s"]]`.
   */
  lemma LostSpecifierReported(key: string, text: string, translated: string)
    requires '%' !in text && '\\' !in text
    requires '%' !in translated
    ensures DiffList([KeyValue(key, text + "%s")], [KeyValue(key, translated)]) == [Diff(key, ["%s"])]
  {
    assert "%s" == ['%', 's'];
    ScanPlain(text, "%s");
    ScanTokenThenPlain("%s", []);
    assert "%s" + [] == "%s";
    assert Tokens(text + "%s") == ["%s"];
    NotIncludedWithoutFirstChar(translated, "%s");
    assert Lookup([KeyValue(key, translated)], key) == Some(translated);
    assert Missing(["%s"], Some(translated)) == ["%s"];
  }

  // ----------------------------------------------------- single percent

  /** `single_character_keys.compact`: the keys whose values hold a stray `%`, in order. */
  function StrayKeys(kvs: seq<KeyValue>): (r: seq<string>)
    ensures r == [] <==> forall i :: 0 <= i < |kvs| ==> !HasStrayPercent(kvs[i].value)
  {
    if kvs == [] then []
    else
      var rest := StrayKeys(kvs[1..]);
      assert forall i :: 1 <= i < |kvs| ==> kvs[i] == kvs[1..][i - 1];
      if HasStrayPercent(kvs[0].value) then [kvs[0].key] + rest else rest
  }

  /** `check_single_percent_string`: true exactly when some value holds a stray `%`. */
  function CheckSinglePercentString(kvs: seq<KeyValue>): (found: bool)
    ensures found <==> exists i :: 0 <= i < |kvs| && HasStrayPercent(kvs[i].value)
  {
    StrayKeys(kvs) != []
  }

  /** The first case of the source's own test of `check_single_percent_string`: no stray `%`. */
  lemma SinglePercentCleanExample()
    ensures !CheckSinglePercentString([
      KeyValue("key1", "This is a test string with %% and %s"),
      KeyValue("key2", "Another string with %1$s and %2$d")])
  {
    var v1, v2 := "This is a test string with %% and %s", "Another string with %1$s and %2$d";
    EscapesAndSpecifiersAreNotStray("This is a test string with ", " and ", "");
    assert v1 == "This is a test string with " + "%%" + " and " + "%s" + "";
    EscapesAndSpecifiersAreNotStray("Another string with ", " and ", "");
    assert v2 == "Another string with " + "%1$s" + " and " + "%2$d" + "";
    var kvs := [KeyValue("key1", v1), KeyValue("key2", v2)];
    assert forall i :: 0 <= i < |kvs| ==> !HasStrayPercent(kvs[i].value);
  }

  /** The second case of that test: the lone `%` of the first value is stray. */
  lemma SinglePercentStrayExample()
    ensures CheckSinglePercentString([
      KeyValue("key1", "This string has a single % character"),
      KeyValue("key2", "Another string with %1$s and %2$d")])
  {
    var v3 := "This string has a single % character";
    LonePercentIsStray(v3, 25);
  }
}
