/**
 * The checker object and its error list `@errors`: an ordered list of
 * `{ file:, messages: }` records, extended by `add_error_message`
 * (find-or-create by path, then append) and by `perform_checks` (one message
 * per failed check, in a fixed order).
 */
module ErrorReport {
  import opened Wrappers
  import opened ArrayOps
  import opened LocaleChecks

  /** One `{ file: file, messages: [...] }` record of `@errors`. */
  datatype FileError = FileError(file: string, messages: seq<string>)

  /** No two records name the same file. */
  predicate UniquePaths(errors: seq<FileError>) {
    forall i, j :: 0 <= i < j < |errors| ==> errors[i].file != errors[j].file
  }

  /** The files that have a record. */
  function Paths(errors: seq<FileError>): set<string> {
    set i | 0 <= i < |errors| :: errors[i].file
  }

  /** `@errors.find { |error| error[:file] == file }`, as the index of the first record for `file`. */
  function FindRecord(errors: seq<FileError>, file: string): (r: Option<nat>)
    ensures r.None? <==> file !in Paths(errors)
    ensures r.Some? ==> (r.value < |errors| && errors[r.value].file == file
      && forall j :: 0 <= j < r.value ==> errors[j].file != file)
  {
    if errors == [] then None
    else if errors[0].file == file then Some(0)
    else
      match FindRecord(errors[1..], file)
      case Some(i) =>
        assert forall j :: 1 <= j <= i ==> errors[j] == errors[1..][j - 1];
        Some(i + 1)
      case None =>
        assert Paths(errors) == {errors[0].file} + Paths(errors[1..]) by {
          forall f | f in Paths(errors) ensures f in {errors[0].file} + Paths(errors[1..]) {
            var i :| 0 <= i < |errors| && errors[i].file == f;
            if i > 0 {
              assert errors[1..][i - 1].file == f;
            }
          }
        }
        None
  }

  /** The messages recorded for `file`: those of its first record, or none. */
  function MessagesFor(errors: seq<FileError>, file: string): seq<string> {
    match FindRecord(errors, file)
    case Some(i) => errors[i].messages
    case None => []
  }

  /** `@errors` after `add_error_message(file, message)`. */
  function WithMessage(errors: seq<FileError>, file: string, message: string): seq<FileError> {
    match FindRecord(errors, file)
    case Some(i) => errors[i := FileError(file, errors[i].messages + [message])]
    case None => errors + [FileError(file, [message])]
  }

  /**
   * Adding a message keeps every record in its place with its file, leaves
   * the records of other files as they were, and adds at most one record.
   */
  lemma WithMessageKeepsPlaces(errors: seq<FileError>, file: string, message: string)
    ensures var r := WithMessage(errors, file, message);
      && (|r| == |errors| || |r| == |errors| + 1)
      && (forall i :: 0 <= i < |errors| ==> r[i].file == errors[i].file)
      && (forall i :: 0 <= i < |errors| && errors[i].file != file ==> r[i] == errors[i])
  {
  }

  /**
   * Adding a message appends it to the messages of `file` and leaves the
   * messages of every other file as they were.
   */
  lemma WithMessageAppends(errors: seq<FileError>, file: string, message: string)
    ensures MessagesFor(WithMessage(errors, file, message), file) == MessagesFor(errors, file) + [message]
    ensures forall g :: g != file ==> MessagesFor(WithMessage(errors, file, message), g) == MessagesFor(errors, g)
  {
    var after := WithMessage(errors, file, message);
    match FindRecord(errors, file)
    case Some(i) =>
      forall g ensures FindRecord(after, g) == FindRecord(errors, g) {
        SameFilesSameRecords(errors, after, g);
      }
    case None =>
      forall g | g != file ensures FindRecord(after, g) == FindRecord(errors, g) {
        assert after[..|errors|] == errors;
        if FindRecord(errors, g).None? {
          assert forall j :: 0 <= j < |after| ==> after[j].file != g;
          assert g !in Paths(after);
        }
      }
      assert after[|errors|].file == file;
      assert FindRecord(after, file) == Some(|errors|);
  }

  /** Records at the same positions with the same files are found at the same index. */
  lemma SameFilesSameRecords(a: seq<FileError>, b: seq<FileError>, file: string)
    requires |a| == |b| && forall i :: 0 <= i < |a| ==> a[i].file == b[i].file
    ensures FindRecord(a, file) == FindRecord(b, file)
  {
    assert Paths(a) == Paths(b) by {
      forall f | f in Paths(a) ensures f in Paths(b) {
        var i :| 0 <= i < |a| && a[i].file == f;
        assert b[i].file == f;
      }
      forall f | f in Paths(b) ensures f in Paths(a) {
        var i :| 0 <= i < |b| && b[i].file == f;
        assert a[i].file == f;
      }
    }
  }

  /**
   * Adding a message creates a record only for a file that had none, at the
   * end; the files stay unique.
   */
  lemma WithMessageKeepsPathsUnique(errors: seq<FileError>, file: string, message: string)
    ensures Paths(WithMessage(errors, file, message)) == Paths(errors) + {file}
    ensures |WithMessage(errors, file, message)| == |errors| + (if file in Paths(errors) then 0 else 1)
    ensures UniquePaths(errors) ==> UniquePaths(WithMessage(errors, file, message))
  {
    var after := WithMessage(errors, file, message);
    match FindRecord(errors, file)
    case Some(i) =>
      assert forall j :: 0 <= j < |after| ==> after[j].file == errors[j].file;
      assert Paths(after) == Paths(errors) by {
        forall f | f in Paths(after) ensures f in Paths(errors) {
          var j :| 0 <= j < |after| && after[j].file == f;
        }
        forall f | f in Paths(errors) ensures f in Paths(after) {
          var j :| 0 <= j < |errors| && errors[j].file == f;
          assert after[j].file == f;
        }
      }
    case None =>
      assert Paths(after) == Paths(errors) + {file} by {
        forall f | f in Paths(after) ensures f in Paths(errors) + {file} {
          var j :| 0 <= j < |after| && after[j].file == f;
          if j < |errors| {
            assert errors[j].file == f;
          }
        }
        forall f | f in Paths(errors) + {file} ensures f in Paths(after) {
          if f == file {
            assert after[|errors|].file == f;
          } else {
            var j :| 0 <= j < |errors| && errors[j].file == f;
            assert after[j].file == f;
          }
        }
      }
      if UniquePaths(errors) {
        forall i, j | 0 <= i < j < |after| ensures after[i].file != after[j].file {
          if j == |errors| {
            assert errors[i].file in Paths(errors);
          }
        }
      }
  }

  /** `@errors` after `add_error_message(file, m)` for each `m` of `messages` in turn. */
  function WithMessages(errors: seq<FileError>, file: string, messages: seq<string>): seq<FileError> {
    if messages == [] then errors
    else WithMessage(WithMessages(errors, file, messages[..|messages| - 1]), file, messages[|messages| - 1])
  }

  /**
   * Adding several messages for one file appends them, in order, to that
   * file's messages, and no other file's messages change.
   */
  lemma {:induction false} WithMessagesAppends(errors: seq<FileError>, file: string, messages: seq<string>)
    ensures MessagesFor(WithMessages(errors, file, messages), file) == MessagesFor(errors, file) + messages
    ensures forall g :: g != file ==> MessagesFor(WithMessages(errors, file, messages), g) == MessagesFor(errors, g)
  {
    if messages != [] {
      var init, last := messages[..|messages| - 1], messages[|messages| - 1];
      var before := WithMessages(errors, file, init);
      WithMessagesAppends(errors, file, init);
      WithMessageAppends(before, file, last);
      assert messages == init + [last];
    }
  }

  /**
   * Adding several messages for one file adds that file to the files with a
   * record, and no other; the files stay unique.
   */
  lemma {:induction false} WithMessagesKeepsPathsUnique(errors: seq<FileError>, file: string, messages: seq<string>)
    ensures UniquePaths(errors) ==> UniquePaths(WithMessages(errors, file, messages))
    ensures Paths(WithMessages(errors, file, messages)) == Paths(errors) + (if messages == [] then {} else {file})
  {
    if messages != [] {
      var init := messages[..|messages| - 1];
      WithMessagesKeepsPathsUnique(errors, file, init);
      WithMessageKeepsPathsUnique(WithMessages(errors, file, init), file, messages[|messages| - 1]);
    }
  }

  /** Adding one more message is one more `add_error_message`. */
  lemma WithOneMoreMessage(errors: seq<FileError>, file: string, added: seq<string>, message: string)
    ensures WithMessages(errors, file, added + [message]) == WithMessage(WithMessages(errors, file, added), file, message)
  {
    assert (added + [message])[..|added|] == added;
  }

  // The messages `add_error_message` records, one for each of the four checks.
  // The two longer ones are spelled as two literals joined with `+`, because
  // only a short literal is unfolded into its characters.
  const KeysNotMatched: string := "Keys are not matched"
  const CommentsNotMatched: string := "Comments are not matched"
  const ReplaceStringsNotMatched: string := "The number of replace " + "strings are not matched"
  const SinglePercentNotMatched: string := "Single percent " + "characters are not matched"

  /** The four category messages differ (already in their first letters). */
  lemma CategoriesDistinct()
    ensures KeysNotMatched != CommentsNotMatched && KeysNotMatched != ReplaceStringsNotMatched
    ensures KeysNotMatched != SinglePercentNotMatched && CommentsNotMatched != ReplaceStringsNotMatched
    ensures CommentsNotMatched != SinglePercentNotMatched && ReplaceStringsNotMatched != SinglePercentNotMatched
  {
    assert KeysNotMatched[0] == 'K';
    assert CommentsNotMatched[0] == 'C';
    assert ReplaceStringsNotMatched[0] == 'T';
    assert SinglePercentNotMatched[0] == 'S';
  }

  /**
   * The messages added for the outcomes of the four checks, in the order the
   * checks run.
   */
  function Messages(keysMatch: bool, commentsMatch: bool, replaceMatch: bool, strayFound: bool): seq<string> {
    (if keysMatch then [] else [KeysNotMatched])
    + (if commentsMatch then [] else [CommentsNotMatched])
    + (if replaceMatch then [] else [ReplaceStringsNotMatched])
    + (if strayFound then [SinglePercentNotMatched] else [])
  }

  /**
   * The messages `perform_checks` adds for one (base, other) pair: at most
   * the four categories, each at most once.
   */
  function AuditMessages(base: StringsFile, other: StringsFile): (msgs: seq<string>)
    ensures |msgs| <= 4
    ensures forall m :: m in msgs ==>
      m in [KeysNotMatched, CommentsNotMatched, ReplaceStringsNotMatched, SinglePercentNotMatched]
    ensures NoDuplicates(msgs)
  {
    var k := CheckSameKeys(base.keys, other.keys);
    var c := CheckSameComments(base.comments, other.comments);
    var r := CheckReplaceStrings(base.keyValues, other.keyValues);
    var p := CheckSinglePercentString(other.keyValues);
    MessagesFollowOutcomes(k, c, r, p);
    var msgs := Messages(k, c, r, p);
    assert NoDuplicates(msgs) by {
      forall i, j | 0 <= i < j < |msgs| ensures msgs[i] != msgs[j] {
        assert Rank(msgs[i]) < Rank(msgs[j]);
      }
    }
    msgs
  }

  /** `messages` extended by `message` when `fails` holds. */
  function AddIf(messages: seq<string>, fails: bool, message: string): seq<string> {
    if fails then messages + [message] else messages
  }

  /** The messages of the four checks, accumulated one check at a time. */
  lemma MessagesInSteps(keysMatch: bool, commentsMatch: bool, replaceMatch: bool, strayFound: bool)
    ensures Messages(keysMatch, commentsMatch, replaceMatch, strayFound)
      == AddIf(AddIf(AddIf(AddIf([], !keysMatch, KeysNotMatched), !commentsMatch, CommentsNotMatched),
                     !replaceMatch, ReplaceStringsNotMatched), strayFound, SinglePercentNotMatched)
  {
  }

  /** The place of each category in the order the checks run. */
  function Rank(message: string): nat {
    if message == KeysNotMatched then 0
    else if message == CommentsNotMatched then 1
    else if message == ReplaceStringsNotMatched then 2
    else 3
  }

  /**
   * Each category message is present exactly when its outcome is a failure,
   * nothing else is present, and the messages come in the order keys,
   * comments, replacement strings, single percent (so none twice).
   */
  lemma MessagesFollowOutcomes(keysMatch: bool, commentsMatch: bool, replaceMatch: bool, strayFound: bool)
    ensures var msgs := Messages(keysMatch, commentsMatch, replaceMatch, strayFound);
      && (KeysNotMatched in msgs <==> !keysMatch)
      && (CommentsNotMatched in msgs <==> !commentsMatch)
      && (ReplaceStringsNotMatched in msgs <==> !replaceMatch)
      && (SinglePercentNotMatched in msgs <==> strayFound)
      && (forall m :: m in msgs ==> m in [KeysNotMatched, CommentsNotMatched, ReplaceStringsNotMatched, SinglePercentNotMatched])
      && (forall i, j :: 0 <= i < j < |msgs| ==> Rank(msgs[i]) < Rank(msgs[j]))
  {
    CategoriesDistinct();
  }

  /**
   * `perform_checks` reports keys when the key multisets differ, comments
   * when the `[key, comment]` multisets differ, replacement strings when
   * some base entry's placeholder is missing from the other file, and single
   * percent when some value of the other file has a stray `%`; each at most
   * once, in that order.
   */
  lemma AuditMessagesMeaning(base: StringsFile, other: StringsFile)
    ensures var msgs := AuditMessages(base, other);
      && (KeysNotMatched in msgs <==> multiset(base.keys) != multiset(other.keys))
      && (CommentsNotMatched in msgs <==> multiset(base.comments) != multiset(other.comments))
      && (ReplaceStringsNotMatched in msgs <==>
            exists i :: 0 <= i < |base.keyValues| && !PlaceholdersKept(base.keyValues[i], other.keyValues))
      && (SinglePercentNotMatched in msgs <==>
            exists i :: 0 <= i < |other.keyValues| && StrayPercent.HasStrayPercent(other.keyValues[i].value))
      && NoDuplicates(msgs)
  {
    var k := CheckSameKeys(base.keys, other.keys);
    var c := CheckSameComments(base.comments, other.comments);
    var r := CheckReplaceStrings(base.keyValues, other.keyValues);
    var p := CheckSinglePercentString(other.keyValues);
    MessagesFollowOutcomes(k, c, r, p);
  }

  /**
   * The missing-key scenario: the base file has `a = "<greeting>%s"` and
   * `b = "<plain>"`, the translation only `a = "<greeting>%s"`, and neither
   * file has comments. Starting with no errors, the only report is a key
   * mismatch, in one record for the translation's path.
   */
  lemma MissingKeyScenario(greeting: string, plain: string, path: string)
    requires '%' !in greeting && '\\' !in greeting && '%' !in plain && '\\' !in plain
    ensures var base := StringsFile(["a", "b"], [], [KeyValue("a", greeting + "%s"), KeyValue("b", plain)]);
      var translation := StringsFile(["a"], [], [KeyValue("a", greeting + "%s")]);
      WithMessages([], path, AuditMessages(base, translation)) == [FileError(path, [KeysNotMatched])]
  {
    var base := StringsFile(["a", "b"], [], [KeyValue("a", greeting + "%s"), KeyValue("b", plain)]);
    var translation := StringsFile(["a"], [], [KeyValue("a", greeting + "%s")]);
    ScenarioKeys();
    ScenarioPlaceholders(greeting, plain);
    ScenarioNoStray(greeting);
    assert AuditMessages(base, translation) == [KeysNotMatched];
    assert [KeysNotMatched][..0] == [];
  }

  /**
   * The same files with a comment on each key (`ca` on `a`, `cb` on `b`; the
   * translation keeps only `a`'s). The comment hashes now differ too, so the
   * intended checks report keys and then comments in one record; the code
   * as written raises `NameError` in the comment check instead, because the
   * base comment key `b` is missing from the translation.
   */
  lemma MissingKeyWithCommentsScenario(greeting: string, plain: string, path: string, ca: string, cb: string)
    requires '%' !in greeting && '\\' !in greeting && '%' !in plain && '\\' !in plain
    ensures var base := StringsFile(["a", "b"], [("a", ca), ("b", cb)], [KeyValue("a", greeting + "%s"), KeyValue("b", plain)]);
      var translation := StringsFile(["a"], [("a", ca)], [KeyValue("a", greeting + "%s")]);
      && WithMessages([], path, AuditMessages(base, translation)) == [FileError(path, [KeysNotMatched, CommentsNotMatched])]
      && CheckSameCommentsAsWritten(base.comments, translation.comments) == RaisedNameError
  {
    ScenarioComments(ca, cb);
    ScenarioWithCommentsMessages(greeting, plain, ca, cb);
    TwoMessagesForNewFile(path, KeysNotMatched, CommentsNotMatched);
  }

  /** The checks on the commented scenario fail on keys and comments only. */
  lemma ScenarioWithCommentsMessages(greeting: string, plain: string, ca: string, cb: string)
    requires '%' !in greeting && '\\' !in greeting && '%' !in plain && '\\' !in plain
    ensures AuditMessages(StringsFile(["a", "b"], [("a", ca), ("b", cb)], [KeyValue("a", greeting + "%s"), KeyValue("b", plain)]),
                          StringsFile(["a"], [("a", ca)], [KeyValue("a", greeting + "%s")]))
      == [KeysNotMatched, CommentsNotMatched]
  {
    ScenarioKeys();
    ScenarioComments(ca, cb);
    ScenarioPlaceholders(greeting, plain);
    ScenarioNoStray(greeting);
  }

  /** Two messages for a file, starting from no errors, make one record holding both. */
  lemma TwoMessagesForNewFile(path: string, first: string, second: string)
    ensures WithMessages([], path, [first, second]) == [FileError(path, [first, second])]
  {
    assert [first, second][..1] == [first];
    assert [first][..0] == [];
    assert WithMessages([], path, [first]) == [FileError(path, [first])];
    assert FindRecord([FileError(path, [first])], path) == Some(0);
    assert [first] + [second] == [first, second];
  }

  /** Comments on `a` and `b` against a comment on `a` only: they differ, and `b` is missing. */
  lemma ScenarioComments(ca: string, cb: string)
    ensures !CheckSameComments([("a", ca), ("b", cb)], [("a", ca)])
    ensures CheckSameCommentsAsWritten([("a", ca), ("b", cb)], [("a", ca)]) == RaisedNameError
  {
    var b: seq<(string, string)> := [("a", ca), ("b", cb)];
    assert multiset(b)[("b", cb)] == 1;
    assert b[1].0 == "b";
    assert "b" in KeysOf(b);
    assert KeysOf([("a", ca)]) == ["a"];
  }

  /** Keys `a, b` against `a`: the key check fails. */
  lemma ScenarioKeys()
    ensures !CheckSameKeys(["a", "b"], ["a"])
  {
    assert multiset(["a", "b"])["b"] == 1;
  }

  /** `%s` is kept under `a`; `b` has no placeholder to lose. */
  lemma ScenarioPlaceholders(greeting: string, plain: string)
    requires '%' !in greeting && '\\' !in greeting && '%' !in plain && '\\' !in plain
    ensures CheckReplaceStrings([KeyValue("a", greeting + "%s"), KeyValue("b", plain)], [KeyValue("a", greeting + "%s")])
  {
    var greet := greeting + "%s";
    var translation := [KeyValue("a", greet)];
    Placeholders.ScanPlain(greeting, "%s");
    Placeholders.SmallPositionalsInVocabulary();
    assert Placeholders.InVocabulary("%s");
    Placeholders.ScanToken("%s", []);
    assert "%s" + [] == "%s";
    assert Text.OccursAt(greet, "%s", |greeting|);
    assert PlaceholdersKept(KeyValue("a", greet), translation);
    Placeholders.ScanPlain(plain, []);
    assert plain + [] == plain;
    assert PlaceholdersKept(KeyValue("b", plain), translation);
  }

  /** `<greeting>%s` has no stray percent. */
  lemma ScenarioNoStray(greeting: string)
    requires '%' !in greeting
    ensures !CheckSinglePercentString([KeyValue("a", greeting + "%s")])
  {
    var ps := [greeting, "%s"];
    assert ps[1..][1..] == [];
    assert StrayPercent.Concat(ps[1..]) == "%s" + [];
    assert "%s" + [] == "%s";
    StrayPercent.CleanPiecesNoStray(ps);
  }

  /** The checker object: the root directory, the base language and `@errors`. */
  class LocalizableStringsChecker {
    const rootDir: string
    const baseLang: string
    var errors: seq<FileError>

    /** `initialize(root_dir, base_lang)`: no errors yet. */
    constructor (rootDir: string, baseLang: string)
      ensures this.rootDir == rootDir && this.baseLang == baseLang
      ensures errors == []
    {
      this.rootDir := rootDir;
      this.baseLang := baseLang;
      errors := [];
    }

    /**
     * `add_error_message(file, message)`: find the first record for `file`
     * and append `message` to its messages; without one, append the record
     * `{ file, [message] }`.
     */
    method AddErrorMessage(file: string, message: string)
      modifies this
      ensures errors == WithMessage(old(errors), file, message)
      ensures old(FindRecord(errors, file)).Some? ==>
        var i := old(FindRecord(errors, file)).value;
        && |errors| == |old(errors)|
        && errors[i] == FileError(file, old(errors)[i].messages + [message])
        && forall j :: 0 <= j < |errors| && j != i ==> errors[j] == old(errors)[j]
      ensures old(FindRecord(errors, file)).None? ==> errors == old(errors) + [FileError(file, [message])]
      ensures UniquePaths(old(errors)) ==> UniquePaths(errors)
    {
      WithMessageKeepsPathsUnique(errors, file, message);
      var i := 0;
      while i < |errors| && errors[i].file != file
        invariant 0 <= i <= |errors|
        invariant forall j :: 0 <= j < i ==> errors[j].file != file
      {
        i := i + 1;
      }
      if i < |errors| {
        errors := errors[i := FileError(errors[i].file, errors[i].messages + [message])];
      } else {
        assert file !in Paths(errors);
        errors := errors + [FileError(file, [message])];
      }
    }

    /**
     * `perform_checks(base_file, other_file, path)`: for each failed check, in
     * the order keys, comments, replacement strings, single percent, add its
     * message to the record for `path`.
     */
    method PerformChecks(base: StringsFile, other: StringsFile, path: string)
      modifies this
      ensures errors == WithMessages(old(errors), path, AuditMessages(base, other))
      ensures MessagesFor(errors, path) == MessagesFor(old(errors), path) + AuditMessages(base, other)
      ensures forall g :: g != path ==> MessagesFor(errors, g) == MessagesFor(old(errors), g)
      ensures UniquePaths(old(errors)) ==> UniquePaths(errors)
    {
      ghost var added: seq<string> := [];
      var keysMatch := CheckSameKeys(base.keys, other.keys);
      if !keysMatch {
        WithOneMoreMessage(old(errors), path, added, KeysNotMatched);
        AddErrorMessage(path, KeysNotMatched);
      }
      added := AddIf(added, !keysMatch, KeysNotMatched);
      var commentsMatch := CheckSameComments(base.comments, other.comments);
      if !commentsMatch {
        WithOneMoreMessage(old(errors), path, added, CommentsNotMatched);
        AddErrorMessage(path, CommentsNotMatched);
      }
      added := AddIf(added, !commentsMatch, CommentsNotMatched);
      var replaceMatch := CheckReplaceStrings(base.keyValues, other.keyValues);
      if !replaceMatch {
        WithOneMoreMessage(old(errors), path, added, ReplaceStringsNotMatched);
        AddErrorMessage(path, ReplaceStringsNotMatched);
      }
      added := AddIf(added, !replaceMatch, ReplaceStringsNotMatched);
      var strayFound := CheckSinglePercentString(other.keyValues);
      if strayFound {
        WithOneMoreMessage(old(errors), path, added, SinglePercentNotMatched);
        AddErrorMessage(path, SinglePercentNotMatched);
      }
      added := AddIf(added, strayFound, SinglePercentNotMatched);
      MessagesInSteps(keysMatch, commentsMatch, replaceMatch, strayFound);
      WithMessagesAppends(old(errors), path, added);
      WithMessagesKeepsPathsUnique(old(errors), path, added);
    }
  }
}
