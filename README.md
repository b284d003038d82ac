# localizable-strings-checker, modelled in Dafny

`LocalizableStringsChecker` checks that the translations of an iOS app
agree with its base language. The checker compares each language's
`Localizable.strings` with the base language's file and reports four kinds
of difference per file:

- the keys differ;
- the `[key, comment]` pairs differ;
- a format placeholder of a base value is missing from the translated
  value. The check is meant to cover `%s`, `%d`, `%@`, `%%`, positional
  specifiers such as `%1$d`, and backslash-`n`. As written, its pattern
  never finds a positional specifier or backslash-`n`, so losing one of
  those is not reported (see Findings);
- a translated value holds a stray `%`.

It collects the messages in `@errors`, one record per file.

This project models that core: the checks on two parsed files, the
placeholder vocabulary and its scanner, the stray-percent pattern, and the
error list with its two updating methods. The contracts and lemmas relate
each result to the inputs. For both the intended and the as-built placeholder
pattern they prove that the scan takes the leftmost match first and finds
nothing only when no placeholder occurs.

Modules, one file each:

- `Wrappers` (`wrappers.dfy`): `Option`.
- `Text` (`text.dfy`): digits and decimal numerals, prefixes and substring
  inclusion (`String#include?`), and the character-wise order Ruby's
  `String#<=>` uses.
- `ArrayOps` (`array_ops.dfy`): `Array#uniq`, `Array#sort` as an
  insertion sort, and the `each_with_object([])` walk that builds
  `diff_list`. Two arrays sort equal exactly when they hold the same
  elements equally often.
- `Placeholders` (`placeholders.dfy`): `SPECIAL_STRINGS` as a list of 65
  strings and as a grammar. `Scan` is the scan the code evidently intends:
  `value.scan` with an alternation that matches the tokens themselves. It is
  a left-to-right tokenizer, proved to agree with trying the tokens in list
  order.
- `EscapedUnion` (`escaped_union.dfy`): the pattern as the code builds it,
  `Regexp.union(SPECIAL_STRINGS.map { |s| Regexp.escape(s) })`.
  `Regexp.escape` turns each token into pattern source, and `Regexp.union`
  quotes that source once more. So each alternative matches the ESCAPED
  text literally, and positional specifiers and backslash-`n` are never
  found. `ScanAsWritten` is the scan with this pattern (see Findings).
- `StrayPercent` (`stray_percent.dfy`): the pattern
  `(?<!%)%(?![%@dsf]|[0-9]+\$[@dsf])`, read as a predicate on each index.
- `LocaleChecks` (`locale_checks.dfy`): `check_same_keys`,
  `check_same_comments`, `check_replace_strings` and
  `check_single_percent_string`, each returning only its boolean. The
  comment check and the replacement-string check also exist as written,
  next to their corrected forms.
- `ErrorReport` (`error_report.dfy`): the class `LocalizableStringsChecker`,
  its field `errors` (a sequence of `FileError` records),
  `add_error_message`, and `perform_checks`.

A parsed `.strings` file (`StringsFile`) is an input with three fields:

- `keys`, a sequence of strings;
- `comments`, the comment hash as its ordered `[key, comment]` pairs;
- `keyValues`, a sequence of single-entry `KeyValue` hashes.

## Model

| member | source | states |
|---|---|---|
| Text.DecimalRoundTrip | localizable_strings_checker.rb:8 | the decimal numeral interpolated in `"%#{n}$…"` reads back as `n` |
| Text.DecimalInjective | localizable_strings_checker.rb:8 | distinct indices give distinct numerals, so the 20 positional specifiers of one letter are distinct |
| Text.Includes | localizable_strings_checker.rb:177 | `include?`: an included string is no longer than the value and uses only its characters; every prefix of the value is included |
| Text.IncludedInSuffix | localizable_strings_checker.rb:177 | a substring of a suffix is a substring of the whole value (`include?`) |
| Text.StringLe | localizable_strings_checker.rb:125-126 | `a <=> b <= 0` iff `a` is a prefix of `b` or `a` has the smaller character where they first differ |
| Text.StringLeTotal | localizable_strings_checker.rb:125-126 | the string order used by `sort` relates any two strings |
| Text.StringLeAntisymmetric | localizable_strings_checker.rb:125-126 | two strings ordered both ways are equal |
| Text.StringLeTransitive | localizable_strings_checker.rb:125-126 | the string order is transitive |
| ArrayOps.Uniq | localizable_strings_checker.rb:173 | `uniq` keeps exactly the elements of its input, each once, in the order of their first occurrences, and never lengthens it |
| ArrayOps.UniqSameElements | localizable_strings_checker.rb:173 | an element is in `uniq`'s result iff it is in its input |
| ArrayOps.UniqOfDistinct | localizable_strings_checker.rb:173 | `uniq` leaves an array without repeats unchanged |
| ArrayOps.Sort | localizable_strings_checker.rb:125-126 | `sort` returns a permutation of its input |
| ArrayOps.SortSorted | localizable_strings_checker.rb:125-126 | under a total order, the result of `sort` is ordered |
| ArrayOps.SortedArrangementUnique | localizable_strings_checker.rb:125-127 | two ordered permutations of the same elements are equal |
| ArrayOps.SortEqualIffSameMultiset | localizable_strings_checker.rb:125-127 | `a.sort == b.sort` iff `a` and `b` hold the same elements equally often |
| ArrayOps.DistinctMultisetIsSet | localizable_strings_checker.rb:125-127 | for arrays without repeats, same multiset iff same set |
| Placeholders.PositionalTextReadsBack | localizable_strings_checker.rb:8 | `"%#{n}$#{conv}"` is `%`, digits reading back as `n`, `$` and `conv`; distinct indices or letters give distinct specifiers |
| Placeholders.PositionalRun | localizable_strings_checker.rb:8 | `(1..count).map` yields `count` strings |
| Placeholders.PositionalRunMembers | localizable_strings_checker.rb:8 | the run for a letter holds exactly `%n$<letter>` for n in 1..count |
| Placeholders.SpecialStrings | localizable_strings_checker.rb:6-9 | `SPECIAL_STRINGS` has 65 entries |
| Placeholders.SpecialStringsAreVocabulary | localizable_strings_checker.rb:6-9 | a string is in `SPECIAL_STRINGS` iff it is `%%`, backslash-`n`, `%s`/`%d`/`%@`, or `%n$s`/`%n$d`/`%n$@` with 1 <= n <= 20 |
| Placeholders.PositionalShape | localizable_strings_checker.rb:8 | a positional specifier is `%`, one or two digits without leading zero, `$` and its letter |
| Placeholders.VocabularyShape | localizable_strings_checker.rb:6-9 | every token has 2 to 5 characters and starts with `%` or a backslash |
| Placeholders.VocabularyPrefixFree | localizable_strings_checker.rb:6-9 | no token is a proper prefix of another, so at most one matches at a position |
| Placeholders.PositionalOutOfRange | localizable_strings_checker.rb:8 | a positional specifier with index 0 or above 20 is not in the list |
| Placeholders.SpecialStringsContainExpected | spec/localizable_strings_checker_spec.rb:6-20 | `%%`, backslash-`n`, `%s`, `%d`, `%@` and every `%n$s`, `%n$d`, `%n$@` for n in 1..20 are in the list |
| Placeholders.LonePercentNotSpecial | spec/localizable_strings_checker_spec.rb:22-33 | a lone `%` is not in the list |
| Placeholders.SpellIndex21 | localizable_strings_checker.rb:8 | the index-21 specifiers spell `%21$s`, `%21$d`, `%21$@` |
| Placeholders.Index21NotSpecial | spec/localizable_strings_checker_spec.rb:22-33 | `%21$s`, `%21$d` and `%21$@` are not in the list |
| Placeholders.FirstPrefix | localizable_strings_checker.rb:169 | one step of an alternation over a list of strings yields a listed string that starts the text, and nothing only when no listed string does |
| Placeholders.FirstPrefixIsFirst | localizable_strings_checker.rb:169 | the alternation commits to the FIRST listed string that starts the text: no string listed before it does |
| Placeholders.TokenAt | localizable_strings_checker.rb:169 | intended pattern (see Findings): the token read off the start of the text is a vocabulary token and a prefix of the text |
| Placeholders.TokenAtComplete | localizable_strings_checker.rb:169 | intended pattern (see Findings): any vocabulary token that starts the text is the one read off |
| Placeholders.TokenAtIsAlternation | localizable_strings_checker.rb:169 | intended pattern (see Findings): reading the token off equals trying the unescaped `SPECIAL_STRINGS` in list order |
| Placeholders.Scan | localizable_strings_checker.rb:173 | intended scan (see Findings): every match is a vocabulary token that occurs in the value; the next four rows prove it finds them leftmost first, and finds nothing only when none occurs |
| Placeholders.OccursInTail | localizable_strings_checker.rb:173 | dropping the first character of the value moves every occurrence one place left |
| Placeholders.ScanLeftmost | localizable_strings_checker.rb:173 | intended scan: when token `t` occurs at `i` and no token occurs before `i`, the scan is `t` followed by the scan of the text after it |
| Placeholders.ScanFindsOccurrence | localizable_strings_checker.rb:173 | intended scan: a value in which some token occurs yields a match |
| Placeholders.ScanEmptyIff | localizable_strings_checker.rb:173-174 | intended scan: `matches.empty?` iff no vocabulary token is included in the value |
| Placeholders.Tokens | localizable_strings_checker.rb:173 | intended scan (see Findings): `scan(...).uniq` yields distinct members of `SPECIAL_STRINGS` that occur in the value; which ones is fixed by `ScanLeftmost` and `ScanEmptyIff` |
| Placeholders.ScanToken | localizable_strings_checker.rb:173 | intended scan (see Findings): a value that starts with a token scans as that token, then the scan of the rest |
| Placeholders.ScanPlain | localizable_strings_checker.rb:173 | intended scan: text without `%` or backslash contributes no match |
| Placeholders.ScanEscapedPercentThenS | localizable_strings_checker.rb:173 | intended scan: `"%%s"` scans as `["%%"]` only |
| Placeholders.ScanTokenThenPlain | localizable_strings_checker.rb:173 | intended scan (see Findings): a token followed by plain text scans as that token alone |
| Placeholders.ScanPlainTokenPlain | localizable_strings_checker.rb:173 | intended scan (see Findings): plain text, `%2$d`, plain text scans as `["%2$d"]` |
| Placeholders.ScanTwoPositionals | localizable_strings_checker.rb:173 | intended scan (see Findings): `%1$s … %2$d …` scans as `["%1$s", "%2$d"]` |
| Placeholders.ScanIndex21 | localizable_strings_checker.rb:173 | intended scan: `%21$s` at the start of a value yields no match |
| EscapedUnion.EscapeChar | localizable_strings_checker.rb:169 | `Regexp.escape` on one character: two characters starting with a backslash iff the character needs escaping, else the character itself |
| EscapedUnion.RegexpEscape | localizable_strings_checker.rb:169 | `Regexp.escape(t)` is no shorter than `t`, holds a backslash iff some character needs escaping, and is `t` when none does |
| EscapedUnion.EscapeRoundTrip | localizable_strings_checker.rb:169 | escaping loses nothing: reading the escaped text back gives the token |
| EscapedUnion.EscapeConcat | localizable_strings_checker.rb:169 | escaping distributes over concatenation |
| EscapedUnion.EscapePositional | localizable_strings_checker.rb:169 | escaping `%n$c` puts a backslash before the `$` and changes nothing else |
| EscapedUnion.EscapedRunIsEscape | localizable_strings_checker.rb:169 | each escaped run is the positional run escaped element by element |
| EscapedUnion.EscapeLiteralTokens | localizable_strings_checker.rb:169 | escaping leaves `%%`, `%s`, `%d`, `%@` alone and turns backslash-`n` into two backslashes and `n` |
| EscapedUnion.Alternatives | localizable_strings_checker.rb:169 | the pattern has 65 alternatives |
| EscapedUnion.AlternativesAreEscapedTokens | localizable_strings_checker.rb:169 | alternative `i` is `Regexp.escape(SPECIAL_STRINGS[i])`, for every `i` |
| EscapedUnion.AlternativesAreGrammar | localizable_strings_checker.rb:169 | the alternatives are exactly the bare tokens, two backslashes and `n`, and `%n\$c` for 1 <= n <= 20 |
| EscapedUnion.AlternativeKinds | localizable_strings_checker.rb:169 | every alternative starts with `%` or a backslash and is a bare token or holds a backslash |
| EscapedUnion.VocabularyWithoutMeta | localizable_strings_checker.rb:6-9 | a token without `$` and without a backslash is one of `%%`, `%s`, `%d`, `%@` |
| EscapedUnion.StepAgrees | localizable_strings_checker.rb:169 | on text with neither a backslash nor a `$`, one step of the pattern as built matches what the intended pattern matches |
| EscapedUnion.ScanAsWritten | localizable_strings_checker.rb:169-173 | as written: every match of `value.scan(regex)` is an alternative that occurs in the value; the rows below prove it finds them leftmost first, and finds nothing only when none occurs |
| EscapedUnion.EscapeBare | localizable_strings_checker.rb:169 | escaping leaves `%` followed by `%` or a conversion letter unchanged |
| EscapedUnion.EscapedPositionalShape | localizable_strings_checker.rb:169 | an escaped positional specifier is `%`, one or two digits, a backslash, `$` and its letter |
| EscapedUnion.AlternativeShape | localizable_strings_checker.rb:169 | every alternative has 2, 3, 5 or 6 characters, laid out as a bare token, two backslashes and `n`, or an escaped positional specifier |
| EscapedUnion.AlternativesPrefixFree | localizable_strings_checker.rb:169 | no alternative is a proper prefix of another |
| EscapedUnion.FirstAlternativeAt | localizable_strings_checker.rb:169 | any alternative the text starts with is the one the pattern as built matches there |
| EscapedUnion.FirstFoundIsAlternative | localizable_strings_checker.rb:169 | what one step of the pattern as built matches is an alternative |
| EscapedUnion.ScanAsWrittenSkips | localizable_strings_checker.rb:169-173 | as written: where no alternative starts, the scan moves on by one character |
| EscapedUnion.ScanAsWrittenTakes | localizable_strings_checker.rb:169-173 | as written: where alternative `t` starts, the scan is `t` followed by the scan of the rest |
| EscapedUnion.ScanAsWrittenSkipsTo | localizable_strings_checker.rb:169-173 | as written: where no alternative occurs before `i`, the scan equals the scan from `i` |
| EscapedUnion.NoAlternativeBefore | localizable_strings_checker.rb:169-173 | no alternative before `i > 0` means none starts the value and none occurs before `i - 1` in its tail |
| EscapedUnion.ScanAsWrittenLeftmost | localizable_strings_checker.rb:169-173 | as written: when alternative `t` occurs at `i` and none occurs before `i`, the scan is `t` followed by the scan of the text after it |
| EscapedUnion.ScanAsWrittenFindsOccurrence | localizable_strings_checker.rb:169-173 | as written: a value in which some alternative occurs yields a match |
| EscapedUnion.ScanAsWrittenEmptyIff | localizable_strings_checker.rb:169-174 | as written: `matches.empty?` iff no alternative is included in the value |
| EscapedUnion.ScanAsWrittenAgrees | localizable_strings_checker.rb:169-173 | on a value with neither a backslash nor a `$`, the scan as written equals the intended scan |
| EscapedUnion.OnlyBareTokensWithoutBackslash | localizable_strings_checker.rb:169-173 | in a value without backslash the scan as written finds only `%%`, `%s`, `%d`, `%@` |
| EscapedUnion.NothingFoundWithoutBareTokens | localizable_strings_checker.rb:169-173 | a value without backslash that includes none of the four bare tokens yields no match as written |
| EscapedUnion.PositionalMissedAsWritten | localizable_strings_checker.rb:169-173 | plain text around `%n$c` (1 <= n <= 20): the intended scan finds the specifier, the scan as written finds nothing |
| EscapedUnion.EscapedPositionalFoundAsWritten | localizable_strings_checker.rb:169-173 | a value starting with the escaped text `%n\$c` does yield a match as written |
| StrayPercent.DigitRun | localizable_strings_checker.rb:200 | the digit run is all digits and is followed by a non-digit or the end |
| StrayPercent.DigitPrefixWithinRun | localizable_strings_checker.rb:200 | a prefix of digits never extends past the digit run |
| StrayPercent.ValidAfterPercentIsLookahead | localizable_strings_checker.rb:200 | the digit-run test agrees with the lookahead `[%@dsf]\|[0-9]+\$[@dsf]`, which may try digit prefixes of any length |
| StrayPercent.StrayAt | localizable_strings_checker.rb:200 | the pattern matches at index `i` iff `v[i]` is `%`, the character before is not `%`, and the lookahead fails on the rest |
| StrayPercent.HasStrayPercentMeaning | localizable_strings_checker.rb:200 | `value.match?` iff some `%` not after a `%` fails the lookahead; a value without `%` never matches |
| StrayPercent.LonePercentIsStray | localizable_strings_checker.rb:200 | a `%` after no `%` and before a non-digit that is not one of `% @ d s f` matches |
| StrayPercent.TrailingPercentIsStray | localizable_strings_checker.rb:200 | a final `%` after no `%` matches |
| StrayPercent.StrayInSuffix | localizable_strings_checker.rb:200 | a match after a prefix is a match in the suffix |
| StrayPercent.DigitRunOfDigits | localizable_strings_checker.rb:200 | digits followed by a non-digit form a run of exactly their length |
| StrayPercent.CleanPieceNoStray | localizable_strings_checker.rb:200 | no index inside plain text, `%` and a format letter, or a positional specifier matches |
| StrayPercent.CleanPiecesNoStray | localizable_strings_checker.rb:200 | a value built from such pieces has no match |
| StrayPercent.EscapesAndSpecifiersAreNotStray | spec/localizable_strings_checker_spec.rb:39-46 | values made of plain text with `%%` and `%s`, or with `%1$s` and `%2$d`, have no match |
| StrayPercent.TripledPercentNotStray | localizable_strings_checker.rb:200 | `%%%` has no match, since each later `%` follows a `%` |
| LocaleChecks.StringOrderIsTotal | localizable_strings_checker.rb:125-126 | the string order is a total order |
| LocaleChecks.CheckSameKeys | localizable_strings_checker.rb:123-138 | `check_same_keys` is true iff both key arrays hold the same keys equally often |
| LocaleChecks.CheckSameKeysIgnoresOrder | localizable_strings_checker.rb:125-127 | reordering the base keys never changes the verdict |
| LocaleChecks.CheckSameKeysIsSetEquality | localizable_strings_checker.rb:125-127 | for key arrays without repeats, the check is set equality |
| LocaleChecks.PairOrderIsTotal | localizable_strings_checker.rb:147-148 | `[key, comment]` pairs compared by key, then by comment, form a total order |
| LocaleChecks.CheckSameComments | localizable_strings_checker.rb:145-160 | `check_same_comments` is true iff both files hold the same `[key, comment]` pairs equally often |
| LocaleChecks.AsMapHolds | localizable_strings_checker.rb:147-148 | a comment hash with distinct keys holds a pair iff the map from key to comment agrees with it |
| LocaleChecks.CheckSameCommentsIsHashEquality | localizable_strings_checker.rb:145-149 | for two hashes, the comment check is hash equality |
| LocaleChecks.EmptyCommentIsCompared | localizable_strings_checker.rb:145-149 | an empty comment counts like any other: `{k1: "", k2: "note"}` and `{k1: "x", k2: "note"}` differ |
| LocaleChecks.KeysOf | localizable_strings_checker.rb:153 | `hash.keys` lists each pair's key, in order |
| LocaleChecks.Difference | localizable_strings_checker.rb:153 | `xs - ys` holds exactly the elements of `xs` not in `ys` |
| LocaleChecks.CheckSameCommentsAsWritten | localizable_strings_checker.rb:145-160 | the code as written raises `NameError` iff the comments differ and some base comment key is absent from the other file; otherwise it returns the verdict of `CheckSameComments` |
| LocaleChecks.MissingCommentKeyRaises | localizable_strings_checker.rb:153-156 | base comments `{greeting: "Shown at launch"}` against none raise |
| LocaleChecks.Lookup | localizable_strings_checker.rb:176 | the other value is that of the first entry with the key, and is absent iff no entry has the key |
| LocaleChecks.Missing | localizable_strings_checker.rb:177 | the missing strings are exactly the tokens the other value does not include; all of them when there is no other value |
| LocaleChecks.NothingMissingWhenAllPresent | localizable_strings_checker.rb:177-178 | when every token is present, nothing is missing |
| LocaleChecks.MissingTokensMeaning | localizable_strings_checker.rb:173-177 | an entry's missing strings are exactly its scanned tokens that the other value lacks |
| LocaleChecks.NothingMissingIffAllPresent | localizable_strings_checker.rb:173-178 | nothing is missing from `matches.uniq` iff every match occurs in the other value |
| LocaleChecks.NothingMissingIffKept | localizable_strings_checker.rb:173-178 | an entry's missing list is empty iff all of its scanned tokens occur in the other value |
| LocaleChecks.EntryDiff | localizable_strings_checker.rb:172-178 | an entry adds nothing to `diff_list` iff all of its tokens are kept; otherwise it adds its key with the non-empty list of exactly its lost tokens |
| LocaleChecks.DiffList | localizable_strings_checker.rb:171-179 | `diff_list` is empty iff every base entry keeps its tokens, and has at most one element per base entry; the next rows give its elements and their order |
| LocaleChecks.DiffListFromEntries | localizable_strings_checker.rb:171-179 | each element of `diff_list` is the diff of some base entry |
| LocaleChecks.DiffListComplete | localizable_strings_checker.rb:171-179 | the diff of every base entry that loses tokens is in `diff_list` |
| LocaleChecks.DiffListAppend | localizable_strings_checker.rb:171-179 | `diff_list` keeps the order of the base entries: over two runs of entries it is the first run's diffs followed by the second's |
| LocaleChecks.DiffListIsCollect | localizable_strings_checker.rb:171-179 | `diff_list` is the `each_with_object([])` walk that pushes each entry's diff |
| ArrayOps.Collect | localizable_strings_checker.rb:171-179 | an `each_with_object([])` walk that pushes at most one result per element yields at most as many results as elements |
| ArrayOps.CollectAppend | localizable_strings_checker.rb:171-179 | walking two lists one after the other collects their results one after the other |
| ArrayOps.CollectComplete | localizable_strings_checker.rb:171-179 | every result pushed for an element is in the collected list |
| LocaleChecks.CheckReplaceStrings | localizable_strings_checker.rb:167-189 | intended pattern (see Findings): `check_replace_strings` is true iff every base entry keeps all of its scanned tokens in the other file |
| LocaleChecks.CheckReplaceStringsAsWritten | localizable_strings_checker.rb:167-189 | as written: true iff every match of the pattern as built in a base value occurs in the other value |
| LocaleChecks.CheckReplaceStringsAgree | localizable_strings_checker.rb:167-189 | where no base value holds a backslash or a `$`, the check as written gives the intended verdict |
| LocaleChecks.LostPositionalPassesAsWritten | localizable_strings_checker.rb:169-178 | base `{greet: "<text>%1$s"}` against a translation without `%`: the check as written passes, the intended check fails |
| LocaleChecks.WithPlaceholders | localizable_strings_checker.rb:174 | the base entries whose scan is non-empty |
| LocaleChecks.EntriesWithoutPlaceholdersIgnored | localizable_strings_checker.rb:174 | entries without tokens never change `diff_list` |
| LocaleChecks.NothingPresentAllMissing | localizable_strings_checker.rb:177 | when no token is present in the other value, `reject` keeps all of them, in order |
| LocaleChecks.FirstPlaceholderLostReported | localizable_strings_checker.rb:169-189 | intended pattern: the first token of a base value, missing from the other value for the key, is in that entry's diff and makes the check false, whatever follows it |
| LocaleChecks.AllPlaceholdersLostReported | localizable_strings_checker.rb:169-189 | intended pattern: a base value including some token, against an other value including none, is reported with all of its tokens and makes the check false |
| LocaleChecks.AbsentKeyLosesAllPlaceholders | localizable_strings_checker.rb:176-178 | a key absent from the other file loses all of its tokens |
| LocaleChecks.CheckReplaceStringsReflexive | localizable_strings_checker.rb:167-189 | a file with distinct keys compared with itself passes |
| LocaleChecks.LostSpecifierReported | localizable_strings_checker.rb:171-179 | `{greet: "<text>%s"}` against a translation without `%` gives the single diff `[greet, ["%s"]]` |
| LocaleChecks.StrayKeys | localizable_strings_checker.rb:198-205 | the compacted key list is empty iff no value has a stray `%` |
| LocaleChecks.CheckSinglePercentString | localizable_strings_checker.rb:195-214 | `check_single_percent_string` is true iff some value has a stray `%` |
| LocaleChecks.SinglePercentCleanExample | spec/localizable_strings_checker_spec.rb:39-46 | values with only `%%`, `%s`, `%1$s`, `%2$d` give false |
| LocaleChecks.SinglePercentStrayExample | spec/localizable_strings_checker_spec.rb:48-57 | a value with a lone `%` gives true |
| ErrorReport.FindRecord | localizable_strings_checker.rb:85 | `find` yields the first record for the file, and none iff no record names it |
| ErrorReport.WithMessageKeepsPlaces | localizable_strings_checker.rb:84-91 | adding a message keeps every record in its place with its file, leaves other files' records as they were, and adds at most one record |
| ErrorReport.WithMessageAppends | localizable_strings_checker.rb:84-91 | after adding, the file's messages are the old ones plus the message; every other file's messages are unchanged |
| ErrorReport.SameFilesSameRecords | localizable_strings_checker.rb:85 | records with the same files at the same positions are found alike |
| ErrorReport.WithMessageKeepsPathsUnique | localizable_strings_checker.rb:84-91 | adding adds the file to the recorded files, adds a record only if the file had none, and keeps the files unique |
| ErrorReport.WithMessagesAppends | localizable_strings_checker.rb:96-116 | adding several messages for one file appends them in order and changes no other file's messages |
| ErrorReport.WithMessagesKeepsPathsUnique | localizable_strings_checker.rb:96-116 | adding several messages for one file adds only that file to the recorded files and keeps the files unique |
| ErrorReport.WithOneMoreMessage | localizable_strings_checker.rb:96-116 | adding one more message is one more `add_error_message` |
| ErrorReport.TwoMessagesForNewFile | localizable_strings_checker.rb:84-91 | two messages for a file, starting from no errors, make one record holding both in order |
| ErrorReport.CategoriesDistinct | localizable_strings_checker.rb:99-114 | the four category messages differ |
| ErrorReport.AuditMessages | localizable_strings_checker.rb:96-116 | `perform_checks` adds at most four messages, each one of the four categories, none twice |
| ErrorReport.MessagesInSteps | localizable_strings_checker.rb:97-115 | the messages of the four checks are accumulated one check at a time |
| ErrorReport.MessagesFollowOutcomes | localizable_strings_checker.rb:97-115 | each category message is present iff its check fails, nothing else is present, and they come in the order keys, comments, replacement strings, single percent |
| ErrorReport.AuditMessagesMeaning | localizable_strings_checker.rb:96-116 | keys are reported iff the key multisets differ, comments iff the pair multisets differ, replacement strings iff some base entry loses a token, single percent iff some value of the other file has a stray `%`; none twice |
| ErrorReport.MissingKeyScenario | localizable_strings_checker.rb:96-116 | neither file has comments; base `a = "<greeting>%s", b = "<plain>"` against a translation with only `a = "<greeting>%s"` leaves one record, for the translation, holding only "Keys are not matched" |
| ErrorReport.MissingKeyWithCommentsScenario | localizable_strings_checker.rb:96-116 | the same files with comments on `a` and `b` (the translation keeps `a`'s): the corrected checks leave one record holding "Keys are not matched" then "Comments are not matched"; the comment check as written raises `NameError` |
| ErrorReport.ScenarioWithCommentsMessages | localizable_strings_checker.rb:96-116 | in that scenario exactly the key and comment checks fail |
| ErrorReport.ScenarioComments | localizable_strings_checker.rb:145-160 | comments on `a` and `b` against a comment on `a` only differ, and as written raise `NameError` |
| ErrorReport.ScenarioKeys | localizable_strings_checker.rb:123-127 | keys `a, b` against `a` fail the key check |
| ErrorReport.ScenarioPlaceholders | localizable_strings_checker.rb:167-189 | in that scenario every placeholder is kept |
| ErrorReport.ScenarioNoStray | localizable_strings_checker.rb:195-214 | `<greeting>%s` has no stray `%` |
| ErrorReport.LocalizableStringsChecker.constructor | localizable_strings_checker.rb:13-17 | the checker keeps the root directory and base language and starts with no errors |
| ErrorReport.LocalizableStringsChecker.AddErrorMessage | localizable_strings_checker.rb:84-91 | if a record for the file exists, only that record changes, gaining the message at the end; otherwise exactly `{file, [message]}` is appended; unique files stay unique |
| ErrorReport.LocalizableStringsChecker.PerformChecks | localizable_strings_checker.rb:96-116 | the record for the path gains exactly the failed checks' messages in check order, no other file's messages change, and unique files stay unique |

Comments: the code does not filter out empty comments. It compares every
`[key, comment]` pair, including pairs whose comment is empty (:145-149).
So base `{k1: "", k2: "note"}` and other `{k1: "x", k2: "note"}` do not
match, as `LocaleChecks.EmptyCommentIsCompared` shows.

Placeholders: the model's `check_replace_strings` (`LocaleChecks.CheckReplaceStrings`)
uses the intended pattern. The pattern as built is modelled beside it
(`EscapedUnion.ScanAsWritten`, `LocaleChecks.CheckReplaceStringsAsWritten`),
and the two are proved to agree on values without a backslash or a `$`.

## Left out

- `run`, `process_lang_dir` and `process_other_file` (localizable_strings_checker.rb:19-82): directory traversal, file existence tests, console output and the exit code. This includes their walking of the whole language directory once per sibling, which repeats messages.
- The direct `@errors << { file: base_path, … }` at :57 bypasses find-or-create, so unique files are not guaranteed there. It sits inside the I/O-driven `process_lang_dir`.
- `Apfel.parse` (:52, :76) is an external parser and is not part of this model. Its result is the input `StringsFile`.
- All diagnostic printing, including the lists of missing keys, missing comment keys and `diff_list`. The model keeps `diff_list` itself (`LocaleChecks.DiffList`).
- The `path` parameters of the four checks, which are unused apart from output.
- General regular-expression semantics: the two patterns (:169, :200) are modelled as functions over character sequences.
- Strings are sequences of characters. Encodings and `String#<=>`'s byte order are modelled as the order of `char` codes.
- ErrorReport.LocalizableStringsChecker.PerformChecks: uses the corrected comment check. As written, when `check_same_comments` raises `NameError` (see Findings), `perform_checks` stops after possibly recording "Keys are not matched", and the exception leaves `run`. That abort is not modelled.
- ErrorReport.LocalizableStringsChecker.PerformChecks: uses the intended placeholder pattern. The verdict of the check as built is `LocaleChecks.CheckReplaceStringsAsWritten`, which `PerformChecks` does not call.

## Findings

| source | as written | input that shows it | evidently intended | confidence | as-written member | corrected member |
|---|---|---|---|---|---|---|
| localizable_strings_checker.rb:153-156 | when the comments differ and some base comment key is absent from the other file, the diagnostic loop iterates `missing_comments`, a name that is never defined, so `check_same_comments` raises `NameError` instead of returning `false` | base comments `{"greeting" => "Shown at launch"}`, other comments `{}` | iterate `missing_comment_keys` and return `false` | not executed | LocaleChecks.MissingCommentKeyRaises | LocaleChecks.CheckSameComments |
| localizable_strings_checker.rb:169 | `Regexp.union(SPECIAL_STRINGS.map { \|s\| Regexp.escape(s) })` escapes twice: `Regexp.union` quotes the already escaped strings, so the alternatives match `%1\$s` (with a backslash) and two backslashes followed by `n`. No positional specifier and no backslash-`n` is ever found, so losing one is never reported | base key values `{greet: "Hello %1$s"}`, other key values `{greet: "Hallo"}`: `check_replace_strings` returns true | `Regexp.union(SPECIAL_STRINGS)`, matching the tokens themselves, so this pair returns false | not executed | LocaleChecks.LostPositionalPassesAsWritten | LocaleChecks.CheckReplaceStrings |
