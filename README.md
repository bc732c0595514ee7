# awsmfalogin, modelled in Dafny

`awsmfalogin.py` turns long-lived AWS access keys into twelve-hour MFA
sessions. It reads `~/.aws/config` and `~/.aws/credentials` into
dictionaries, lets the user pick profiles from a numbered menu, finds each
profile's MFA device, asks for a six-digit code until the session service
accepts one, then writes both files back with a new profile for each
selected profile `p`. The credentials file gets a section `mfa-<p>` holding
the session. The configuration file gets a section `profile mfa-<p>` holding
a copy of `p`'s own configuration section.

This project models the parts of that flow that compute. Each part is
proved against a specification.

- **`CredentialFile`** (`credential_file.dfy`) models the file format.
  - The line parser `get_aws_local_file` is the function `Parse`, a fold of `Step` over the lines. The method `ParseLines` is its loop.
  - The writer `update_aws_creds_files` is the function `Render`. The method `Serialise` is its loop.
  - A file is a map from the section name, exactly as written between the brackets, to a map of keys to values.
  - The parser's two exceptions become `ParseError` values: an entry line that does not split into two pieces at `=`, and an entry before any header.
- **`RoundTrip`** (`round_trip.dfy`) proves that writing a file and reading it back gives the same map. This holds for every file whose names, keys and values the line format can carry. It also shows that a value holding `=` is written but cannot be read back.
- **`Selection`** (`selection.dfy`) models one pass of the menu of `get_profiles_names`:
  - the list that leaves out `mfa-` profiles;
  - the answer `all`;
  - digit runs taken as indices, with out-of-range indices dropped;
  - the new prompt after an answer other than `all` that is blank or starts with whitespace.
- **`Session`** (`session.dfy`) models:
  - the six-digit code check;
  - the request sent for each well-formed code;
  - the four-key record built from an issued session;
  - the code prompt driven by a finite script of answers;
  - the device lookup of `get_mfa_arn`, with its two fatal stops.
- **`Merge`** (`merge.dfy`) models the loop of `main` that copies configuration sections and stores sessions, and the guard on writing the files back.
  - Its properties hold under a stated hypothesis: no selected profile is itself named `mfa-...` or `profile mfa-...`. Without it, a later pass can read what an earlier pass wrote. The menu already guarantees the first half (`Merge.ChoiceIsIndependent`).
- **`Text`** and **`Order`** model the Python 2 string operations the code relies on:
  - `strip`, `lower`, `split('=')` and `readlines`;
  - the regular-expression classes `\s`, `\d` and `\w` (ASCII, as for Python 2 byte strings);
  - `sorted` on string keys, which is lexicographic by character code.

Behaviour worth knowing:

- A configuration header keeps its `profile ` prefix in the section name, e.g. `profile work`.
- A key/value line with no `=` or several `=` stops the reader with an error. It is not skipped.
- A key/value line before the first header also stops the reader.
- Menu indices run from 0 to the number of profiles on the menu minus one.
- An answer that is not `all` and does not start with whitespace is accepted even when it contains no valid index. It then selects no profile, and the menu is not shown again.
- An answer other than `all` that is blank or starts with whitespace (` 7`, say) shows the menu again. The answer `all` counts with any surrounding whitespace and in any case (` all`, `\tALL`).
- The copied configuration section is named `profile mfa-<p>`.
- The code check `^\d{6}$` also accepts six digits followed by one final newline, because `$` matches before it. A typed answer never holds a newline, so for real input the check means exactly six digits (`Session.TokenCodeIsSixDigits`).

## Model

| member | source | states |
|---|---|---|
| CredentialFile.ParseLines | awsmfalogin.py:53-65 | The reading loop returns exactly `Parse(lines)`: the file map, or the first error. |
| CredentialFile.RunAppend | awsmfalogin.py:56-63 | Reading `a + b` is reading `a` and then continuing with `b` from where it stopped, and an error in `a` ends it. |
| CredentialFile.IgnoredLine | awsmfalogin.py:58-63 | A line that starts with neither `[` nor a word character has no effect on the result. |
| CredentialFile.HeaderOpensEmptySection | awsmfalogin.py:58-60 | A header line (re)opens an empty section. Its name is the stripped line without its first and last character. |
| CredentialFile.EntryLineOutcome | awsmfalogin.py:61-63 | An entry line succeeds iff it holds exactly one `=` and a section is open. It then stores the stripped key with the stripped value. With zero or several `=` it is `MalformedEntry`. |
| CredentialFile.EntryBeforeAnyHeader | awsmfalogin.py:54-63 | An entry line that comes before any header makes the whole read fail. |
| CredentialFile.RunSections | awsmfalogin.py:58-60 | The sections after reading are those before plus the header names read. The current section exists once a header has been read. |
| CredentialFile.ParsedSectionsAreHeaders | awsmfalogin.py:58-60 | A parsed file's sections are exactly the names of its header lines. |
| CredentialFile.Render | awsmfalogin.py:167-173 | An empty file map is written as empty text. |
| CredentialFile.Serialise | awsmfalogin.py:166-176 | The writing loop builds exactly `Render(f)`: each section in sorted name order, as a header, then its entries in sorted key order, then a blank line. |
| Order.SortedKeys | awsmfalogin.py:168 | `sorted(keys)` holds exactly the keys. |
| Order.SortedKeysAscending | awsmfalogin.py:168 | `sorted(keys)` is strictly ascending and holds each key once. |
| Order.LeastUnique | awsmfalogin.py:168 | A set has at most one least string, so the sorted order is determined. |
| Text.Split | awsmfalogin.py:62 | `split('=')` gives one more piece than there are `=`, and no piece holds `=`. |
| Text.SplitJoin | awsmfalogin.py:62 | Joining the pieces of `split` with the separator gives the line back. |
| Text.ReadLines | awsmfalogin.py:56 | `readlines` pieces concatenate to the text. Each piece is non-empty. Every piece but the last ends with its only newline. |
| Text.ReadLinesOfLines | awsmfalogin.py:56 | Reading the concatenation of newline-terminated lines gives those lines back. |
| Text.TrimLeftSpec | awsmfalogin.py:59 | The left half of `strip`: the result is a suffix of the text, everything dropped is whitespace, and the result does not start with whitespace. |
| Text.TrimRightSpec | awsmfalogin.py:63 | The right half of `strip`: the result is a prefix of the text, everything dropped is whitespace, and the result does not end with whitespace. |
| Text.TrimmedStrips | awsmfalogin.py:59 | `strip` leaves text that neither starts nor ends with whitespace unchanged. |
| Text.PaddedValueStrips | awsmfalogin.py:63 | `strip` removes the written `' '` before a value and the `'\n'` after it. |
| RoundTrip.HeaderLineReads | awsmfalogin.py:169 | A written header line reads back as a header of the same name. |
| RoundTrip.EntryLineReads | awsmfalogin.py:172 | A written entry line of a well-formed key and value reads back as that key and value. |
| RoundTrip.ReadBackLines | awsmfalogin.py:56 | For single-line names, keys and values, reading the written text gives back the written lines. |
| RoundTrip.RoundTrip | awsmfalogin.py:166-173 | Reading back what the writer wrote gives the same file map, for every well-formed map. |
| RoundTrip.ValueWithEqualsRejected | awsmfalogin.py:62 | A value holding `=` is written, but reading it back stops with `MalformedEntry` on its line. |
| RoundTrip.SectionsInSortedOrder | awsmfalogin.py:168-169 | The headers of the written text are the section names in strictly ascending order. |
| Selection.Selectable | awsmfalogin.py:76 | The menu holds exactly the profiles not starting with `mfa-`. |
| Selection.SelectableKeepsOrder | awsmfalogin.py:76 | The menu keeps the profiles' order and each name's multiplicity. |
| Selection.SelectableExample | awsmfalogin.py:76 | `a`, `mfa-a`, `b` gives the menu `a`, `b`. |
| Selection.DigitRuns | awsmfalogin.py:88 | Every run found by `findall(r"\d+")` is a non-empty run of digits. |
| Selection.DigitRunsOfRun | awsmfalogin.py:88 | A text that is one run of digits is found as that single run. |
| Selection.DigitRunsSplit | awsmfalogin.py:88 | A non-digit character ends every run: the runs of `a + [c] + b` are those of `a` followed by those of `b`. With the empty text having no runs, this fixes `findall` on every input: the maximal digit runs, in input order. |
| Selection.DigitRunsOfSpaced | awsmfalogin.py:88 | Digit runs typed separated by spaces are found again, in order. |
| Selection.DecimalValueOfDecimal | awsmfalogin.py:83-90 | `int` of the index the menu prints (`str(i)`) is `i`. |
| Selection.PickedAppend | awsmfalogin.py:89-91 | The profiles picked by a concatenation of indices are those of each part, in order. |
| Selection.PickedFromSelectable | awsmfalogin.py:89-91 | At most one profile is picked per index, and every picked profile is on the menu. |
| Selection.PickedAllValid | awsmfalogin.py:90-91 | When every index is in range, the i-th picked profile is the menu entry of the i-th index. |
| Selection.OutOfRangeDropped | awsmfalogin.py:90 | An index past the end of the menu is ignored. |
| Selection.TypedIndexPicks | awsmfalogin.py:83-91 | Typing back the index shown for an entry picks exactly that entry. |
| Selection.ChooseTwoIndices | awsmfalogin.py:87-92 | `0 1` on menu `a`, `b` picks `a`, `b`. |
| Selection.ChooseOutOfRange | awsmfalogin.py:87-92 | `5` on menu `a`, `b` is accepted and picks nothing. |
| Selection.ChooseLeadingSpace | awsmfalogin.py:87-96 | ` 0` is neither `all` nor a selection, so the menu is shown again. |
| Selection.Choose | awsmfalogin.py:87-96 | The result, split three ways: `all` (any case, any surrounding whitespace) gives the whole menu; otherwise a blank answer or one starting with whitespace asks again; any other answer gives the profiles its digit runs pick, in typed order. |
| Session.TokenCodeIsSixDigits | awsmfalogin.py:141 | For text without a newline, the check accepts exactly six ASCII digits. |
| Session.TokenCodeExamples | awsmfalogin.py:141 | `123456` passes. `12345`, `1234567`, `12a456` and the empty text fail. |
| Session.IssuedRecord | awsmfalogin.py:146-149 | The stored session has exactly four keys. Three come from the response. `aws_security_token` equals `aws_session_token`. |
| Session.TokenAttempt | awsmfalogin.py:139-155 | A request is sent iff the code is well formed, asking for 43200 seconds with the profile's device and the typed code. The attempt is accepted iff the code is well formed and the service grants it, and the record is then `IssuedRecord` of the credentials. |
| Session.RequestsForShape | awsmfalogin.py:141-144 | Every request sent asks for twelve hours with the profile's device and a well-formed code. There are never more requests than answers. No request is sent when no code is well formed. |
| Session.PromptForToken | awsmfalogin.py:138-155 | The prompt ends at the first accepted answer, with that answer's record and one request per well-formed code up to it. It has no record iff no answer is accepted. |
| Session.FirstDevice | awsmfalogin.py:113-117 | A user's first device serial is taken. A user with no device is the `NoMfaDevice` stop. |
| Session.ResolveSerials | awsmfalogin.py:107-121 | It succeeds iff every profile has credentials and a device. On success it maps each profile to its first device. Otherwise it reports the first failing profile's reason. |
| Merge.DerivedName | awsmfalogin.py:215 | The session profile's name is `mfa-` followed by the profile, and the profile can be read back from it. |
| Merge.DerivedConfigName | awsmfalogin.py:217 | The copied configuration section is named `profile mfa-` followed by the profile. |
| Merge.Source | awsmfalogin.py:216-219 | The section copied is `p` if present, else `profile p`. There is none iff neither is present. |
| Merge.MergeStep | awsmfalogin.py:215-220 | One pass succeeds iff a source section and an issued session exist. It adds exactly the two derived names and keeps every other section. |
| Merge.Merge | awsmfalogin.py:214-220 | The loop computes `MergeAll`: the passes in profile order, stopping at the first missing section. |
| Merge.ChoiceIsIndependent | awsmfalogin.py:76 | Any choice from the menu is independent when no credentials section is named `profile mfa-...`. |
| Merge.MergeSucceeds | awsmfalogin.py:214-220 | For independent profiles the loop succeeds iff every profile has a source section and an issued session. |
| Merge.MergeConfigEffect | awsmfalogin.py:216-219 | After the loop, the configuration has the old sections unchanged, plus `profile mfa-<p>` holding a copy of `p`'s original source section. |
| Merge.MergeCredsEffect | awsmfalogin.py:220 | After the loop, the credentials have the old sections unchanged, plus `mfa-<p>` holding the session issued for `p`. |
| Merge.MergeIdempotent | awsmfalogin.py:214-220 | Running the loop again on its own output changes nothing. |
| Merge.MergeKeepsWellFormed | awsmfalogin.py:214-220 | The merged files stay writable as lines when the input files, profile names and sessions are. |
| Merge.WorkExample | awsmfalogin.py:214-220 | `work`, configured as `profile work`, yields `profile mfa-work` with the same settings and `mfa-work` with the session. |
| Merge.Persist | awsmfalogin.py:222-224 | Both files are written iff both maps are non-empty, each as `Render` of its map. |
| Merge.MergeThenPersist | awsmfalogin.py:222-224 | After a successful merge of at least one profile both files are written, and each reads back as its merged map. |

## Left out

- The AWS calls (`autoload_aws`, `get_user`, `list_mfa_devices`, `get_session_token`) are not modelled. What they answer is given as a parameter: the `devices` map, and the `Reply` paired with each typed code.
- Opening, reading, writing and backing up files (`backup_aws_creds_files`, `open`, `write`, `close`) are not modelled. Text and line lists stand for them.
- Logging, `print` and the command-line parsing of `main` are not modelled. In particular, the `-silent`/`-profile` branch does nothing in the code.
- Selection.Choose: models one pass of the menu. The `while` loop that shows the menu again is left to the caller, which can repeat `Choose` while it returns `Reprompt`. The `ValueError` handler is unreachable, because `int` of a digit run cannot fail.
- Session.PromptForToken: the prompt loop is unbounded in the code. It is driven here by a finite list of answers, and returns no record when they run out without an accepted code.
- Session.ResolveSerials: `quit(0)` ends the process. It is modelled as an `Err` carrying the reason.
- Session.ResolveSerials: a missing user name or a failing call other than `NoCredentialsError` would raise out of `get_mfa_arn`. That case is not modelled.
- The session loop of `get_session_token` across profiles is not modelled as its own member. It is `PromptForToken` once per profile, and it fills `issued` for `Merge`.
- The `mfa_arn[profile]` lookup failing inside the prompt's `try` is not modelled. The device lookup before it maps every selected profile.
- Merge.MergeSucceeds: `MergeConfigEffect` and `MergeIdempotent` assume independent profiles. Without that hypothesis a later pass can read a section an earlier pass wrote. `MergeStep`, `Merge` and `MergeCredsEffect` need no hypothesis.
- The menu lists the profiles in the order of `aws_creds_profile.keys()` (awsmfalogin.py:211), which Python 2 leaves unspecified. The model takes that order as the input sequence of `Selection.Selectable`. Which profile an index picks therefore depends on an order the model does not fix. The writer iterates through `sorted`, and the merge loop iterates over the selected list; the model keeps both orders.
- Characters outside ASCII are not modelled. `lower`, `strip` and the regex classes are modelled with their ASCII (Python 2 byte string) meaning.
