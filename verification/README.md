# snmpsim record grammar and release helpers, modelled in Dafny

This project models the small pure core of the SNMP simulator snmpsim.

- **The snmprec record grammar** (`SnmprecGrammar`). Each line of a
  `.snmprec` data file holds an OID, a TAG and a VALUE separated by the bar
  character. TAG is the decimal sum of the
  class, format and number of the first ASN.1 tag of the value's type. The
  grammar covers:
  - the tag table filled from thirteen SNMP types;
  - the line builder and parser;
  - the reverse lookup from a value's tag set to its TAG;
  - the rule for when an octet value is written as hexadecimal.
- **The field splitter `split`** of `snmpsim/utils.py`. It cuts a string at
  the widest run of a separator (three, two or one copies) that the string
  contains.
- **The version-bump helper `run_bump.py`**:
  - the choice of part to bump;
  - reading `current_version` from the bumpversion configuration;
  - predicting the next version;
  - the `bump2version` command line.
- **The environment helper `run_prepare.py`**: how the requested Python
  version is chosen, and whether an interpreter version satisfies it.

Modules:

- `Wrappers`: `Option` and `Result`.
- `Text`: the Python `str` operations the code uses, over ASCII. These are
  `strip`, `split(sep, maxsplit)`, `in`/`find`, `startswith`, `splitlines`
  and `join`. `Count`, the number of non-overlapping occurrences, is a
  helper for stating how many pieces a split gives; the code never calls
  `str.count`.
- `Decimal`: `str(n)` and `int(s)` on digit strings.
- `Hex`: `'%.2x'`, and decoding back.
- `TagTable`: the tag table and `getTagByType`.
- `Snmprec`: `build`, `parse`, `hexifyValue`.
- `Utils`: `split`.
- `Bump`: `run_bump.py`.
- `Prepare`: `run_prepare.py`.

Outside inputs are parameters:

- the text of `.bumpversion.cfg` and of `.python-version` (`None` when the
  file does not exist);
- the parsed command-line flags;
- a value's tag set and octets.

Tags are compared as pyasn1 compares them: two tags are equal when their
class and number agree, whatever their format bit. The same holds for tag
sets, compared tag by tag. pyasn1 itself is not part of this model; a type
is its tag set.

Where the code and its description differ, the model follows the code:

- `parse` never refuses a line. A line with fewer than two bars gives fewer
  than three fields; no format error is raised.
- `hexifyValue` returns nothing (`None`) when no hexadecimal form is needed,
  instead of handing the value back.
- A value with an empty tag set makes `getTagByType` fail with an index
  error (`TypeError.Untagged`), not with "unknown type".
- `versions_match` compares with a short-circuiting `and`. It raises
  IndexError only when the existing version is too short and every part
  compared before the missing one agreed. It returns False without raising
  when an earlier part differs.
- `resolve_requested_version` lets a blank-only argument win, because a
  non-empty string is true in Python. The result is then the empty string.

## Model

| member | source | states |
|---|---|---|
| TagTable.Build | snmpsim/grammar/snmprec.py:7-21 | filling the table from a list of kinds leaves no key twice in the table |
| TagTable.Store | snmpsim/grammar/snmprec.py:21 | `tagMap[key] = t`: afterwards the key leads to the new kind, every other key leads where it did before, absent keys stay absent, and distinct keys stay distinct |
| TagTable.StoreKeepsPlace | snmpsim/grammar/snmprec.py:21 | assigning to a key the dict already holds keeps every key, that one included, in its place in insertion order |
| TagTable.StoreFresh | snmpsim/grammar/snmprec.py:21 | storing a key that is not in the table appends one entry at the end (dict insertion order) |
| TagTable.BuildLastWins | snmpsim/grammar/snmprec.py:8-21 | on a key collision the kind stored last is what the key leads to |
| TagTable.BuildAbsent | snmpsim/grammar/snmprec.py:8-21 | a key that no listed kind produces is not in the table |
| TagTable.BuildDistinct | snmpsim/grammar/snmprec.py:8-21 | when the kinds' keys are pairwise different, the table lists every kind once, in the order of the loop |
| TagTable.LookupFirst | snmpsim/grammar/snmprec.py:21 | looking up a key finds the first entry that carries it |
| TagTable.LookupAbsent | snmpsim/grammar/snmprec.py:21 | a lookup finds nothing exactly when no entry carries the key |
| TagTable.LookupSound | snmpsim/grammar/snmprec.py:21 | what `tagMap[key]` finds is the kind of an entry filed under that key |
| TagTable.KeyValue | snmpsim/grammar/snmprec.py:21 | `str(sum(tag))` is a digit string without leading zeros that reads back as the sum of class, format and number |
| TagTable.KindKeyInjective | snmpsim/grammar/snmprec.py:21 | no two of the thirteen kinds share a key, so the loop never overwrites |
| TagTable.KindOfSumInverts | snmpsim/grammar/snmprec.py:21 | the tag sum of each kind names the kind back |
| TagTable.FirstTagInjective | snmpsim/grammar/snmprec.py:31 | no two kinds have first tags that compare equal (same class and number) |
| TagTable.KindsDistinctKeys | snmpsim/grammar/snmprec.py:8-21 | the keys of the thirteen kinds are pairwise different |
| TagTable.TagMapEntries | snmpsim/grammar/snmprec.py:7-21 | the table holds exactly the thirteen kinds, each under its own key, in the order listed |
| TagTable.KeysAsListed | snmpsim/grammar/snmprec.py:8-21 | with the ASN.1 class bits each kind is filed under its listed key: Gauge32 66, Integer32 2, IpAddress 64, Null 5, ObjectIdentifier 6, OctetString 4, TimeTicks 67, Opaque 68, Counter32 65, Counter64 70, noSuchObject 128, noSuchInstance 129, endOfMibView 130 |
| TagTable.GetTagByType | snmpsim/grammar/snmprec.py:29-34 | succeeds exactly when the value has a tag and some entry's kind has a first tag of the same class and number, and then returns the key of such an entry; fails with the index error exactly when the value has no tag and the table is not empty |
| TagTable.GetTagFirst | snmpsim/grammar/snmprec.py:30-32 | the loop returns the key of the first entry whose first tag matches in class and number |
| TagTable.EntriesGetTag | snmpsim/grammar/snmprec.py:29-32 | in a table of kinds with pairwise different first tags, a kind's tag set finds that kind's key |
| TagTable.EntriesLookup | snmpsim/grammar/snmprec.py:21 | in a table of kinds with pairwise different keys, a kind's key leads back to that kind |
| TagTable.TagMapBijection | snmpsim/grammar/snmprec.py:7-32 | for every kind, `getTagByType` on its tag set returns the key it was filed under, and that key leads back to the kind |
| TagTable.EntriesUnknown | snmpsim/grammar/snmprec.py:33-34 | a tagged value whose first tag no listed kind has is refused with "unknown type" |
| TagTable.GetTagUnknown | snmpsim/grammar/snmprec.py:30-34 | a tagged value that no entry matches falls out of the loop with "unknown type" |
| TagTable.GetTagSameTag | snmpsim/grammar/snmprec.py:31 | values whose first tags compare equal get the same answer from `getTagByType` |
| TagTable.UnknownTypeRefused | snmpsim/grammar/snmprec.py:33-34 | a tagged value whose first tag belongs to none of the thirteen kinds is refused with "unknown type" |
| TagTable.BooleanHasNoKey | snmpsim/grammar/snmprec.py:33-34 | an ASN.1 BOOLEAN value is refused with "unknown type" |
| TagTable.FormatIgnored | snmpsim/grammar/snmprec.py:31 | a value tagged with a kind's class and number finds that kind's key whatever its format bit, for instance a constructed context-0 tag finds "128" |
| Snmprec.Build | snmpsim/grammar/snmprec.py:23 | the line is the three fields joined by the bar separator, followed by one line feed |
| Snmprec.SplitBars | snmpsim/grammar/snmprec.py:25 | cutting at the first two bars gives one more field than the bars up to two, joins back to the text, and leaves bars only in the last field |
| Snmprec.StripKeepsBars | snmpsim/grammar/snmprec.py:25 | stripping a line keeps all of its bars |
| Snmprec.Parse | snmpsim/grammar/snmprec.py:25 | one to three fields; one more field than the number of bars in the line, capped at three; the fields joined by bars give back the stripped line; only the last field may hold a bar, and only when there are three fields |
| Snmprec.StripBuild | snmpsim/grammar/snmprec.py:23-25 | stripping a built line removes exactly its line feed when the OID has no leading blank and the value no trailing blank |
| Snmprec.SplitRecord | snmpsim/grammar/snmprec.py:25 | splitting at most twice at the bar cuts a record whose OID and tag hold no bar into exactly those three fields |
| Snmprec.ParseBuild | snmpsim/grammar/snmprec.py:23-25 | `parse(build(oid, tag, value))` gives back the three fields when oid and tag hold no bar, oid has no leading blank and value no trailing blank |
| Snmprec.ParseKeepsValueBars | snmpsim/grammar/snmprec.py:25 | a line whose value holds a bar (OID 1.3.6.1, tag 4, value a-bar-b) parses back into those three fields, the value keeping its bar |
| Snmprec.OctetKindsExactly | snmpsim/grammar/snmprec.py:37-39 | of the thirteen kinds, exactly OctetString, Opaque and IpAddress pass the tag-set test |
| Snmprec.UnprintableOctets | snmpsim/grammar/snmprec.py:42 | the filtered list is non-empty exactly when some octet is below 32 or above 126, and holds only such octets |
| Snmprec.HexifyValue | snmpsim/grammar/snmprec.py:36-43 | hex text is produced exactly for an OctetString, Opaque or IpAddress value whose last octet is a space or that holds an octet outside 32..126; the text is two lowercase hex digits per octet and decodes back to the octets |
| Snmprec.PrintableNotHexified | snmpsim/grammar/snmprec.py:41-43 | empty values, and values of printable octets not ending in a space, are not hexified, whatever their kind |
| Snmprec.HexifyTrailingSpace | snmpsim/grammar/snmprec.py:41 | the OctetString `A ` becomes `4120` |
| Snmprec.HexifyBinary | snmpsim/grammar/snmprec.py:42-43 | the IpAddress 10.0.0.1 becomes `0a000001` |
| Snmprec.HexifyLeavesAlone | snmpsim/grammar/snmprec.py:37-43 | the OctetString `AB`, and an Integer32 value, are not hexified |
| Utils.Repeat | snmpsim/utils.py:43 | `sep * n` has n times the length of sep and begins with sep |
| Utils.RepeatCopies | snmpsim/utils.py:43 | `sep * n` is n copies of sep: copy k sits at k times the length of sep |
| Utils.ContainsRepeat | snmpsim/utils.py:42-44 | a string holding a run of the separator holds the separator |
| Utils.Width | snmpsim/utils.py:42-43 | the run width tried is the first of 3, 2, 1 that occurs; it is 0 exactly when the separator is absent, and no wider run occurs |
| Utils.Split | snmpsim/utils.py:40-46 | the result is never empty; a value without the separator comes back whole; otherwise the pieces joined by the chosen run give back the value, none of them holds the run, no occurrence of the run starts inside a piece that a cut follows (the cuts are the leftmost ones), and there is one more piece than the run's occurrences, so at least two |
| Utils.SplitPrefersWiderRun | snmpsim/utils.py:42-44 | with the bar as separator, a value holding a double bar and a later single bar is cut only at the double bar, into two pieces |
| Text.Strip | snmpsim/grammar/snmprec.py:25 | `strip()` gives the stretch of the text left when whitespace is cut off both ends: everything before and after it is whitespace, and it neither starts nor ends with whitespace |
| Text.StripCounts | snmpsim/grammar/snmprec.py:25 | `strip()` keeps every character that is not whitespace |
| Text.StripNoSpace | run_bump.py:58 | text without outer blanks is unchanged by `strip()` |
| Text.StripTrailingSpace | snmpsim/grammar/snmprec.py:25 | a trailing line feed is lost to `strip()` |
| Text.StripIdempotent | run_prepare.py:30-38 | stripping twice is stripping once |
| Text.StartsWithConcat | run_bump.py:59 | `startswith(prefix)` holds exactly when the text is the prefix followed by more text |
| Text.ContainsChar | snmpsim/utils.py:43 | `find(c) != -1` is membership for a single character |
| Text.CountZero | snmpsim/utils.py:43 | a pattern occurs exactly when its count is not zero |
| Text.CountChar | snmpsim/grammar/snmprec.py:25 | the count of a single character is its number of occurrences |
| Text.Split | snmpsim/grammar/snmprec.py:25 | `split(sep, max)` gives between one and max+1 pieces |
| Text.SplitJoin | snmpsim/grammar/snmprec.py:25 | the pieces joined by the separator give back the text |
| Text.SplitCount | snmpsim/grammar/snmprec.py:25 | the number of pieces is one more than the occurrences of the separator, capped at max |
| Text.SplitPieces | snmpsim/grammar/snmprec.py:25 | no piece holds the separator, except the last one when the cap was reached |
| Text.SplitLeftmost | snmpsim/grammar/snmprec.py:25 | no occurrence of the separator starts inside a piece that a cut follows, so the cuts are the leftmost occurrences |
| Text.SplitNoMatch | snmpsim/utils.py:46 | text without the separator is one piece |
| Text.SplitAfterField | run_bump.py:61 | a leading field free of the separator is cut off whole |
| Text.SplitAll | snmpsim/utils.py:44 | `split(sep)` without a cap: the pieces join back to the text, there is one more piece than there are occurrences, no piece holds the separator, and no occurrence starts inside a piece that a cut follows |
| Text.SplitAllPair | run_prepare.py:65-66 | two dot-free parts joined by a dot split back into those parts |
| Text.SplitAllTriple | run_bump.py:68 | three dot-free parts joined by dots split back into those parts |
| Text.SplitLines | run_bump.py:57 | `splitlines()`: no line holds a line boundary, the lines together hold every other character in order, and only empty text has no lines |
| Text.LineFeedLine | run_bump.py:57 | a leading line feed opens an empty first line |
| Text.CharJoinsLine | run_bump.py:57 | a leading character that is no line boundary joins the first line |
| Text.SplitLinesJoin | run_bump.py:57 | for text broken only by line feeds, the lines joined by line feeds give back the text without its final line feed |
| Decimal.Show | run_bump.py:80 | `str(n)` is a digit string without a leading zero, and is "0" only for zero |
| Decimal.ValueShow | run_bump.py:70-80 | `int(str(n)) == n` |
| Decimal.ShowValue | run_bump.py:70-80 | a canonical digit string survives `str(int(s))` |
| Decimal.ValueLeadingZero | run_bump.py:70 | a leading zero does not change `int(s)` |
| Decimal.ShowInjective | snmpsim/grammar/snmprec.py:21 | different numbers have different decimal texts |
| Hex.Encode | snmpsim/grammar/snmprec.py:43 | two lowercase hex digits per octet |
| Hex.EncodeByte | snmpsim/grammar/snmprec.py:43 | `'%.2x' % x` is two lowercase hex digits that read back as the high and the low nibble |
| Hex.DecodeEncode | snmpsim/grammar/snmprec.py:43 | the hex text decodes back to the octets |
| Bump.SelectPart | run_bump.py:42-46 | the part is major exactly when `--major` is given, minor exactly when `--minor` is given without `--major`, and patch otherwise |
| Bump.FirstIndex | run_bump.py:61 | the position of the first occurrence of a character |
| Bump.SplitAtFirst | run_bump.py:61 | `split("=", 1)` on a line with `=` gives the text before and after its first `=` |
| Bump.SplitWithoutEquals | run_bump.py:61-62 | a line without `=` is one piece, so it is passed over |
| Bump.LoopStep | run_bump.py:58-63 | the loop's test on one line holds exactly when the stripped line starts with `current_version` and holds `=`, and the value it returns is the stripped text after the first `=` |
| Bump.LineVersion | run_bump.py:58-63 | one line yields a value exactly when it sets the version, and that value is the stripped text after its first `=` |
| Bump.FirstAnswer | run_bump.py:57-64 | what the loop returns is the answer of one of the lines |
| Bump.FindVersion | run_bump.py:57-64 | a version found is the value some version line sets, so it has no outer blanks |
| Bump.FirstAnswerAt | run_bump.py:57-64 | the loop returns the answer of the first line that gives one, whatever follows it |
| Bump.FirstAnswerNone | run_bump.py:57-64 | the loop falls through to None exactly when no line gives an answer |
| Bump.FindVersionFirst | run_bump.py:57-63 | the first line that sets the version decides the result |
| Bump.FindVersionNone | run_bump.py:57-64 | None exactly when no line sets the version |
| Bump.ReadCurrentVersion | run_bump.py:53-64 | a version is read exactly when the file exists and one of its lines sets the version |
| Bump.Increment | run_bump.py:71-79 | the bumped version is the least version above the current one whose parts below the bumped part are zero |
| Bump.ParseTriple | run_bump.py:68-70 | a version is read only from text with exactly two dots |
| Bump.Format | run_bump.py:80 | the formatted version splits at its dots into the three numbers, each written without leading zeros |
| Bump.NoDot | run_bump.py:69 | digit strings hold no dot |
| Bump.ParseFormat | run_bump.py:70-80 | the formatted next version reads back as the same three numbers |
| Bump.NextVersion | run_bump.py:66-80 | a next version exists exactly when the current version is three dot-separated digit strings; it reads back as the bump of the current version and is greater than it |
| Bump.NextVersionOfDigits | run_bump.py:67-80 | three digit strings are bumped by their numeric values |
| Bump.NextVersionLeadingZero | run_bump.py:70-80 | `01.2.3` is bumped as `1.2.3` is, so leading zeros are dropped |
| Bump.NextVersionCanonical | run_bump.py:80 | every part of the next version is written without leading zeros |
| Bump.Command | run_bump.py:82-97 | the command starts `uv run bump2version --allow-dirty`, ends with the part name, and has five to nine words |
| Bump.PartOfNameInverts | run_bump.py:97 | the part name on the command line names the part back |
| Bump.ParseCommandInverts | run_bump.py:82-97 | reading the command back gives exactly the dry-run flag, the tag flag, the non-empty tag message and the part that were asked for |
| Prepare.ResolveRequestedVersion | run_prepare.py:22-38 | succeeds exactly when the argument is non-empty or the stripped file contents are; a non-empty argument wins; the result is stripped |
| Prepare.ResolveStable | run_prepare.py:22-38 | a resolved version given back as the argument resolves to itself, whatever the file holds |
| Prepare.ComparePrefix | run_prepare.py:67-74 | the `and` chain fails with IndexError exactly when the existing version is too short and all its parts matched; otherwise it is true exactly when every compared part is equal |
| Prepare.VersionsMatch | run_prepare.py:60-75 | a request of fewer than two parts never matches; two parts compare two and three or more compare three; IndexError exactly when the existing version is shorter than that and agrees on the parts it has |
| Prepare.VersionsMatchReflexive | run_prepare.py:60-75 | a version of at least two parts matches itself |
| Prepare.SeriesMatches | run_prepare.py:63-68 | `3.14` matches every `3.14.x` |
| Prepare.PatchMustMatch | run_prepare.py:63-74 | a request with a patch level does not match another patch level |
| Prepare.ShortExistingFails | run_prepare.py:69-74 | a three-part request against a two-part version raises IndexError |

## Left out

- The threading and event-loop helpers of `snmpsim/utils.py` are left out,
  as is the module banner `TITLE` and `try_load`. These are
  `run_in_new_loop`, `run_in_loop_with_return` and `ThreadWithReturnValue`.
  They are concurrency and module loading, not logic.
- pyasn1 value objects and `octs2str` are left out. A value is modelled as
  its tag set plus its octets. `parse` is given text.
- Utils.Split: an empty separator is excluded by a precondition. Python
  raises ValueError there, and no caller passes one.
- `get_existing_venv_python_version`, `ensure_venv` and both `main`
  functions are left out. So are the file reads, `subprocess`, the printed
  messages and `sys.exit`. File contents and flags are parameters; the exit
  is the `NoVersion` error.
- The mutual exclusion of `--major`, `--minor` and `--patch` is left out;
  it is enforced by argparse. The model keeps the code's precedence when
  several are set.
- Text is ASCII only: Python's Unicode whitespace, line boundaries and
  digits (`isdigit` on non-ASCII digits) are not modelled.
- `run_publish.py`, `run_tests.py`, `run_docs.py`, `run_build.py` and the
  tests are not part of this model.
