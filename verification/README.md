# PS-Decode reorder de-obfuscator, modelled in Dafny

PS-Decode (`psdecode.py`) rewrites obfuscated PowerShell so that a person can
read it. This project models its core and proves properties of the model:

- **`deobfuscate_powershell_reorder`** (psdecode.py:52-137) undoes the `-f`
  format-operator trick, which writes `'CAB'` as
  `("{2}{0}{1}" -f 'A','B','C')`. Each line is processed on its own, in five
  parts:
  - a **character-code pre-pass** rewrites `[char]N` to a quoted character;
  - a **finder** recognises `("TEMPLATE" -f FRAGMENTS)`;
  - two **extractors** read the indices and the quoted fragments;
  - a **resolver** puts the fragments in template order and stores the result
    in a **placeholder table** under a fresh token `'{#subs_k}'`. The text is
    swept until the finder no longer matches;
  - a final **expansion** replaces every token by its table value.
- **`remove_ticks`** (psdecode.py:141-143) deletes backticks.
- **`add_new_lines_at_semicolons`** (psdecode.py:183-187) breaks lines after
  semicolons.

The modules follow the program's structure:

| file | module | contents |
|---|---|---|
| `text.dfy` | `Text` | character classes, decimal numerals, `str.replace`, `str.strip`, the `-f` count, parenthesised (framed) texts |
| `scanner.dfy` | `Scanner` | the regular expressions as deterministic scanners: finder, index and fragment extraction, placeholder and `[char]N` recognition, and `finditer`/`findall` |
| `resolver.dfy` | `Resolver` | tokens, the table invariant, fragment look-up and resolution of one expression |
| `deobfuscator.dfy` | `Deobfuscator` | the pre-pass, one step, one sweep, the `while` loop, the final expansion, a line and a whole input |
| `obfuscator.dfy` | `Obfuscator` | the forward direction: how an expression is written from indices and fragments; the scanners read it back |
| `endtoend.dfy` | `EndToEnd` | whole-line results for a line holding one written expression, and worked examples |
| `filters.dfy` | `Filters` | `remove_ticks` and `add_new_lines_at_semicolons`, with `str.split`/`str.join` |

Regular expressions are not interpreted. Every pattern the core uses is
deterministic at a given start position. Almost every repetition is a run
of one character class followed by a character outside that class, so the
scanner takes the maximal run, which is where the backtracking matcher ends
up. There is one exception: the `\s*` in front of the finder's fragment
list. Whitespace is also a fragment character, so when the whole fragment
list is whitespace the matcher gives one character back to keep the
fragment group non-empty; the finder scanner models that case explicitly.
`finditer` and `findall` are left-to-right walks that resume behind a match
and otherwise advance by one character.

How the program's exceptions and loops appear in the model:

- An exception is a result value: `IndexError`, `KeyError(key)`, or
  `ValueError` from `chr` of a code of 0x110000 or more.
- A `while` loop that never ends is the outcome `Hangs`. A length mismatch
  keeps its expression in the line for good, so the loop then either raises
  or never ends.
- A line either yields its text (`Done`), raises (`Failed`), or never finishes
  (`Hangs`). For a whole input, the first line that does not finish normally
  decides the outcome.

## Model

| member | source | states |
|---|---|---|
| Text.DecimalString | psdecode.py:121 | `str(k)` is a non-empty digit string whose decimal value is `k` |
| Text.DecimalStringInjective | psdecode.py:121 | different counts give different numerals |
| Text.Strip | psdecode.py:102 | `str.strip()` leaves no whitespace at either end and keeps a text that has none there |
| Text.StripCutsSpace | psdecode.py:102 | `str.strip()` is a slice of the text, and everything cut at either end is whitespace |
| Text.ReplaceAll | psdecode.py:123 | `str.replace` leaves a text in which the pattern does not occur unchanged |
| Text.RemoveAllIsReplaceAll | psdecode.py:92 | deleting one character is `replace(c, "")` |
| Text.ReplaceAllLowersDashF | psdecode.py:123 | replacing an occurring text that holds `-f` by a text with no `-f` and no seam lowers the `-f` count |
| Text.ReplaceAllKeepsFramed | psdecode.py:123 | replacing every occurrence of a text that opens with `(`, closes with `)` and has neither inside keeps every occurrence of a different such text |
| Scanner.FinderPrefix | psdecode.py:60 | a finder match is a prefix of the text that opens with `(`, closes with `)` and holds `-f` |
| Scanner.FinderPrefixSound | psdecode.py:60 | a finder match is `("`, a non-empty template of braces, digits and `+`, `"`, whitespace, `-f` in either case, whitespace, a non-empty fragment list, `)`; the groups are exactly the template and the fragment list, and the fragment group starts with whitespace only when it is a single character |
| Scanner.FinderPrefixComplete | psdecode.py:60 | conversely, a text made of those parts in that order, with any whitespace or none around `-f` in either case, is matched as a whole with exactly those groups, whatever follows it |
| Scanner.PartsFramed | psdecode.py:60 | a finder match has `(` only at its start and `)` only at its end |
| Scanner.FindAll | psdecode.py:96 | every match `finditer` reports has the finder's shape |
| Scanner.FirstFinderAtLeftmost | psdecode.py:95-96 | no match starts before the first reported position, and one starts there |
| Scanner.FindAllLeftmost | psdecode.py:95-96 | the first match reported is the leftmost one, and the rest are the matches of the text right behind it, so matches never overlap |
| Scanner.FindAllOccur | psdecode.py:95-96 | every reported match is a piece of the line |
| Scanner.FindAllEmptyIff | psdecode.py:95 | no match is reported exactly when no position of the line starts a match (the loop condition) |
| Scanner.Contents | psdecode.py:66 | every extracted fragment is a non-empty run of the content class |
| Scanner.FirstQuotedAtLeftmost | psdecode.py:66 | no quoted fragment starts before the first reported position, and one starts there |
| Scanner.ContentsLeftmost | psdecode.py:66 | the first fragment found is the leftmost `'...'` run, delimited by quotes, and the rest are found right behind its closing quote, so none is skipped |
| Scanner.FragmentExtract | psdecode.py:105-109 | fragment extraction yields only content text |
| Scanner.Positions | psdecode.py:63 | every index found takes at least three characters, and a text without `{` yields none |
| Scanner.IndexPrefixMeans | psdecode.py:63 | a match of `{(\d+)}` at the start is `{`, digits, `}`, and its index is the decimal value of the digits |
| Scanner.IndexPrefixOf | psdecode.py:63 | conversely, `{`, one or more digits and `}` at the start are matched, with the decimal value of the digits as index |
| Scanner.FirstIndexAtLeftmost | psdecode.py:63 | no `{digits}` starts before the first reported position, and one starts there |
| Scanner.PositionsLeftmost | psdecode.py:63 | `findall` yields nothing exactly when no position starts `{digits}`; otherwise its first index is that of the leftmost `{digits}` and the rest are those of the text behind its `}`, so every index is found, in order |
| Scanner.IndexExtract | psdecode.py:100-104 | index extraction after newline removal and stripping yields at most a third of the capture's length, and none without `{` |
| Scanner.PlaceholdersOccur | psdecode.py:127 | every placeholder word found by the expansion occurs in the line |
| Scanner.PlaceholdersEmptyIff | psdecode.py:127 | no placeholder word is found exactly when no position starts one, in either case |
| Scanner.FirstPlaceholderAtLeftmost | psdecode.py:127 | no placeholder starts before the first reported position, and one starts there |
| Scanner.PlaceholdersLeftmost | psdecode.py:127 | the first word found is the placeholder at the leftmost position and the others are those of the text behind it, so every placeholder of the line is reported, in order |
| Scanner.CharCodePrefix | psdecode.py:72 | a `[char]N` match is a prefix of at least seven characters |
| Scanner.CharCodePrefixMeans | psdecode.py:72 | a construct starts exactly at `[`, `char` in any case, `]` and a digit; it runs to the end of the digits and its code is their decimal value |
| Scanner.CharCodesOccur | psdecode.py:87 | every `[char]N` found occurs in the line |
| Scanner.CharCodesEmptyIff | psdecode.py:87 | none is found exactly when no position starts one |
| Obfuscator.PositionsOfTemplate | psdecode.py:63 | `findall` of `{(\d+)}` over a written template yields its indices |
| Obfuscator.TemplateRoundTrip | psdecode.py:100-104 | index extraction yields the written indices in template order, unsorted and with repeats |
| Obfuscator.ContentsOfFragments | psdecode.py:66 | `findall` of the content pattern over a written list yields its fragments |
| Obfuscator.FragmentRoundTrip | psdecode.py:105-109 | fragment extraction yields the written fragments in list order; no fragments gives none |
| Obfuscator.FinderRoundTrip | psdecode.py:60 | the finder recognises a written expression whatever follows it, with the template and fragment list as its groups |
| Obfuscator.FindAllOfExpression | psdecode.py:96 | a line holding one written expression has exactly that one match |
| Resolver.TokenInjective | psdecode.py:121 | distinct counts mint distinct tokens |
| Resolver.PlaceholderTextShaped | psdecode.py:69 | a minted placeholder is recognised as placeholder-shaped |
| Resolver.PlaceholderPrefixOf | psdecode.py:115 | the placeholder pattern recognises a minted placeholder, whatever follows and in either case mode |
| Resolver.TokenInert | psdecode.py:121 | a token holds no `-f` and cannot form one with its neighbours |
| Resolver.Mint | psdecode.py:121-124 | the next token is not yet in the table, and storing a quote-free text under it keeps the table holding exactly the tokens minted so far |
| Resolver.Deref | psdecode.py:115-118 | a placeholder-shaped fragment stands for its table entry and raises `KeyError` with its quoted key exactly when that entry is missing; any other fragment is stripped |
| Resolver.DerefPlaceholder | psdecode.py:115-116 | a minted placeholder fragment stands for its table value, and an unminted one raises `KeyError` with its token |
| Resolver.Assemble | psdecode.py:113-118 | assembling raises only `IndexError` or `KeyError` of a missing key, and succeeds only when every index is in range |
| Resolver.AssembleOkIff | psdecode.py:113-118 | assembling succeeds exactly when every index is in range and selects a fragment that can be looked up |
| Resolver.AssembleFailsAtFirstBad | psdecode.py:114-118 | assembling raises the failure of the first index that cannot be resolved |
| Resolver.AssembleIsConcat | psdecode.py:113-118 | when every index resolves, the output is the selected pieces concatenated in template order |
| Resolver.Resolve | psdecode.py:112-118 | an expression is skipped exactly on a length mismatch, and otherwise raises only `IndexError` or `KeyError` of a missing key |
| Resolver.ResolveOutcomes | psdecode.py:112-118 | an expression is skipped exactly on a length mismatch, resolved exactly when all indices resolve, and otherwise raises the first bad index's failure |
| Resolver.ResolveUndoesReorder | psdecode.py:112-118 | resolving a reordering of trimmed, non-placeholder pieces gives the pieces back in their original order |
| Resolver.AssembleHasNoQuote | psdecode.py:116-122 | a resolved text holds no quote, so no table value holds a token |
| Deobfuscator.CodeLiteral | psdecode.py:91 | the replacement is quote, the character with code N, quote |
| Deobfuscator.CodesValidMeans | psdecode.py:90-91 | the pre-pass raises no `ValueError` exactly when every code found is below 0x110000 |
| Deobfuscator.ApplyCodes | psdecode.py:88-92 | applying no construct keeps the text; applying any leaves no backtick |
| Deobfuscator.PrepassAsWritten | psdecode.py:87-92 | the pre-pass as written raises `ValueError` exactly on an invalid code, keeps a line without codes unchanged, and leaves no backtick once a code was found |
| Deobfuscator.PrepassAsWrittenSplitsCodes | psdecode.py:87-92 | the pre-pass as written turns `[char]7 [char]72` into `'\a' '\a'2`, while the corrected pass gives `'\a' 'H'` |
| Deobfuscator.PrepassAsWrittenUncoversCode | psdecode.py:87-92 | on ``[char]8[`char]7[char]7`` the pre-pass as written rewrites the `[char]7` that deleting the backtick uncovers, giving three characters, while the corrected pass leaves it as text |
| Deobfuscator.Prepass | psdecode.py:87-92 | the corrected pre-pass raises `ValueError` exactly on an invalid code, keeps a line without codes unchanged, and leaves no backtick once a code was rewritten |
| Deobfuscator.SubstituteCodesEachCode | psdecode.py:87-91 | in the corrected pre-pass, every `[char]N` is rewritten to its own quoted character, in place, and the rest of the line is treated the same way |
| Deobfuscator.Commit | psdecode.py:120-124 | committing a quote-free text keeps the table invariant and every earlier entry, mints a token not yet in the table, stores the text under it and counts one more resolution |
| Deobfuscator.Step | psdecode.py:100-124 | one match is skipped (nothing changes), raises (exactly when resolution raises), or replaces every occurrence of the match by a fresh token that the table now holds, keeping all earlier entries |
| Deobfuscator.StepLowersDashF | psdecode.py:121-123 | a step never adds a `-f`, and a resolution of an occurring match removes at least one |
| Deobfuscator.Sweep | psdecode.py:96-124 | a sweep keeps the table invariant and all entries, and if it resolves anything the line has fewer `-f` than before |
| Deobfuscator.SweepResolvesNothing | psdecode.py:112 | a sweep leaves the line unchanged exactly when every match has a length mismatch |
| Deobfuscator.Scan | psdecode.py:95-124 | the loop ends with no finder match left and a valid table that extends the initial one |
| Deobfuscator.ScanSpins | psdecode.py:95-112 | when every match has a length mismatch, the loop never ends |
| Deobfuscator.ScanNeverSettles | psdecode.py:95-124 | once the line holds the text of a match whose numbers of indices and fragments differ, the loop never ends with the line settled: it raises or runs forever, whatever else the line holds |
| Deobfuscator.MismatchNeverSettles | psdecode.py:95-112 | one mismatched match among those the finder reports is enough to keep the loop from settling |
| Deobfuscator.SweepKeeps | psdecode.py:97-124 | a sweep keeps the text of a mismatched match in the line |
| Deobfuscator.SameTextSameMatch | psdecode.py:60 | two finder matches with the same text have the same groups |
| Deobfuscator.ExpandWords | psdecode.py:128-131 | no words leave the text unchanged, and a failure is a `KeyError` of a key missing from the table |
| Deobfuscator.ExpandWordsOutcome | psdecode.py:127-131 | the expansion succeeds exactly when every placeholder word has a table entry, and otherwise raises `KeyError` with a missing key |
| Deobfuscator.ExpandWordsFailsAtFirstMissing | psdecode.py:128-131 | the expansion raises `KeyError` with the key of the first word that has no table entry |
| Deobfuscator.ExpandWordsFailureKey | psdecode.py:128-131 | a failing expansion names, in its `KeyError`, a word whose quoted form is missing while every earlier word has an entry |
| Deobfuscator.Expand | psdecode.py:127-131 | a text without placeholder words is kept, and a failure is a `KeyError` of a missing key |
| Deobfuscator.DeobfuscateLine | psdecode.py:81-134 | with the pre-pass as written: a line with an out-of-range character code raises `ValueError`, and a line without constructs goes straight to the loop and the expansion |
| Deobfuscator.DeobfuscateLineCorrected | psdecode.py:81-134 | with the corrected pre-pass: the same `ValueError`, and the same result as the code on every line without constructs |
| Deobfuscator.PlainLine | psdecode.py:81-134 | a line with no construct passes through unchanged; a bare placeholder word raises `KeyError` |
| Deobfuscator.Collect | psdecode.py:81-137 | all lines done gives one output per line in order; otherwise the first line that raises or hangs decides |
| Deobfuscator.Deobfuscate | psdecode.py:52-137 | the whole input: one output line per input line in order, each that line's result, or the first line's failure |
| EndToEnd.ReadBack | psdecode.py:96-109 | on a written expression, the finder, the index extractor and the fragment extractor recover the indices and fragments |
| EndToEnd.StepOf | psdecode.py:112-124 | a step skips its match exactly on a mismatch, raises exactly what the resolution raises, and otherwise commits the resolved text, which holds no quote |
| EndToEnd.PlaceholdersOfToken | psdecode.py:127 | the expansion finds exactly the placeholder of a lone token |
| EndToEnd.ExpandToken | psdecode.py:127-131 | a lone token expands to its table value |
| EndToEnd.ScanOneExpression | psdecode.py:95-124 | a line that is one written expression hangs on a mismatch, raises the resolution's failure, or becomes one token for the resolved text |
| EndToEnd.SingleExpressionLine | psdecode.py:81-134 | a line that is one written expression gives the resolved text, the resolution's failure, or hangs |
| EndToEnd.DeobfuscatesReordering | psdecode.py:52-137 | a line written by reordering trimmed pieces is de-obfuscated to the pieces in their original order |
| EndToEnd.ExampleReorder | psdecode.py:52-137 | `("{2}{0}{1}" -f 'A','B','C')` becomes `CAB` |
| EndToEnd.ExampleMismatch | psdecode.py:95-112 | `("{0}{1}" -f 'A','B','C')` makes the loop run forever |
| EndToEnd.ExampleIndexError | psdecode.py:114-116 | `("{5}" -f 'A')` raises `IndexError` |
| EndToEnd.ExampleIndices | psdecode.py:63 | `{{0}}` yields the index 0 and `{x}{1}` yields the index 1 |
| EndToEnd.ExampleFinderSpacing | psdecode.py:60 | `("{0}"-f'a')` and `("{0}"  -F 'a')` are each matched as a whole, with template `{0}` and fragment list `'a'` |
| Filters.RemoveTicks | psdecode.py:141-143 | an empty line raises `IndexError`; otherwise the last character is kept, no backtick remains before it, and a line with none there is unchanged |
| Filters.RemoveTicksKeepsText | psdecode.py:142 | with backticks ignored, the line is the same before and after, so the other characters keep their order |
| Filters.RemoveTicksIdempotent | psdecode.py:141-143 | applying the filter twice is applying it once |
| Filters.JoinOfSplit | psdecode.py:186 | joining the pieces of `split` with the separator gives the text back |
| Filters.SplitOfJoin | psdecode.py:186 | splitting a join of separator-free pieces gives the pieces back |
| Filters.ReplacementBreaks | psdecode.py:186 | after `replace(';', ';\n')` every semicolon is followed by a newline |
| Filters.AddNewLinesAtSemicolons | psdecode.py:183-187 | every output line is non-empty text, then its only newline, with a semicolon at most right before that newline |
| Filters.AddNewLinesKeepsText | psdecode.py:183-187 | deleting every newline from the joined output gives the joined input with every newline deleted |
| Filters.OutputLinesFixed | psdecode.py:183-187 | a list of well-formed output lines passes through unchanged |
| Filters.AddNewLinesIdempotent | psdecode.py:183-187 | applying the filter twice is applying it once |

## Left out

- `detect_encoding` (psdecode.py:44-48) is left out: it is file I/O plus the external `chardet` library.
- `main` (psdecode.py:191-246) is left out: it is argument parsing, the interactive menu, file reading and writing, and console highlighting.
- `concatenate` (psdecode.py:147-167) is left out. Its meaning depends on the backtracking of Python's regex engine, and its `[^\2]` is an octal escape, not a back-reference.
- `title_case_line` and `title_case_script` (psdecode.py:171-179) are left out: they are a thin wrapper over `str.title()` and Unicode word boundaries.
- `regex_concat` (psdecode.py:75) is never used.
- Character classes are ASCII only. Python's `\w`, `\s`, `\d` and `re.IGNORECASE` also accept other Unicode characters; the model does not.
- A `[char]N` with N a surrogate code (0xD800-0xDFFF) is excluded by a precondition (`CodesRepresentable`). Such a character cannot be a Dafny `char`.
- Deobfuscator.Scan: states no completeness of the final expansion. A pathological line can leave a token-shaped text that the expansion cannot look up.
- Deobfuscator.DeobfuscateLine: its contract covers the `ValueError` case and lines without constructs. The other outcomes are stated by PlainLine, SingleExpressionLine and the Scan/Sweep/Step lemmas.
- Deobfuscator.PrepassAsWritten: a code of 2^31 or more makes `chr` raise `OverflowError`, not `ValueError`, on CPython 3.12 and earlier. The model reports `ValueError` for every code of 0x110000 or more, because both end the program with an exception and the model does not tell exception types of one interpreter version apart. The same holds for Deobfuscator.Prepass.
- Four behaviours of the code are easy to misread; the model follows the code:
  - A length mismatch does not leave the expression alone: the expression stays in the line and the `while` condition (line 95) stays true. When every match of the line mismatches, a sweep changes nothing and the loop never ends (ScanSpins). When only some do, the loop still never ends normally: it raises or runs forever (ScanNeverSettles). For example, `("{0}{1}" -f 'a') ("{1}" -f 'a')` raises `IndexError` on the second expression. An index past the fragment list raises `IndexError` at line 115 (ExampleIndexError).
  - The sweep loop (lines 95-124) therefore does not always terminate.
  - Line 92 removes every backtick in the line, not only those next to a `[char]N`, and it runs once per construct found.
  - The pre-pass can raise: `chr` (line 91) raises `ValueError` for codes of 0x110000 and above.

## Findings

| source | as written | input that shows it | evidently intended | confidence | as-written member | corrected member |
|---|---|---|---|---|---|---|
| psdecode.py:87-92 | `content.replace(total, ...)` replaces every occurrence of the matched `[char]N` text, including occurrences that are the beginning of a longer code | `[char]7 [char]72` becomes `'\a' '\a'2` | each construct is replaced by its own character: `'\a' 'H'` | high, not executed | Deobfuscator.PrepassAsWritten, Deobfuscator.PrepassAsWrittenSplitsCodes | Deobfuscator.Prepass, Deobfuscator.SubstituteCodesEachCode |

The corrected pass (Prepass) is used only by DeobfuscateLineCorrected; DeobfuscateLine and Deobfuscate keep the pass as written. The two passes also differ where a backtick hides a construct: on ``[char]8[`char]7[char]7`` the pass as written finds `[char]8` and `[char]7`, and deleting the backtick after the first replacement uncovers a second `[char]7` that the next replacement rewrites too. The corrected pass leaves that uncovered `[char]7` as text (PrepassAsWrittenUncoversCode). This second input shows a difference between the passes, not a defect of the code.
