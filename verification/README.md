# A verified model of runex's expansion engine

runex expands abbreviations on the command line. A configuration is a list of
rules; when the user presses space, the word before the cursor is tried against
them in four phases (exact keys, `{number}` keys, globs, regular expressions)
and the first rule that fires replaces the word. This project models that
engine and the code that must agree with it, and proves the agreement:

* the engine itself (`Matching`, `Render`, `RegexRendering`, `Expand`, `Firing`,
  `Hook`, `CommandPosition`), with the trace shown by `runex which` and its
  reasons (`WhichReasons`) and the bounds that every expansion respects;
* the second implementation that runex compiles into bash for Git Bash
  (`BakeTables`, `BashText`, `Dispatcher`, `BakedRules`, `BakeEquivalence`):
  the generated text of the tables, the way bash reads it, the program as a
  class whose fields are the shell variables, and the proof that a key press
  gives the line and the cursor that the hook gives;
* the static analyses that predict the engine without running it (`Blankness`,
  `BlanknessExact`, `SelfLoop`, `Unreachable`, `HidingExact`) and the edit
  distance behind the suggestions (`Levenshtein`);
* the edges that have to be exact: cursor units and the text handed back to each
  shell (`Cursor`, `Utf16`, `HexLine`, `Reply`, `KeyPress`), buffer, command and
  JSON literals (`Quoting`, `NuQuoting`, `Json`), the validation visitor
  (`Validation`, `ValidRules`, `LoadErrors`, `NumberRules`), config edits
  (`ConfigEdit`) and the memoised command lookup (`CommandLookup`).

Strings are sequences of Unicode scalar values; lengths in bytes and UTF-16
code units are computed from the width of each character (section 3 of
RFC 3629, section 2.1 of RFC 2781). The test for an installed command is one
pure oracle. The regular-expression engine is a parameter: a group count and
group names that depend on the key, and the captures of a token. Code that
works step by step is a method or a class proved against a function of its
inputs, and the properties are proved about that function.

## What the code turns out to promise

Six claims made in the code's comments do not hold as they stand. Each has the
exact condition under which it does, or a concrete input, or both.

* *The baked dispatcher equals the exec path.* It does for every valid
  configuration once its regex rules and its U+0085, U+2028 and U+2029
  characters are taken out, and for a plain rule the separators are exactly what
  makes the difference (`PlainRuleBakesExactly`; `SeparatorChangesTheLine` is a
  valid rule). The lines are always the same; the cursors are the same if and
  only if the cursor sent lay within the line or an abbreviation was expanded,
  because `READLINE_POINT` is not clamped before it is moved on by one.
* *`rewrites_token_to_itself` means the rule never changes a token.* The test
  removes every `{}` while rendering removes the first, and `{}` inside `{*}`
  breaks the capture in rendering only. It is exact once the first `{}` is the
  only one and does not cut a capture (`RewritesIsExactUpToCursor`), and
  `ValidRuleIsMisjudged` is a valid rule it gets wrong.
* *A rule listed as unreachable never fires.* It fires if and only if it would
  fire on its own, before any other rule but the one said to hide it, and that
  rule has no entry for the shell or renders beyond the cap
  (`FlaggedRuleFiresExactly`). Both cases occur in valid configurations:
  `FlaggedRuleFiresInAnotherShell`, and in one shell
  `FlaggedRuleFiresBeyondCap`, where `a128` needs 8192 bytes.
* *An accepted `add` leaves a config that loads.* It does exactly when the key
  has no `{`, since adding skips the placeholder checks, and the file does not
  hold its rules as an inline array `abbr = [...]`, to which TOML lets no
  `[[abbr]]` table be added (`AcceptedAppendLoadsExactly`). `a{` is such a key
  (`AcceptedAppendThatDoesNotLoad`) and `abbr = []` such a file
  (`AppendToInlineStopsLoading`).
* *The bash literal of the buffer evaluates back to it.* It does exactly when
  the buffer has no NUL, which in bash ends the text of a `$'...'` part
  (`BashLiteralReadsBack`). Zsh keeps it (`ZshLiteralReadsBack`).
* *`--line-hex` rejects non-hex digits.* It accepts exactly the texts whose
  bytes, two by two, are the digits of a byte of valid UTF-8 in either case, or
  a plus sign and a digit (`HexLineAccepts`, `PairStandsFor`): `+a` is a line
  feed (`PlusIsAccepted`).

## Model

| member | source | states |
|---|---|---|
| BakeEquivalence.BakeAgreesWithHook | runex/src/app/bash_static_dispatcher.rs:241-460 | For every validated config, line, cursor and command oracle, the tables read back from the generated text give the line that the hook gives for the baked config; the cursors agree if and only if the cursor lay within the line or an abbreviation expanded |
| BakeEquivalence.BakePreservesMeaning | runex/src/app/bash_static_dispatcher.rs:25-33 | When no non-regex rule has a line separator in its key, its unit or what bash reads of its template and commands, line and cursor equal the hook's on the config less its regex rules, for every cursor within the line |
| BakeEquivalence.BakedKeyPress | runex/src/app/bash_static_dispatcher.rs:241-460 | Generating the three tables, reading them as bash arrays and running the program gives the hook's line, and its cursor under the same condition |
| BakeEquivalence.PlainRuleBakesExactly | runex/src/app/bash_static_dispatcher.rs:45-64 | Typing the key of a config of one plain rule gives the same line on both paths if and only if neither key nor template has a line separator |
| BakeEquivalence.SeparatorChangesTheLine | runex/src/app/bash_static_dispatcher.rs:48-65 | A valid rule whose key has U+0085 expands through the hook and not in the baked shell |
| BakeEquivalence.LookupAgrees | runex/src/app/bash_static_dispatcher.rs:290-372 | The three table scans in turn hit exactly when the engine fires, with the same text and the same cursor |
| BakeEquivalence.TableAgrees | runex/src/app/bash_static_dispatcher.rs:290-372 | One table scan agrees with the engine's scan of the matching phase, in config order, from any place in the config on |
| BakeEquivalence.ExactEntryAgrees | runex/src/app/bash_static_dispatcher.rs:290-302 | A row of the exact table fires exactly as its rule does, though the scan checks no cap; a rule without a row never fires on bash |
| BakeEquivalence.PatternEntryAgrees | runex/src/app/bash_static_dispatcher.rs:303-333 | A row of the pattern table matches, refuses and renders as its `{number}` rule does; a rule without a row never fires on bash |
| BakeEquivalence.GlobEntryAgrees | runex/src/app/bash_static_dispatcher.rs:338-374 | A row of the glob table matches as a bash pattern, strips and fills its capture, and skips over-long, blank and self-looping text, as its rule does |
| BakeEquivalence.StrippedIsCapture | runex/src/app/bash_static_dispatcher.rs:346-347 | Removing head and tail as bash patterns leaves exactly the text that the engine captures for `*` |
| BakeEquivalence.ConditionsAgree | runex/src/app/bash_static_dispatcher.rs:277-289 | Splitting the colon-joined condition asks for exactly the rule's commands |
| BakeEquivalence.SourcedTables | runex/src/app/bash_static_dispatcher.rs:250-252 | The arrays bash builds from the generated text are the rows of the baked config |
| BakedRules.BakedConfigIsExact | runex/src/app/bash_static_dispatcher.rs:48-65 | For valid rules, bash cannot tell what the tables stand for from the config less its regex rules if and only if nothing it reads of those rules has a line separator |
| BakedRules.KeptRows | runex/src/app/bash_static_dispatcher.rs:97-200 | Baking a valid config and losing characters in the quoting gives the rows of the config with those characters removed first |
| BakedRules.KeptRuleIsBakeable | runex/src/app/bash_static_dispatcher.rs:48-65 | Removing the dropped characters from a valid rule leaves its key's shape, its template's cap, and its command names non-empty and colon-free |
| BakeTables.BashDoubleQuoteForAssoc | runex/src/app/bash_static_dispatcher.rs:48-65 | The loop writes the double-quoted field whose reading AssocQuoteReads determines |
| BakeTables.AssocQuoteReads | runex/src/app/bash_static_dispatcher.rs:48-65 | Inside any word, bash reads a quoted field as its characters less the dropped ones, whatever follows |
| BakeTables.KeptIsAll | runex/src/app/bash_static_dispatcher.rs:59-61 | Quoting loses nothing if and only if no character is of a dropped kind |
| BakeTables.ExactTableLines | runex/src/app/bash_static_dispatcher.rs:97-121 | The loop writes one line per exact rule that has a bash entry, in config order |
| BakeTables.PatternTableLines | runex/src/app/bash_static_dispatcher.rs:136-166 | The loop writes one line per `{number}` rule that has a bash entry, in config order |
| BakeTables.GlobTableLines | runex/src/app/bash_static_dispatcher.rs:179-200 | The loop writes one line per glob rule that has a bash entry, in config order |
| BakeTables.TableReadsBack | runex/src/app/bash_static_dispatcher.rs:241-252 | For every config, valid or not, bash reads each table back as one array element per row, in order |
| BakeTables.EntryReadsBack | runex/src/app/bash_static_dispatcher.rs:296-296 | `read` splits every element into exactly the row's fields less the dropped characters: no field can hold a separator or a newline |
| Dispatcher.Program.Expand | runex/src/app/bash_static_dispatcher.rs:408-459 | A key press turns the line and cursor into what the table lookup prescribes, whether or not `nocasematch` was set, and leaves that option as it was |
| Dispatcher.Program.ExactLookup | runex/src/app/bash_static_dispatcher.rs:290-302 | The scan leaves the first row that yields something, or empty variables and no hit |
| Dispatcher.Program.PatternLookup | runex/src/app/bash_static_dispatcher.rs:303-333 | The same for the pattern rows, with the unit repeated in a loop |
| Dispatcher.Program.GlobLookup | runex/src/app/bash_static_dispatcher.rs:338-374 | The same for the glob rows |
| Dispatcher.Program.ReadCount | runex/src/app/bash_static_dispatcher.rs:308-320 | Removing prefix, suffix and leading zeros and checking at most three digits accepts exactly the digit texts worth 1 to 128, with their value |
| Dispatcher.Program.Render | runex/src/app/bash_static_dispatcher.rs:259-275 | Pattern removal splits at the first `{}`; blank text leaves nothing and no hit |
| Dispatcher.Program.IsBlankText | runex/src/app/bash_static_dispatcher.rs:254-258 | Removing the six ASCII blanks and the nineteen others leaves nothing exactly when every character is Unicode white space |
| Dispatcher.Program.CondsMet | runex/src/app/bash_static_dispatcher.rs:277-289 | The memoised loop answers whether every listed command exists, and the memo stays true |
| Dispatcher.Program.CheckCommandPosition | runex/src/app/bash_static_dispatcher.rs:375-407 | The bash test accepts exactly the prefixes that the hook's test accepts, whether or not `nocasematch` is set |
| Dispatcher.CaseWouldMatter | runex/src/app/bash_static_dispatcher.rs:436-445 | With `nocasematch` left on, a glob key would match other tokens and a placeholder in capitals would be replaced, so the lookups need it off |
| Dispatcher.DigitChecks | runex/src/app/bash_static_dispatcher.rs:316-320 | Digits without leading zeros, no more than three of them and no more than 128, are exactly the counts |
| BashText.RemoveLeadingZeros | runex/src/app/bash_static_dispatcher.rs:316-316 | The nested removal strips exactly the leading zeros |
| BashText.RemoveFromFirst | runex/src/app/bash_static_dispatcher.rs:261-261 | Removing the longest suffix that begins with a literal cuts at its first occurrence |
| BashText.RemoveThroughLastSpace | runex/src/app/bash_static_dispatcher.rs:417-417 | Removing the longest prefix that ends in a space leaves the last word |
| Expand.Lookup.Expand | runex/src/domain/expand.rs:376-391 | The loop over phases around the loop over rules returns the expansion of the first firing rule in rule order |
| Expand.Lookup.WinnerIsLeast | runex/src/domain/expand.rs:366-391 | The rule that fires is the least by phase and then config index among all rules that would fire; if none would, the token passes through |
| Firing.EntryByLabel | runex/src/domain/model.rs:44-111 | The entry of each shell is the one validation labels with the shell's name, or else the fallback; Clink has no name of its own |
| Firing.FiresExactly | runex/src/domain/expand.rs:397-430 | A rule fires with a text if and only if it matches, its entry for the shell renders to that visible text, its commands for the shell are all there, and it is no self-loop |
| Firing.PhaseOrder | runex/src/domain/expand.rs:58-76 | Exact keys are tried before `{number}` keys, these before globs, globs before regexes, and rules of one kind in config order |
| Expand.FiredExpansionIsSound | runex/src/domain/expand.rs:397-430 | Every fired expansion is not blank, is at most 4096 bytes and has its cursor on a character boundary inside it; a glob or regex rule never fires to the token itself |
| Expand.Lookup.WhichAbbr | runex/src/domain/expand.rs:589-628 | The traced loops return the trace of the scan over the rule order |
| Expand.Lookup.WhichAgreesWithExpand | runex/src/domain/expand.rs:589-628 | `which` and `expand` pick the same rule or neither; the skipped list is exactly the matching rules before it, in order; the expansion shown is the fired text with `{}` back at the cursor |
| WhichReasons.WhichGivesReasons | runex/src/domain/expand.rs:589-685 | `which` lists exactly the matching rules tried before the one that fires, or all if none does, each with the one reason that is right for it |
| WhichReasons.SkippedForItsReason | runex/src/domain/expand.rs:630-677 | Each reason is given if and only if it holds: no entry for the shell; a missing command, with the list split in order into found and missing; a blank rendering; a self-loop or a refused rendering |
| WhichReasons.SplitIsHaving | runex/src/domain/expand.rs:650-656 | Splitting a list in order into commands that are there and commands that are not has one result |
| Expand.Lookup.OutcomeAgrees | runex/src/domain/expand.rs:630-685 | The traced attempt of a rule hits exactly when the plain attempt fires, with the same text |
| Expand.Lookup.ExactRuleShowsItsTemplate | runex/src/domain/expand.rs:680-688 | What `which` shows for an exact rule is the rule's own template |
| Expand.FromPhaseSorted | runex/src/domain/expand.rs:67-76 | The order in which rules are tried is strictly increasing by phase and config index and holds only rules of the config |
| Expand.FromPhaseComplete | runex/src/domain/expand.rs:67-76 | Every rule of the config has its place in that order |
| Matching.GlobKeyRefinesWildcard | runex/src/domain/expand.rs:162-187 | For every key with at most one `*`, matching head and tail accepts exactly the tokens that the general recursive `*`/`?` definition accepts |
| Matching.GlobCaptureIsTheMiddle | runex/src/domain/expand.rs:162-187 | The capture is the one text that stands between a match of the head and a match of the tail |
| Matching.NumberKeyAccepts | runex/src/domain/expand.rs:190-225 | Between prefix and suffix, a `{number}` key accepts exactly digit texts of unbounded value 1 to 128 and captures that value |
| Matching.NumberKeyNeedsItsParts | runex/src/domain/expand.rs:190-225 | Any token such a key matches has the form prefix, count, suffix |
| Matching.ParseU32IsDecimal | runex/src/domain/expand.rs:205-211 | Parsing with checked 32-bit arithmetic yields the unbounded decimal value, or nothing exactly when that exceeds 32 bits |
| NumberRules.ValidNumberRuleMatches | runex/src/domain/expand.rs:190-225 | A validated `{number}` rule matches a token if and only if it is prefix, digits worth 1 to 128, suffix |
| NumberRules.RepetitionNeverRefuses | runex/src/domain/expand.rs:299-319 | For a validated rule the repetition never exceeds the cap on its own, so rendering fails only when the whole text does |
| Render.ForEachRenderedPiece | runex/src/domain/expand.rs:262-282 | The scan terminates and emits the pieces of the recursive definition |
| Render.SubstituteCapturesTwoPass | runex/src/domain/expand.rs:249-260 | Measuring with saturating sums and then building refuses exactly what exceeds the cap, and the built text has the measured length |
| Render.ScanFillsTheParse | runex/src/domain/expand.rs:262-282 | The emitted pieces join to the template's independent parse with each placeholder filled once; captured text is never scanned again |
| Render.ParsePrintsBack | runex/src/domain/expand.rs:262-282 | The parse into characters and placeholders prints back to the template |
| Render.ParsedHolesResolve | runex/src/domain/expand.rs:286-297 | Every placeholder of the parse stands for a captured text |
| Render.ParseDependsOnShape | runex/src/domain/expand.rs:286-297 | Two matches of one rule parse every template alike |
| RegexRendering.NumberedPlaceholder | runex/src/domain/expand.rs:286-297 | In a regex rule `{1}` to `{9}` render the engine's capture of that group, empty if it took no part, or stay as they are if the key has fewer groups |
| RegexRendering.NamedPlaceholder | runex/src/domain/expand.rs:286-297 | Any other name renders the capture of the first group that bears it |
| RegexRendering.UnknownPlaceholder | runex/src/domain/expand.rs:262-297 | A braced text that names no group keeps its brace, and the scan goes on right after it |
| RegexRendering.UnclosedText | runex/src/domain/expand.rs:262-282 | An opening brace that is never closed stays, and so does text without one |
| RegexRendering.RegexRuleMatches | runex/src/domain/expand.rs:135-149 | A regex rule matches exactly the tokens for which the engine has captures |
| RegexRendering.GroupsKeepTheirOrder | runex/src/domain/expand.rs:286-297 | `git {1} {2}` renders the first capture and then the second |
| Render.GlobFillIsReplace | runex/src/domain/expand.rs:249-297 | For a glob rule the scan is the same as replacing every `{*}` from the left |
| Render.RenderIsFullTextWithinCap | runex/src/domain/expand.rs:231-247 | A rendering is refused exactly when the full text exceeds the cap; otherwise it is that text, with the cursor where the first `{}` stood |
| Blankness.BlanknessIsSound | runex/src/domain/expand.rs:457-508 | For every valid rule and every token it matches: `Always` means refused or blank, `Never` means refused or not blank |
| BlanknessExact.BlanknessIsExact | runex/src/domain/expand.rs:457-508 | For a valid rule that is no regex, `Always` and `Never` are answered if and only if every matched token renders blank, or visibly, or is refused; a `{number}` rule's unit must be free of braces and its first repetition must fit |
| Blankness.RepetitionKeepsBlankness | runex/src/domain/expand.rs:474-486 | Repeating a brace-free unit one or more times does not change whether the rendering is blank |
| Blankness.BraceFreeUnitKeepsCursor | runex/src/domain/expand.rs:474-486 | Filling a brace-free unit into a template neither creates, destroys nor moves the first `{}` |
| SelfLoop.RewritesIsExactUpToCursor | runex/src/app/doctor.rs:205-215 | For a valid glob rule, every matched token whose rendering fits renders to itself if and only if the comparison says so and the first `{}` is the only one and cuts no `{*}` |
| SelfLoop.ComparisonAcceptsTooMuch | runex/src/app/doctor.rs:205-215 | A template whose `{}` stands inside `{*}` passes the comparison and still changes a token |
| SelfLoop.ValidRuleIsMisjudged | runex/src/app/doctor.rs:205-215 | A valid rule for which the comparison says that every token renders to itself, and one does not |
| SelfLoop.RewritesForcesParts | runex/src/app/doctor.rs:205-215 | If every token renders to itself, the key has no `?` and the template is head, capture, tail, by a capture that occurs nowhere in either |
| SelfLoop.FreshFillIsInjective | runex/src/app/doctor.rs:205-215 | Two templates that agree on one capture occurring in neither are equal |
| Unreachable.CheckUnreachableDuplicates | runex/src/app/doctor.rs:534-560 | The map-updating loop flags each rule that has an earlier hiding rule of the same key and kind, paired with the first such rule |
| Unreachable.FirstHidingIsFirst | runex/src/app/doctor.rs:534-560 | No hiding rule of the same identity stands before the one reported |
| HidingExact.FlaggedExactly | runex/src/app/doctor.rs:534-560 | A rule is flagged because of an earlier one if and only if that is the first of the same key and kind that hides |
| HidingExact.HidesExactly | runex/src/app/doctor.rs:224-232 | A valid rule that is no regex hides if and only if it asks for no commands and no shell's entry ever renders blank or fails the test for giving the token back |
| HidingExact.RegexHidesExactly | runex/src/app/doctor.rs:224-232 | A regex rule hides if and only if it asks for no commands and each entry has a space and renders visibly with every group empty |
| Unreachable.HidingRuleFiresExactly | runex/src/app/doctor.rs:224-232 | On a space-free token, a rule said to fire whenever matched fires if and only if it matches, has an entry for the shell and renders within the cap |
| Unreachable.FlaggedRuleFiresExactly | runex/src/app/doctor.rs:534-560 | A flagged rule is the one that fires if and only if it would fire on its own, comes before every other firing rule but the hiding one, and the hiding rule has no entry for the shell or exceeds the cap |
| Unreachable.FlaggedRuleNeverFires | runex/src/app/doctor.rs:534-560 | For every oracle and space-free token, a flagged rule is never the one that fires where the earlier rule has an entry that renders within the cap |
| Unreachable.FlaggedRuleFiresInAnotherShell | runex/src/app/doctor.rs:224-232 | A valid config with a flagged rule that fires in a shell for which the earlier rule has no entry |
| Unreachable.FlaggedRuleFiresBeyondCap | runex/src/app/doctor.rs:224-232 | A valid config with a flagged rule that fires, in any shell, on a token for which the earlier rule needs twice the cap |
| Levenshtein.Levenshtein | runex/src/app/doctor.rs:292-306 | The two-row loop returns the distance |
| Levenshtein.NoScriptIsCheaper | runex/src/app/doctor.rs:292-306 | No script of insertions, deletions and substitutions from one text to the other costs less than the distance |
| Levenshtein.BestScript | runex/src/app/doctor.rs:292-306 | Some script costs exactly the distance |
| Levenshtein.ZeroIffEqual | runex/src/app/doctor.rs:292-306 | The distance is zero exactly for equal texts |
| Levenshtein.Symmetric | runex/src/app/doctor.rs:292-306 | The distance is symmetric |
| Levenshtein.Triangle | runex/src/app/doctor.rs:292-306 | The distance obeys the triangle inequality |
| Levenshtein.SuggestSimilar | runex/src/app/doctor.rs:308-318 | The suggestion is the first candidate of least distance among those at distance 1 or 2, or none exactly when there is none |
| Hook.RunHook | runex/src/domain/hook.rs:38-105 | With its check for known tokens, on any boundary cursor, the hook returns what the definition without that check returns |
| Hook.UnknownTokenPassesThrough | runex/src/domain/hook.rs:128-133 | A token no rule matches passes through the lookup |
| Hook.HookKeepsItsFrame | runex/src/domain/hook.rs:38-118 | The result is a prefix of the line, an insertion and the unchanged right part; the cursor is a boundary at or before the end of the insertion, and exactly there when no placeholder was used |
| CommandPosition.CommandPositionExactly | runex/src/domain/hook.rs:195-240 | A prefix is a command position if and only if, spaces at its end aside, it is empty, ends in `&&`, two bars, one bar or `;`, or ends in the word `sudo` after a text of one of these kinds |
| CommandPosition.WordIsNoCommandPosition | runex/src/domain/hook.rs:195-215 | `echo ` is none |
| CommandPosition.CandidateIsToken | runex/src/domain/hook.rs:48-73 | The hook considers exactly a nonempty space-free word that ends at the cursor, before a space or the end of the line, and stands in command position |
| CommandPosition.HookAtToken | runex/src/domain/hook.rs:75-105 | At such a token the line and cursor are those of its expansion, with the trigger space unless the expansion places the cursor; without an expansion one space is inserted |
| CommandPosition.HookWithoutToken | runex/src/domain/hook.rs:48-73 | Without such a token one space is inserted at the cursor |
| CommandPosition.HookReplacesExactly | runex/src/domain/hook.rs:38-105 | The hook replaces if and only if there is such a token and it expands |
| Hook.ClampedIndex | runex/src/domain/hook.rs:46-46 | A cursor beyond the line counts as its end, any other as the character it stands before |
| Cursor.Utf16CursorToByte | runex/src/app/hook.rs:203-224 | The loop returns the bytes before the character in which the code unit falls |
| Cursor.ByteCursorToUtf16 | runex/src/app/hook.rs:232-247 | The loop returns the code units of the characters that start before the byte |
| Cursor.CharCursorRoundTrip | runex/src/app/hook.rs:147-175 | Characters to bytes and back is the cursor clamped to the line, through a character boundary |
| Cursor.ByteCursorRoundTrip | runex/src/app/hook.rs:147-175 | Bytes to characters and back is the greatest character boundary at or below the byte |
| Cursor.UnitCursorRoundTrip | runex/src/app/hook.rs:203-247 | Code units to bytes and back is the greatest boundary at or below the unit, through a character boundary |
| Utf16.FirstOfEncoding | runex/src/app/hook.rs:203-247 | A decoder that pairs surrogates (section 2.1 of RFC 2781) finds each character first and takes exactly its width in code units |
| Utf16.DecodesItsUnits | runex/src/app/hook.rs:203-247 | Every text decodes from its code units |
| Utf16.UnitCursorByEncoding | runex/src/app/hook.rs:203-224 | A cursor in code units falls after the longest part of the line whose UTF-16 form fits into it |
| Utf16.ReportedUnits | runex/src/app/hook.rs:232-247 | A boundary is reported as the length of the UTF-16 form before it |
| Utf16.AstralCharacter | runex/src/app/hook.rs:203-224 | U+1F3AF takes two units: cursor 2 falls after its four bytes and cursor 1 before them |
| Cursor.ShellCursorIsBoundary | runex/src/app/hook.rs:92-99 | Every cursor a shell can send becomes a byte offset inside the line at which it may be sliced |
| Reply.ReplyShowsAction | runex/src/domain/hook.rs:147-182 | For every shell, a reader of the reply text finds the action's line and a cursor in the shell's own unit, written in decimal; for zsh the two halves join to the line |
| Reply.InsertSpaceAction | runex/src/app/hook.rs:110-120 | Filling the buffer inserts one space at the clamped cursor |
| Reply.InsertSpaceEndToEnd | runex/src/app/hook.rs:48-120 | For every shell and every cursor not inside a surrogate pair, the reply shows the line with one more space at the clamped cursor, and the cursor one further in the shell's unit |
| HexLine.HexLineAccepts | runex/src/app/hook.rs:246-267 | The argument decodes to a line if and only if its bytes, two by two, stand for the line's UTF-8 bytes |
| HexLine.PairStandsFor | runex/src/app/hook.rs:261-264 | Two bytes stand for a value if and only if they are its hexadecimal digits, in either case, or a plus sign and its only digit |
| HexLine.HexLineRoundTrip | runex/src/domain/templates/clink.lua:15-17 | Every line arrives as Clink's upper-case hexadecimal sent it |
| HexLine.PlusIsAccepted | runex/src/app/hook.rs:248-251 | `+a`, which is not hexadecimal, decodes to a line feed |
| HexLine.FirstCharOfEncoding | runex/src/app/hook.rs:266-266 | A strict UTF-8 decoder (section 3 of RFC 3629) reads back the encoding of any character, whatever follows |
| HexLine.EncodingOfFirstChar | runex/src/app/hook.rs:266-266 | And it accepts no other bytes for that character |
| KeyPress.PressEndToEnd | runex/src/app/hook.rs:23-99 | For every shell, cursor and line, the reply leaves exactly the hook's line in the shell's buffer and its cursor before the same character, expansions included; for bash, which cannot hold a NUL, for every valid config and line without one |
| KeyPress.SentIndexIs | runex/src/app/hook.rs:92-99 | A cursor that falls after the first characters, in the shell's own unit, is taken for the index of the next one |
| KeyPress.UnitOfEachShell | runex/src/app/hook.rs:92-99 | PowerShell's cursor counts UTF-16 code units, every other shell's characters, and a cursor beyond the line is its end |
| KeyPress.ReplyUnitOfEachShell | runex/src/app/hook.rs:48-80 | The cursor of a reply is counted in the same unit |
| KeyPress.Press | runex/src/app/hook.rs:23-99 | Converting the cursor, running the hook and rendering its action gives that reply |
| KeyPress.FiringLacks | runex/src/domain/expand.rs:231-319 | An expansion holds only characters of the template, the unit and the token |
| Json.JsonStringReadsBack | runex/src/domain/hook.rs:173-181 | A JSON reader (section 7 of RFC 8259) gets back every line from the string written for Nu |
| Json.DecimalReadsBack | runex/src/domain/hook.rs:147-182 | A cursor written in decimal reads back, whatever non-digit follows |
| Quoting.BashQuoteBuffer | runex/src/domain/shell.rs:99-110 | The loop writes the literal that BashLiteralReadsBack is about |
| Quoting.BashLiteralReadsBack | runex/src/domain/shell.rs:99-110 | Evaluating the literal as a bash word gives every character but NUL, so it gives the buffer if and only if it has no NUL |
| Quoting.ZshLiteralReadsBack | runex/src/domain/shell.rs:99-110 | A zsh word reader, which keeps NUL, recovers every buffer |
| Quoting.BashLiteralHasNoControl | runex/src/domain/shell.rs:99-110 | The literal has no ASCII control character |
| Quoting.PwshDoubleQuoteString | runex/src/domain/shell.rs:153-168 | The loop writes the literal that PwshLiteralReadsBack is about |
| Quoting.PwshLiteralReadsBack | runex/src/domain/shell.rs:153-168 | A PowerShell double-quote reader recovers every buffer |
| Quoting.LuaQuoteString | runex/src/domain/shell.rs:255-271 | The loop writes the literal that LuaLiteralReadsBack is about |
| Quoting.LuaLiteralReadsBack | runex/src/domain/shell.rs:255-271 | A Lua reader recovers exactly the UTF-8 bytes, whatever digits follow an escape |
| Quoting.LuaLiteralIsSafe | runex/src/domain/shell.rs:255-271 | The literal has no character that is unsafe for display |
| NuQuoting.NuQuoteString | runex/src/domain/shell.rs:178-192 | The loop writes the literal that NuLiteralReadsBack is about |
| NuQuoting.NuQuoteStringEmbedded | runex/src/domain/shell.rs:204-224 | The walk that looks one character ahead computes the embedding of the standalone literal |
| NuQuoting.NuLiteralReadsBack | runex/src/domain/shell.rs:178-192 | Nu reads the literal as a command named by the value less the dropped characters: the value itself if and only if none is dropped |
| NuQuoting.NuEmbeddedReadsBack | runex/src/domain/shell.rs:194-224 | Read once as outer text and once as a command, the embedded literal names the same command as the standalone one |
| NuQuoting.EveryDollarIsEscaped | runex/src/domain/shell.rs:194-224 | In both literals an odd number of backslashes stands before every `$` |
| Validation.Visitor.VisitValidationIssues | runex/src/app/config.rs:508-551 | Visiting with or without an early exit reports, in order, the issues of the whole config or its first |
| Validation.Visitor.WalkCmdsIssues | runex/src/app/config.rs:446-503 | The nested walker, with its skip past an over-long list, reports the command issues in order or stops at the first |
| Validation.Visitor.WalkNumberPlaceholderIssues | runex/src/app/config.rs:648-708 | The placeholder walker reports its issues in order or stops at the first |
| Validation.CollectValidationIssues | runex/src/app/config.rs:733-741 | The full visit collects exactly the list of all issues |
| Validation.FirstValidationError | runex/src/app/config.rs:743-750 | The early-exit visit is the converted head of that list, or none when it is empty |
| LoadErrors.LoadErrorNamesTheFault | runex/src/app/config.rs:249-253 | The error of a failed load names the first rule that is not valid, and a fault that rule has, of the first group of faults in which it has any; or it says that there are too many rules |
| LoadErrors.ValidWithoutFaults | runex/src/app/config.rs:302-399 | A rule is valid if and only if none of the faults, each stated on the text of the field, is there |
| LoadErrors.FirstKeyFault | runex/src/app/config.rs:302-323 | Of several faults of a key the first in the order of the checks is reported |
| LoadErrors.FirstExpandFault | runex/src/app/config.rs:325-352 | Likewise for an expansion |
| LoadErrors.FirstCommandFault | runex/src/app/config.rs:354-399 | Likewise for a command |
| LoadErrors.ExpandIssueAt | runex/src/app/config.rs:405-444 | An expansion is reported under its own label if and only if it has a fault |
| LoadErrors.CommandIssueAt | runex/src/app/config.rs:446-503 | A command is reported under its list's label and at its place in the list, counted from one, and a list that is too long as a whole |
| LoadErrors.MissingGroupNamed | runex/src/app/config.rs:633-646 | A template refers to a missing group if and only if it has `{n}` for a digit beyond the key's groups |
| ValidRules.ValidatedMeansValidRules | runex/src/app/config.rs:508-551 | A config is reported nothing if and only if it is not too long and every rule is valid |
| ValidRules.NoRuleIssues | runex/src/app/config.rs:508-551 | A rule is reported nothing if and only if each of its fields is valid |
| ValidRules.ValidNumberRule | runex/src/app/config.rs:648-708 | A valid rule of the number phase has the form prefix, `{number}`, suffix with no other brace, and a valid unit |
| ConfigEdit.TwoReplacementsEscape | runex/src/infra/config_store.rs:263-266 | Two successive replacements escape every backslash and quote exactly once |
| ConfigEdit.TomlQuoteReadsBack | runex/src/infra/config_store.rs:263-266 | A reader of TOML basic strings (the String section of TOML v1.0.0) recovers the text and what follows, or refuses exactly when the text has a character TOML forbids |
| ConfigEdit.AppendedBlockReadsBack | runex/src/infra/config_store.rs:203-222 | The appended block reads back to the same key, expansion and command list |
| ConfigEdit.AppendAbbr | runex/src/app/config.rs:871-913 | An append writes its block at the end of the file, whatever form the file has, or fails with the first issue of its fields in order, of the existing config, or of its size |
| ConfigEdit.AcceptedAppend | runex/src/app/config.rs:871-913 | There is no such issue if and only if the fields pass their checks and the existing config is valid and has room |
| ConfigEdit.AddedRuleMeans | runex/src/infra/config_store.rs:203-222 | The added rule has the key, and for every shell the given expansion and the given commands |
| ConfigEdit.AcceptedAppendLoadsExactly | runex/src/app/config.rs:871-913 | The file after an accepted append loads if and only if the key has no `{` and the file has no inline array of rules |
| ConfigEdit.AcceptedAppendReadsBack | runex/src/infra/config_store.rs:203-222 | The block of an accepted append reads back to the key, expansion and commands that were asked for |
| ConfigEdit.AppendToInlineStopsLoading | runex/src/infra/config_store.rs:203-222 | A file `abbr = []` loads and accepts the key `gs`, and then no longer loads |
| ConfigEdit.AcceptedAppendThatDoesNotLoad | runex/src/app/config.rs:871-913 | A file without rules accepts the key `a{`, and then no longer loads |
| ConfigEdit.Document.RemoveAbbrBlock | runex/src/infra/config_store.rs:226-261 | The in-place loop over tables leaves the rules of other keys, in order, and returns the number removed; a file of any other form stays as it is, with none removed |
| ConfigEdit.RemovalIsComplete | runex/src/infra/config_store.rs:226-261 | After a removal the key is gone if and only if the file holds tables or never had the key; removed and remaining rules add up |
| ConfigEdit.WithoutKeyKeeps | runex/src/infra/config_store.rs:226-261 | Exactly the rules of other keys remain, and removed and remaining rules add up |
| ConfigEdit.RemovalKeepsValidity | runex/src/app/config.rs:916-919 | Removal keeps a file loadable |
| ConfigEdit.RemoveAfterAddRestores | runex/src/infra/config_store.rs:203-261 | In every file to which a key can be added, removing a key just added restores the rules of a file that lacked it and reports one removal |
| CommandLookup.CommandExists.Exists | runex/src/util/path.rs:60-117 | The memoised lookup answers as the simple one does and looks a command up live at most once |
| CommandLookup.CommandExists.ExistsOwned | runex/src/util/path.rs:126-176 | The owned lookup meets the same contract, so the two agree |
| CommandLookup.RunCalls | runex/src/util/path.rs:60-176 | Over any sequence of calls to either lookup, every answer is the simple one, no name with a slash, a backslash or a colon is there, no command is looked up live twice, and only those called and neither hinted nor prepended are looked up at all |
| CommandLookup.AnswerIs | runex/src/util/path.rs:60-117 | The simple answer, character by character: a name with a slash, a backslash or a colon is refused; any other is there if the hint says so, if the prepended directory has the file, on Windows also with `.exe`, or if a live lookup finds it |

## Left out

- The regular-expression engine, the TOML and JSON parsers: outside libraries; the first is a parameter, TOML is modelled for the strings and blocks that runex itself writes, and JSON for the reply to Nu, whose string is written with the escapes that RFC 8259 prescribes.
- Files, the registry, the environment, processes and the clipboard: calls to the system.
- The shell templates and the export scripts around the dispatcher: substitution into fixed text.
- Command-line parsing, formatting, prompts, timings and the keybinding checks: user interface.
- The 16 KiB guard on the line that the exec path reads: it stands in front of the hook and the dispatcher has none.
- Bash beyond the dispatcher: brackets, backslashes and extended patterns are excluded from glob keys by validation; a UTF-8 locale is assumed; `type -P` and the hook's search for a command are one oracle; the special subscripts of associative arrays, which a command named `@` might meet in old versions, are not modelled.
- The octal escape of a table separator is read for codes below 0x80 only, since the program writes only 037.
- Case folding under `nocasematch` is modelled for ASCII letters only.
- Arithmetic overflow of 64-bit lengths: the saturating sum of the piece lengths is modelled; the checked product of unit length and count is not, since no unit in memory reaches it.
- `pwsh_quote_string` and `bash_quote_string`: they drop characters from paths and promise no more.
- Field paths in validation issues are data instead of formatted text, and engine error text is a parameter.
- The TOML text of a file outside the appended block: a file is the form of its `abbr` entry and its list of rules.
- The timed variants of `expand` and of the hook: the same scan with a clock.
- Reply.ReplyShowsAction: assumes for bash a buffer without NUL, which a bash variable cannot hold; and for zsh that `RC_QUOTES` is off, as it is by default.
- KeyPress.PressEndToEnd: assumes for bash that what a regex captures is part of the token; the engine is a parameter.
- Unreachable.FlaggedRuleFiresExactly: assumes that the names of regex groups contain no space, as the syntax of such names demands.
