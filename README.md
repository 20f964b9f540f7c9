# tbox-cli template engine and alias table, in Dafny

This project models two parts of the `tbox` command-line tool.

1. **The template placeholder engine.** A template is text with `{{...}}`
   markers in it.
   - The parser (`getPlaceholders`) turns each marker into a classified
     placeholder: a variable with a default, a built-in, or a comment.
   - The processor (`replacePlaceholders`) rewrites the text. Each marker
     becomes the value of a built-in, nothing (for a comment), or the value
     supplied for a variable.
   - Both scan the text with the same pattern, `\{\{([^}]+)\}\}`. Here that
     pattern is one hand-written scanner (`Scanner.Scan`). It is specified
     by what a match is, leftmost first and non-overlapping, and is proved
     to be the only sequence of matches that meets that specification.
2. **The alias table** behind `alias create`, `alias delete` and
   `alias edit`. The table loaded from the aliases file is the `aliases`
   field of the class `Alias.AliasStore`. Each command is a method that
   changes that field in place and reports whether the command writes the
   table back. `delete` keeps its counting loop, which is proved against
   the functions `Removed` and `PresentCount`.

Files:
- `options.dfy`: `Option`, which stands for an optional JavaScript property.
- `text.dfy`: the JavaScript string operations the code relies on. These
  are `trim` (over the ECMAScript whitespace set), `startsWith`, `split` on
  one character, `replace` of the first occurrence of a string, and the
  decimal rendering of a count.
- `scanner.dfy`: the marker scanner and the splice that `String.replace`
  performs.
- `parser.dfy`: `Type`, `Placeholder`, classification and `GetPlaceholders`.
- `processor.dfy`:
  - the callback's decision and `ReplacePlaceholders`;
  - the shipped registry;
  - the corrected by-key processor described under Findings.
- `alias.dfy`: the alias record, the table functions, and `AliasStore`.

Two points of the code that are easy to misread:
- **The default of a variable.** `inner.split("=")` destructured into two
  names keeps only the segment between the first and the second `=`; any
  text after a second `=` is dropped (`Parser.DefaultStopsAtSecondEquals`).
- **The processor's lookup names.** The processor looks up the raw,
  untrimmed group, not the key the parser reports, for both built-ins and
  variables. The consequence is recorded under Findings.

Inputs that come from outside become parameters:
- **The built-in registry** is a `map<string, string>` from a built-in's
  name to the text it produces in this call. The shipped registry is
  `Processor.DefaultBuiltIns(year, uuid)`. The clock reading and the random
  identifier are its two parameters.
- **The prompt answers** are maps (template variables) or an `EditAnswer`
  (`alias edit`).
- **The aliases file** becomes the `aliases` field. What its schema demands
  becomes the predicate `Alias.ValidTable`.

## Model

| member | source | states |
|---|---|---|
| Scanner.MatchesAt | src/commands/template/parser.ts:14 | a match starts at `i` when the text has `{{` there, the group up to the first `}` after it is not empty, and that `}` is followed by another `}` (read as a marker by Scanner.MatchesAtIffMarker) |
| Scanner.CloseIndex | src/commands/template/parser.ts:14 | the `[^}]+` part of the pattern: the index returned is the first `}` at or after the start, or the end of the text when there is none |
| Scanner.MatchesAtIffMarker | src/commands/template/parser.ts:14 | a match starts at `i` with group `w` exactly when the text at `i` is `{{`, then `w` (one or more characters, none of them `}`), then `}}` |
| Scanner.Scan | src/commands/template/parser.ts:14-15 | every match found is a marker with its group; the matches are in increasing order, do not overlap, and lie inside the text |
| Scanner.ScanNoneMissed | src/commands/template/parser.ts:14-15 | the scan is leftmost-first: no match starts in a gap between the matches found, nor inside a found marker |
| Scanner.ScanUnique | src/commands/template/parser.ts:14-15 | any sequence of matches that is well formed and misses none is the scan: all matches of `matchAll` are determined by the text |
| Scanner.ScanEmptyIff | src/commands/template/parser.ts:15-17 | the scan is empty exactly when no match starts at any index of the text |
| Scanner.NoOpeningNoMatch | src/commands/template/parser.ts:14 | a text with no `{{` in it has no match |
| Scanner.EmptyMarkerIsNoMatch | src/commands/template/parser.ts:14 | `{{}}` gives no match, because the group needs at least one character |
| Scanner.EarlyCloseIsNoMatch | src/commands/template/parser.ts:14 | `{{a}b}}` gives no match, because the group ends at the first `}` |
| Scanner.ThirdBraceJoinsTheGroup | src/commands/template/parser.ts:14 | `{{{a}}` is one match from index 0 to 6 whose group is `{a` |
| Scanner.SingleMarker | src/commands/template/parser.ts:14-15 | `{{w}}`, for a `w` that is not empty and has no `}`, is exactly one match, with group `w` |
| Scanner.ScanTakesMarker | src/commands/template/parser.ts:14-15 | a marker at the scan position is the next match, and the scan resumes right after its closing `}}` |
| Scanner.TwoMarkers | src/commands/template/parser.ts:14-15 | two markers side by side are two matches, in text order |
| Scanner.SpliceMarkersIsIdentity | src/commands/template/processor.ts:8 | splicing each match's own marker text back into the text gives the text from the scan position: the splice copies everything between the matches |
| Scanner.SpliceOne | src/commands/template/processor.ts:8 | replacing one match gives the text before it, the replacement and the text after it |
| Scanner.Splice | src/commands/template/processor.ts:8 | the text `String.replace` builds: the text before each match, then that match's replacement, then the text after the last match (proved to copy the text between matches by Scanner.SpliceMarkersIsIdentity and Scanner.SpliceOne) |
| Text.StartsWith | src/commands/template/parser.ts:28-36 | `startsWith`: the text is at least as long as the prefix and begins with it; the same test the processor makes at lines 9 and 16 of src/commands/template/processor.ts |
| Text.IsWs | src/commands/template/parser.ts:25 | the characters `trim` removes: the ECMAScript WhiteSpace and LineTerminator characters (tab to carriage return, space, no-break space, the Zs space separators, line and paragraph separator, byte order mark); the same set the processor trims at lines 9 and 16 of src/commands/template/processor.ts |
| Text.Trim | src/commands/template/parser.ts:25 | the trimmed text is no longer than the text, and neither starts nor ends with ECMAScript whitespace |
| Text.TrimShape | src/commands/template/parser.ts:25 | the trimmed text is the infix of the text between its leading and its trailing whitespace |
| Text.TrimUnique | src/commands/template/parser.ts:25 | for whitespace `p` and `q` and a trimmed `r`, trimming `p + r + q` gives `r`: this characterises `trim` completely |
| Text.TrimIdempotent | src/commands/template/parser.ts:25 | trimming twice is trimming once |
| Text.TrimIgnoresPadding | src/commands/template/parser.ts:25 | whitespace added at either end does not change the trimmed text |
| Text.Split | src/commands/template/parser.ts:44 | `split` gives at least one part; no part holds the separator; joining the parts with the separator gives the text back |
| Text.SplitJoin | src/commands/template/parser.ts:44 | splitting parts joined by a separator they do not hold gives the parts back (the inverse of Join) |
| Text.SplitFirst | src/commands/template/parser.ts:44 | the first part is the text before the first separator; there is a second part exactly when the text holds the separator |
| Text.IndexOfChar | src/commands/template/parser.ts:44 | the index returned is that of the first occurrence of the character, or the length when there is none |
| Text.FindFrom | src/commands/template/processor.ts:11 | the search finds the first occurrence of the pattern at or after the start, and finds nothing only when there is no occurrence |
| Text.RemoveFirstAt | src/commands/template/processor.ts:11 | `replace(p, "")` removes exactly the first occurrence of `p` and keeps the rest |
| Text.ReplaceFirst | src/commands/template/processor.ts:11 | `replace` with a string pattern: the first occurrence found by Text.Find is replaced, and a text without one comes back as it is (removal proved by Text.RemoveFirstAt) |
| Text.NatToString | src/commands/alias/AliasCommand.ts:111 | the rendering of a count is a non-empty string of digits, with no leading zero except for 0 itself |
| Text.NatToStringValue | src/commands/alias/AliasCommand.ts:111 | the digits of the rendering read back as the count |
| Parser.Type | src/commands/template/parser.ts:1-5 | the three kinds of placeholder: `Variable`, `BuiltIn`, `Comment` |
| Parser.Placeholder | src/commands/template/parser.ts:7-11 | a kind, a key, and a default that is present or absent |
| Parser.Classify | src/commands/template/parser.ts:24-50 | the `.map` callback: the group trimmed, tested for `__` and then `!`, otherwise split at `=` into key and default (its cases proved by Parser.ClassifyBuiltIn, Parser.ClassifyComment and Parser.ClassifyVariable) |
| Parser.GetPlaceholders | src/commands/template/parser.ts:13-51 | exactly one placeholder per match, in the order of the text, each the classification of that match's group |
| Parser.NoMarkerNoPlaceholder | src/commands/template/parser.ts:15-17 | the result is empty exactly when the text has no match |
| Parser.ClassifyBuiltIn | src/commands/template/parser.ts:25-33 | a group is a built-in exactly when its trimmed text starts with `__`; its key is the trimmed text after the `__`, not trimmed again, and it has no default |
| Parser.ClassifyComment | src/commands/template/parser.ts:25-41 | a group is a comment exactly when its trimmed text starts with `!` and not with `__`; its key is the trimmed text after the `!`, not trimmed again (so `{{! note}}` has the key ` note`), and it has no default |
| Parser.ClassifyVariable | src/commands/template/parser.ts:44-49 | any other group is a variable; its key is the trimmed text before the first `=`; its default is the trimmed text between the first and the second `=`, or the empty string when there is no `=` |
| Parser.DefaultOnlyForVariables | src/commands/template/parser.ts:29-49 | a placeholder has a default exactly when it is a variable |
| Parser.VariableKeyAndDefaultShape | src/commands/template/parser.ts:44-48 | a variable's key and default hold no `=` and have no surrounding whitespace |
| Parser.NameIsVariable | src/commands/template/parser.ts:44-49 | a trimmed group with no `=` and no `__` or `!` prefix is the variable of that name, with the empty default |
| Parser.NameMarker | src/commands/template/parser.ts:13-51 | `{{w}}` for such a name is the one variable `w`, with the empty default |
| Parser.PlainVariable | src/commands/template/parser.ts:13-51 | `{{foo}}` is the variable `foo` with default `""` |
| Parser.ClassifyKeyDefault | src/commands/template/parser.ts:44-49 | `k=d`, for a trimmed key and default without `=`, is the variable `k` with default `d` |
| Parser.VariableWithDefault | src/commands/template/parser.ts:13-51 | `{{k=d}}` is the one variable `k` with default `d` |
| Parser.VariableFooBar | src/commands/template/parser.ts:13-51 | `{{foo=bar}}` is the variable `foo` with default `bar` |
| Parser.DefaultStopsAtSecondEquals | src/commands/template/parser.ts:44-48 | `k=d=rest` is the variable `k` with default `d`: the text after the second `=` is dropped |
| Parser.SecondEqualsExample | src/commands/template/parser.ts:44-48 | `{{a=b=c}}` is the variable `a` with default `b` |
| Parser.ClassifyBuiltInName | src/commands/template/parser.ts:28-33 | `__name`, when it does not end in whitespace, is the built-in `name` with no default |
| Parser.BuiltInMarker | src/commands/template/parser.ts:13-33 | `{{__name}}` is the one built-in `name` |
| Parser.BuiltInUuid | src/commands/template/parser.ts:13-33 | `{{__uuid}}` is the built-in `uuid` |
| Parser.BuiltInBeforeComment | src/commands/template/parser.ts:28-41 | `{{__!x}}` is the built-in `!x`, because the `__` test comes before the `!` test |
| Parser.BuiltInKeyNotRetrimmed | src/commands/template/parser.ts:31 | `{{__ x}}` is the built-in ` x`: the key is not trimmed after the prefix is cut |
| Parser.ClassifyCommentText | src/commands/template/parser.ts:36-41 | `!text`, when it does not end in whitespace, is the comment `text` with no default |
| Parser.CommentMarker | src/commands/template/parser.ts:13-41 | `{{!text}}` is the one comment `text` |
| Parser.CommentNote | src/commands/template/parser.ts:13-41 | `{{!note}}` is the comment `note` |
| Parser.ClassifyIgnoresPadding | src/commands/template/parser.ts:25 | the classification of a group is that of its trimmed text |
| Parser.PaddedName | src/commands/template/parser.ts:25-49 | a name padded with whitespace inside the braces is still the variable of that bare name |
| Parser.PaddedVariable | src/commands/template/parser.ts:25-49 | `{{ name }}` is the variable `name` |
| Parser.TwoMarkersInOrder | src/commands/template/parser.ts:15-24 | two adjacent markers give their two placeholders, in text order |
| Parser.DuplicatesKept | src/commands/template/parser.ts:19-24 | `{{a}}{{a}}` gives the variable `a` twice, because nothing removes duplicates (the `seen` map is never used) |
| Processor.ReplacePlaceholders | src/commands/template/processor.ts:3-26 | the scan's matches each replaced by the Replacement of its group, and the text between them copied (Processor.OnlyMarkersChange) |
| Processor.ReplacePlaceholdersDefault | src/commands/template/processor.ts:6 | the processor called without a registry, using the shipped one (Processor.YearBuiltIn) |
| Processor.Decide | src/commands/template/processor.ts:9-22 | the callback's branch: a built-in named by the raw group with its first `__` removed, a comment, or a variable named by the raw group before its first `=` (Processor.KindsAgree, Processor.BuiltInNameIsUntrimmedKey, Processor.VariableNameTrimsToKey) |
| Processor.Replacement | src/commands/template/processor.ts:9-24 | the callback's result: the registry's text or `""`, `""` for a comment, the supplied value or `""` (Processor.RenderBuiltIn, Processor.RenderComment, Processor.RenderName) |
| Processor.DefaultBuiltIns | src/commands/template/processor.ts:6 | the shipped registry has exactly the names `year` and `uuid`, holding the texts given for them |
| Processor.NoMatchUnchanged | src/commands/template/processor.ts:8 | a text with no match comes back unchanged, whatever the values and the registry |
| Processor.MarkerFreeOutputIsStable | src/commands/template/processor.ts:8 | an output that has no match is unchanged when processed again, with any values and any registry |
| Processor.OnlyMarkersChange | src/commands/template/processor.ts:8 | the output is the text with one replacement spliced in per match; splicing the markers' own texts instead gives the input back |
| Processor.OneMarker | src/commands/template/processor.ts:8-25 | a text that is one marker between two stretches without `{` becomes the first stretch, the marker's replacement and the second stretch |
| Processor.MarkerAlone | src/commands/template/processor.ts:8-25 | a text that is exactly one marker becomes that marker's replacement |
| Processor.KindsAgree | src/commands/template/processor.ts:9-24 | the callback takes the built-in, comment or variable branch exactly when the parser classifies the group as a built-in, a comment or a variable |
| Processor.FirstUnderscoresAfterLeadingWs | src/commands/template/processor.ts:9-11 | when the trimmed group starts with `__`, the first `__` of the raw group is the one just after its leading whitespace |
| Processor.BuiltInNameIsUntrimmedKey | src/commands/template/processor.ts:9-11 | the built-in name looked up is the parser's key with the group's leading and trailing whitespace put back |
| Processor.RemoveUnderscores | src/commands/template/processor.ts:11 | removing the first `__` of such a group keeps the whitespace around its trimmed text |
| Processor.VariableNameTrimsToKey | src/commands/template/processor.ts:22 | the variable name looked up, once trimmed, is the parser's key |
| Processor.PaddedNameKeysDiffer | src/commands/template/processor.ts:22 | for a padded name, the parser's key is the bare name while the processor looks up the padded group |
| Processor.PaddedGroupKeysDiffer | src/commands/template/processor.ts:22 | for ` name `, the parser's key is `name` and the processor looks up ` name ` |
| Processor.DecidePlainName | src/commands/template/processor.ts:21-22 | a trimmed group with no `=` and no prefix is looked up by itself |
| Processor.DecideBuiltIn | src/commands/template/processor.ts:9-11 | `__name`, when it does not end in whitespace, calls the built-in `name` |
| Processor.DecideComment | src/commands/template/processor.ts:16-19 | `!text`, when it does not end in whitespace, is dropped |
| Processor.RenderName | src/commands/template/processor.ts:21-24 | a plain name marker becomes the value supplied for that name, or the empty string when none is supplied |
| Processor.RenderBuiltIn | src/commands/template/processor.ts:9-14 | `{{__name}}` becomes the registry's text for `name`, or the empty string when the registry has no such name |
| Processor.RenderComment | src/commands/template/processor.ts:16-19 | a comment marker is removed with its braces, and only the surrounding text stays |
| Processor.RenderUnanswered | src/commands/template/processor.ts:21-24 | a variable marker with no value supplied becomes the empty string; its default text is not used |
| Processor.HelloName | src/commands/template/processor.ts:3-26 | `Hi {{name}}!` with `name` set to `Ann` becomes `Hi Ann!` |
| Processor.CommentDropped | src/commands/template/processor.ts:16-19 | `{{!drop this}}kept` becomes `kept` |
| Processor.YearBuiltIn | src/commands/template/processor.ts:5-14 | with the shipped registry, `Year: {{__year}}` becomes `Year: ` followed by the year's text |
| Processor.DefaultNotApplied | src/commands/template/processor.ts:21-24 | `Hi {{name=World}}!` with no values becomes `Hi !` |
| Processor.AnswerNotRescanned | src/commands/template/processor.ts:8 | a value that is itself a marker, `{{x}}`, is inserted as it is and not scanned again |
| Processor.TightGroupAgrees | src/commands/template/processor.ts:9-24 | on a group with no whitespace around it, and none around a variable's name, the processor's replacement is the text for the parser's placeholder |
| Processor.TightTextAgrees | src/commands/template/processor.ts:3-26 | on a text whose groups are all tight, the processor as written and the by-key processor give the same output |
| Processor.FillIgnoresPadding | src/commands/template/TemplateCommand.ts:67-82 | the by-key text of a group does not change when the group is padded with whitespace |
| Processor.PaddedNameLosesAnswer | src/commands/template/processor.ts:22-24 | as written, a padded name answered under its bare name is replaced by the empty string; the by-key lookup gives the answer |
| Processor.PaddedBuiltInLost | src/commands/template/processor.ts:9-14 | as written, a padded built-in gets the empty string even though the registry has the name; the by-key lookup gives the registry's text |
| Processor.OneMarkerByKey | src/commands/template/TemplateCommand.ts:67-82 | under the by-key processor, one marker between stretches without `{` becomes the text for its placeholder |
| Processor.PaddedNameMarker | src/commands/template/processor.ts:22-24 | the marker of a padded name, answered under its bare name, renders as the empty string as written and as the answer by key |
| Processor.PaddedVariableExample | src/commands/template/processor.ts:22-24 | `{{ name }}` answered as `name` = `Ann` renders as the empty string as written and as `Ann` by key |
| Processor.PaddedBuiltInMarker | src/commands/template/processor.ts:9-14 | a padded built-in marker renders as the empty string as written and as the registry's text by key |
| Processor.PaddedYearExample | src/commands/template/processor.ts:9-14 | with the shipped registry, `{{ __year }}` renders as the empty string as written and as the year's text by key |
| Alias.ValidEntry | src/config/aliasService.ts:8-11 | the record shape the file is validated against: a command of at least one character, and a description of at least one character when there is one |
| Alias.AliasEntry | src/commands/alias/AliasCommand.ts:72 | the `{ command, description }` record an alias is stored as, with the description optional as in the schema of src/config/aliasService.ts |
| Alias.ValidTable | src/config/aliasService.ts:6-13 | every entry of the table has the validated record shape |
| Alias.Listed | src/commands/alias/AliasCommand.ts:99 | a name is in the listed set exactly when it is one of the names given |
| Alias.Removed | src/commands/alias/AliasCommand.ts:99-106 | the names left are the table's names minus the listed ones, and each entry left is as it was |
| Alias.PresentCount | src/commands/alias/AliasCommand.ts:97-106 | the number of distinct listed names in the table is at most the table's size |
| Alias.DeleteStep | src/commands/alias/AliasCommand.ts:99-106 | one more listed name removes that name too, and counts one more exactly when the table still holds it after the names before it |
| Alias.DeleteOne | src/commands/alias/AliasCommand.ts:100-105 | one loop iteration takes the table and count after the names before it to the table and count after one more name |
| Alias.RemovedSize | src/commands/alias/AliasCommand.ts:97-106 | deleting by name removes exactly as many entries as it counts |
| Alias.RepeatCountsOnce | src/commands/alias/AliasCommand.ts:100-105 | a name listed again is counted once and removes nothing more |
| Alias.RemovedKeepsOthers | src/commands/alias/AliasCommand.ts:99-106 | every listed name is gone; every name not listed that the table held is kept, with its entry unchanged |
| Alias.RemovedKeepsValid | src/commands/alias/AliasCommand.ts:104 | deleting keeps every entry in the validated shape |
| Alias.DeletedMessage | src/commands/alias/AliasCommand.ts:111 | `Deleted <n> alias`, then `es` when the count is not 1, then `.` (Alias.DeletedMessageShape) |
| Alias.DeletedMessageShape | src/commands/alias/AliasCommand.ts:111 | the message is singular (`alias.`) exactly when the count is 1, and its numeral reads back as the count |
| Alias.DeletedMessageExamples | src/commands/alias/AliasCommand.ts:111 | the messages for 1 and 0 are `Deleted 1 alias.` and `Deleted 0 aliases.` |
| Alias.DeleteRepeatedExample | src/commands/alias/AliasCommand.ts:97-106 | deleting `a a c` from a table of `a` and `b` leaves `b` and counts 1 |
| Alias.CreateKeepsValid | src/config/aliasService.ts:6-13 | adding an entry of the validated shape keeps the table valid |
| Alias.Merge | src/commands/alias/AliasCommand.ts:145 | `{ ...entry, ...answer }`: each field the answer carries replaces the entry's, and the others stay (Alias.MergeOverrides) |
| Alias.MergeOverrides | src/commands/alias/AliasCommand.ts:145 | an answer with no fields keeps the entry; an answer with both fields is the new entry |
| Alias.MergeIdempotent | src/commands/alias/AliasCommand.ts:145 | merging the same answer twice is merging it once |
| Alias.MergeDefaultsKeepsEntry | src/commands/alias/AliasCommand.ts:130-145 | answering the prompts with their defaults, the entry's own values, keeps the entry, with or without a description; an empty answer in place of a missing description is the case of the second Findings row |
| Alias.MergeKeepsValid | src/config/aliasService.ts:8-11 | a merge whose answered fields are not empty keeps a valid entry valid |
| Alias.EmptyDescriptionBreaksTable | src/commands/alias/AliasCommand.ts:141-146 | as written, editing an entry with no description and leaving the description empty makes the table invalid |
| Alias.MergeKeepingSchemaKeepsValid | src/config/aliasService.ts:8-11 | the corrected merge keeps every valid entry valid, and agrees with the merge when no answered field is empty |
| Alias.AliasStore.constructor | src/config/aliasService.ts:19-27 | the store holds the table as loaded |
| Alias.AliasStore.Create | src/commands/alias/AliasCommand.ts:63-79 | an existing name changes nothing and nothing is written; a new name is added with its command and description, every other entry is kept, and the table is written |
| Alias.AliasStore.Delete | src/commands/alias/AliasCommand.ts:81-119 | with `--all` the table becomes empty; with no names nothing changes and nothing is written; otherwise the table loses the listed names and the outcome counts the distinct listed names that were present, and the table is written even when that count is 0 |
| Alias.AliasStore.RemoveEach | src/commands/alias/AliasCommand.ts:97-106 | the loop leaves the table minus the listed names, and its count is the number of distinct listed names that were present |
| Alias.AliasStore.Edit | src/commands/alias/AliasCommand.ts:121-152 | an absent name changes nothing and nothing is written; a present entry becomes itself overridden by the answer's fields, every other entry is kept, and the table is written |

## Left out

- Reading and writing the aliases file and the template file, console
  output and colouring, and the `try`/`catch` error messages are not
  modelled. The methods return whether the command would write the table.
- `AliasCommand.list` and the `register` methods of the commands are not
  modelled. They only print and set up the command-line parser.
- The rest of `TemplateCommand.ts` is not modelled: file handling,
  overwrite confirmations, spawning the editor, and filtering down to
  variables. The prompt answers are the `variables` parameter. Prompts are
  de-duplicated by key inside the prompt library, which is not modelled.
- Processor.ReplacePlaceholders: the registry holds one text per built-in
  for the whole call. So every `{{__uuid}}` in one call gets the same text,
  while the shipped `uuid` function produces a fresh identifier at each
  call. The clock and the random generator are not modelled.
- Processor.ReplacePlaceholders: JavaScript objects also answer for
  inherited keys such as `constructor`. The model uses finite maps, so
  such a name counts as missing.
- Alias.AliasStore.Create: the code checks `aliases[name]` for truthiness
  on a plain object. The model takes it as "the name is in the table". An
  inherited key is left out: `alias create constructor x` would report
  that the alias already exists, while the model adds it.
- Alias.AliasStore.Delete: the same inherited-key lookup is left out:
  `alias delete toString` would count 1 and remove nothing, while the
  model counts 0.
- Alias.AliasStore.Edit: the same inherited-key lookup is left out:
  `alias edit toString` would prompt and store a merged entry, while the
  model refuses the absent name.
- Alias.ValidTable: the file's schema validation is modelled only as this
  predicate. The fallback to the default aliases when validation fails is
  not modelled.
- Alias.AliasStore.Edit: the prompts always return both fields as strings.
  The model allows an answer with any subset of the fields, which includes
  that case.
- Scanner.Scan: JavaScript strings are sequences of UTF-16 code units. The
  model works on `char`, so a character outside the Basic Multilingual
  Plane counts as one character here, not two. This changes no match,
  because `{` and `}` are single code units.
- `async`/`await`, `process.exit`, and the configuration files are not
  modelled.

## Findings

The operations themselves (`Processor.ReplacePlaceholders`, `Alias.AliasStore.Edit`) stay as the code writes them. The corrected definitions sit beside them, with lemmas that say where the two agree and an input where they differ.

| source | as written | input that shows it | evidently intended | confidence | as-written member | corrected member |
|---|---|---|---|---|---|---|
| src/commands/template/processor.ts:9-24 | the processor looks built-ins and variables up by the raw capture group, while the prompts collect answers under the parser's trimmed keys (src/commands/template/TemplateCommand.ts:73-82) | `{{ name }}` answered with `name` = `Ann` renders as the empty string; `{{ __year }}` renders as the empty string | each marker is replaced by the value for the key the parser reports for it | not executed | Processor.PaddedNameLosesAnswer, Processor.PaddedVariableExample, Processor.PaddedYearExample | Processor.ReplacePlaceholdersByKey, with Processor.TightTextAgrees and Processor.FillIgnoresPadding |
| src/commands/alias/AliasCommand.ts:141-146 | `alias edit` merges the prompt answers as they are, so an entry with no description whose description prompt is left empty gets the description `""`, which the schema refuses (src/config/aliasService.ts:10). That the input prompt returns `""` for an empty answer whose default is `undefined` is the prompt library's behaviour, not something the source shows | edit an alias stored without a description and press enter at the description prompt | an empty answer keeps the entry's field, so the written table stays valid | not executed | Alias.EmptyDescriptionBreaksTable | Alias.MergeKeepingSchemaKeepsValid, on Alias.MergeKeepingSchema |
