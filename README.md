# vscode-snippets-gen, modelled in Dafny

vscode-snippets-gen is a small web tool. The user fills in a form with a
snippet's name, trigger words (prefix), scopes, body and description, and the
tool shows the matching entry of a VSCode snippet file. This project models
and verifies the logic behind that:

- **Strings** (`strings.dfy`): the string primitives the source relies on:
  `split` at a character, `join` with a character, occurrence counting, and
  ECMAScript's `String.prototype.trim` (sections 12.2 and 12.3 of ECMA-262:
  white space and line terminators). `wrappers.dfy` holds the `Option`
  datatype, which stands for JavaScript's `undefined`.
- **ScopeOptions** (`scope_options.dfy`): one entry of the scope-option table.
  It holds a VSCode scope identifier and an optional Monaco language code.
  Also here are `monacoCode ?? value` and `find` by value.
- **SnippetForm** (`snippet_form.dfy`): the record the form edits, its
  single-field update, the prefix normaliser and the editor's `onChange`.
  The editor-language effect is a class, `EditorLanguage`, whose `language`
  field the effect overwrites. When no option matches, the field keeps its
  value.
- **DataTransform** (`data_transform.dfy`): `snippetData2vscodeJson` of
  `src/lib/data-transform.ts`. The body's line split is a left-to-right
  scanner that treats `\r\n` as one separator. It is proved equal to a plain
  split at `\n` of an independent reference, `NormalizeNewlines`, which
  rewrites `\r\n` and `\r` to `\n`.
- **SnippetResult** (`snippet_result.dfy`): the preview component's own
  transform. It keeps the scope list as a list and splits the body at `\n`
  only. The file proves exactly where it differs from the lib transform.
- **TextareaInsert** (`textarea_insert.dfy`): `insertTextAtCursor` as a
  method of a `TextareaHook` class whose fields are the textarea's value and
  selection plus the calls made to `setText`. The splice and the caret index
  are the functions that specify it.
- **Monaco** (`monaco.dfy`): `setSuggestions`, modelled as a loop with a
  registered-language set and a log of `registerCompletionItemProvider`
  calls. Its specification is `FirstOccurrences` of the eligible languages.
  The file also states the replacement range and the fixed suggestion list of
  the completion provider.

The output object `{ [name]: {...} }` is a `map` with a single key. The
declared `prefix: string | string[]` is the datatype
`Prefix = Single(text) | Multiple(items)`.

## Model

| member | source | states |
|---|---|---|
| Strings.Join | src/lib/data-transform.ts:8 | joining no parts gives the empty string, and a join starts with its first part |
| Strings.JoinEndsWithLast | src/lib/data-transform.ts:8 | a join ends with its last part |
| Strings.Split | src/components/snippet-result.tsx:13 | `split` at one character, as here and in the prefix input's `split(',')`: one part more than there are separators, and no part contains the separator |
| Strings.SplitJoin | src/lib/data-transform.ts:8 | joining parts that contain no separator and splitting again gives the same parts back |
| Strings.JoinSplit | src/components/snippet-result.tsx:13 | splitting at a character and joining with it gives the original string back |
| Strings.CountJoin | src/lib/data-transform.ts:8 | the join of n separator-free parts holds exactly n - 1 separators |
| Strings.JoinEmptyAmbiguous | src/lib/data-transform.ts:8 | joining no scopes and joining one empty scope give the same string |
| Strings.Trim | src/components/snippet-form.tsx:58 | the trimmed string neither starts nor ends with white space |
| Strings.TrimIsSlice | src/components/snippet-form.tsx:58 | the trimmed string is a contiguous slice of the input, starting where the leading white space ends |
| Strings.TrimDropsWhiteSpace | src/components/snippet-form.tsx:58 | everything removed in front of or behind the result is white space |
| Strings.TrimKeepsCharacters | src/components/snippet-form.tsx:58 | every character of the trimmed string occurs in the input |
| Strings.TrimPadded | src/components/snippet-form.tsx:58 | white space around a trimmed string is removed, and white space alone trims to the empty string |
| Strings.TrimTrimmed | src/components/snippet-form.tsx:58 | trimming a string that is already trimmed changes nothing |
| ScopeOptions.LanguageId | src/components/snippet-form.tsx:41 | the language is `monacoCode` when present, even an empty one, and `value` otherwise |
| ScopeOptions.FindByValue | src/components/snippet-form.tsx:39 | gives the index of the first option with the value, or None exactly when no option has it |
| SnippetForm.HandleInputChange | src/components/snippet-form.tsx:21-29 | the new record equals the old one in every field but the updated one, which holds the new value |
| SnippetForm.UpdatesCommute | src/components/snippet-form.tsx:21-29 | updates of two different fields can be applied in either order |
| SnippetForm.LastUpdateWins | src/components/snippet-form.tsx:21-29 | a second update of the same field overwrites the first |
| SnippetForm.UpdateWithSameValue | src/components/snippet-form.tsx:21-29 | setting a field to the value it has already leaves the record unchanged |
| SnippetForm.OnBodyChange | src/components/snippet-form.tsx:83 | an undefined editor value stores the empty body; any other value is stored as it is |
| SnippetForm.TrimAll | src/components/snippet-form.tsx:58 | same length as the input, with every piece trimmed |
| SnippetForm.NormalizePrefix | src/components/snippet-form.tsx:54-62 | input without a comma is stored verbatim as one string; input with a comma becomes a list with one item more than there are commas, each item the trimmed piece, comma-free and trimmed |
| SnippetForm.OnPrefixInput | src/components/snippet-form.tsx:54-62 | the prefix input changes only the prefix, to the normalised value |
| SnippetForm.NormalizePrefixRoundTrip | src/components/snippet-form.tsx:55-58 | when no piece has surrounding white space, joining the items with commas gives the input back |
| SnippetForm.NormalizeJoinedPieces | src/components/snippet-form.tsx:55-58 | comma-joined pieces normalise to the list of their trimmed forms, in order |
| SnippetForm.NormalizePaddedWords | src/__tests__/components/snippet-form.test.tsx:96-110 | three trimmed words padded with spaces and joined by commas normalise to the three words |
| SnippetForm.NormalizePrefixExample | src/__tests__/components/snippet-form.test.tsx:96-110 | `" prefix1 ,  prefix2  , prefix3 "` is stored as `["prefix1", "prefix2", "prefix3"]` |
| SnippetForm.NextLanguage | src/components/snippet-form.tsx:32-43 | an empty scope gives `plaintext`; otherwise the result is the previous language or the language of an option whose value is `scope[0]` |
| SnippetForm.EmptyScopeIsPlaintext | src/components/snippet-form.tsx:33-37 | an empty scope selects `plaintext`, whatever the previous language |
| SnippetForm.FirstMatchDecides | src/components/snippet-form.tsx:39-41 | with a scope, the first option whose value is `scope[0]` gives the language |
| SnippetForm.NoMatchKeepsLanguage | src/components/snippet-form.tsx:39-42 | when no option matches `scope[0]`, the language stays what it was |
| SnippetForm.OnlyFirstScopeMatters | src/components/snippet-form.tsx:39 | only `scope[0]` influences the language |
| SnippetForm.EditorLanguage.constructor | src/components/snippet-form.tsx:30 | the editor language starts as `plaintext` |
| SnippetForm.EditorLanguage.OnScopeChange | src/components/snippet-form.tsx:32-43 | the effect leaves the language at `NextLanguage` of the previous language, the scope and the table |
| DataTransform.SplitLines | src/lib/data-transform.ts:9 | at least one line, and no line contains `\n` or `\r` |
| DataTransform.NormalizeNewlines | src/lib/data-transform.ts:9 | the normalised text contains no `\r` |
| DataTransform.NormalizeWithoutCarriageReturn | src/lib/data-transform.ts:9 | a text without `\r` is its own normal form |
| DataTransform.SplitLinesIsSplitOfNormalized | src/lib/data-transform.ts:9 | the line split equals splitting the normalised text at `\n` |
| DataTransform.LineCount | src/lib/data-transform.ts:9 | one line more than there are separators, counting `\r\n` once |
| DataTransform.JoinLines | src/lib/data-transform.ts:9 | joining the lines with `\n` gives the body with every `\r\n` and lone `\r` replaced by `\n` |
| DataTransform.SplitLinesWithoutCarriageReturn | src/lib/data-transform.ts:9 | a body without `\r` is split exactly at its `\n`s |
| DataTransform.SplitLinesOfJoin | src/lib/data-transform.ts:9 | splitting lines joined with `\n` gives the same lines back |
| DataTransform.DescriptionOrName | src/lib/data-transform.ts:10 | a non-empty description is kept as it is, and the empty one falls back to the name |
| DataTransform.SnippetData2VscodeJson | src/lib/data-transform.ts:3-13 | the output has exactly one key, the snippet's name, which may be empty |
| DataTransform.PrefixPassesThrough | src/lib/data-transform.ts:7 | the prefix is passed through in the shape it has: string or list |
| DataTransform.ScopeIsCommaJoined | src/lib/data-transform.ts:8 | an empty scope gives `""`; comma-free scopes join so that splitting at commas gives them back in order, duplicates kept |
| DataTransform.BodyIsLineSplit | src/lib/data-transform.ts:9 | the body is lines without line breaks, one more than there are separators, and they join back to the normalised text |
| DataTransform.DescriptionFallsBack | src/lib/data-transform.ts:10 | the description is the input when non-empty, otherwise the name |
| DataTransform.EmptyFormTransform | src/__tests__/lib/data-transform.test.ts:79-91 | the all-empty form gives `{"": {prefix: "", scope: "", body: [""], description: ""}}` |
| DataTransform.LineEndingExamples | src/__tests__/lib/data-transform.test.ts:93-106 | `\n`, `\r\n` and `\r` between two lines each split into the two lines |
| DataTransform.TwoLines | src/lib/data-transform.ts:9 | any of the three separators between two lines gives exactly those two lines |
| DataTransform.EmptyLineKept | src/__tests__/lib/data-transform.test.ts:93-106 | `"line1\n\nline2"` gives `["line1", "", "line2"]` |
| DataTransform.BlankLinesKept | src/__tests__/lib/data-transform.test.ts:135-139 | lines of spaces alone are kept as they are |
| SnippetResult.PreviewJson | src/components/snippet-result.tsx:7-17 | the preview has exactly one key, the snippet's name |
| SnippetResult.PreviewFields | src/components/snippet-result.tsx:10-14 | prefix and scope list pass through unchanged, and the description falls back to the name |
| SnippetResult.PreviewBody | src/components/snippet-result.tsx:13 | one line more than there are `\n`s, no line contains `\n`, and the lines join back to the exact body, `\r` included |
| SnippetResult.CarriageReturnSurvives | src/components/snippet-result.tsx:13 | `"a\r\nb"` previews as `["a\r", "b"]` |
| SnippetResult.ScopeDiffers | src/components/snippet-result.tsx:12 | the lib transform's scope is the comma join of the preview's scope list |
| SnippetResult.BodiesAgreeIffNoCarriageReturn | src/components/snippet-result.tsx:13 | the two transforms give the same body exactly when the body has no `\r`; prefix and description always agree |
| TextareaInsert.Splice | src/hooks/use-textarea-insert.ts:11-15 | the new value is as long as the old one, minus the selection, plus the text; its prefix before `start` and its tail after the text are unchanged, and the text sits in between |
| TextareaInsert.CaretAfter | src/hooks/use-textarea-insert.ts:12 | the caret lies as many characters past the selection start as the text has |
| TextareaInsert.CaretAfterInsertedText | src/hooks/use-textarea-insert.ts:12-15 | the caret lies inside the new value, and the slice from the start to the caret is the inserted text |
| TextareaInsert.EmptySelectionInserts | src/hooks/use-textarea-insert.ts:13-15 | with an empty selection the text is inserted and every character is kept |
| TextareaInsert.EmptyTextDeletes | src/hooks/use-textarea-insert.ts:13-15 | an empty text deletes the selection |
| TextareaInsert.SpliceUndo | src/hooks/use-textarea-insert.ts:13-15 | putting the replaced text back over the inserted text restores the value |
| TextareaInsert.TextareaHook.InsertTextAtCursor | src/hooks/use-textarea-insert.ts:7-22 | detached, nothing changes and `setText` is not called; attached, `setText` receives the splice once, and the selection collapses to just after the text |
| Monaco.IsSkipped | src/lib/monaco.ts:51 | only options whose language is `plaintext` are filtered out |
| Monaco.EligibleLanguages | src/lib/monaco.ts:50-53 | the filter never yields more languages than there are options |
| Monaco.NothingSkipped | src/lib/monaco.ts:50-53 | without `plaintext`-coded options, the eligible languages are the table's `monacoCode ?? value`, index for index |
| Monaco.EligibleLanguagesMembers | src/lib/monaco.ts:50-53 | a language is eligible exactly when some option that is not `plaintext`-coded has it |
| Monaco.FirstOccurrencesMembers | src/lib/monaco.ts:54-55 | exactly the unseen ids occur among the first occurrences |
| Monaco.FirstOccurrencesDistinct | src/lib/monaco.ts:49-55 | the first occurrences contain no language twice |
| Monaco.FirstOccurrencesOrdered | src/lib/monaco.ts:50-56 | the first occurrences appear in the order of their first occurrence in the input |
| Monaco.RegistrationOrderProperties | src/lib/monaco.ts:48-56 | registered languages are distinct, are exactly the languages of the options not coded `plaintext`, and appear in first-occurrence order |
| Monaco.PassStep | src/lib/monaco.ts:50-54 | passing over a filtered option or an already registered language leaves the set and the log consistent with the specification |
| Monaco.RegisterStep | src/lib/monaco.ts:53-58 | registering a new language adds it to the set and the log, which stay consistent with the specification |
| Monaco.SetSuggestions | src/lib/monaco.ts:48-58 | the registration log lists the first occurrences of the eligible languages in table order, each with trigger characters `["$"]` |
| Monaco.ReplacementRange | src/lib/monaco.ts:61-66 | the range lies on the position's line, from one column before the word to its end |
| Monaco.Suggestions | src/lib/monaco.ts:68-181 | sixteen suggestions over the range, each inserting its own label |
| Monaco.ProvideCompletionItems | src/lib/monaco.ts:59-183 | a provider returns sixteen suggestions, all over the position's replacement range |
| Monaco.ProvidersOfferSameList | src/lib/monaco.ts:68-183 | every provider returns the same list whatever the position: each suggestion's label, kind, inserted text and detail are fixed |
| Monaco.SuggestionKinds | src/lib/monaco.ts:68-181 | the first five suggestions are snippet forms and the other eleven are variables |
| Monaco.SuggestionLabelsDistinct | src/lib/monaco.ts:68-181 | no two suggestions share a label |

## Left out

- `JSON.stringify(formattedData, null, 2)` in the preview, a library serialiser: the model stops at the structured value.
- The clipboard copy, its "copied" timer and the brace-stripped copy fragment. These are asynchronous browser APIs, and the preview component they belong to is a different version from the one modelled.
- React rendering, the scheduling of `useState` and `useEffect`, the antd widgets, the Monaco editor widget and the App layout: these are UI frameworks. The effect body is modelled as the method called when `data.scope` changes.
- `handleEditWillMount`, `handleEditorDidMount`, `setDiagnosticsOptions` and `setCompilerOptions` of `src/lib/monaco.ts`: these are calls into the editor's configuration with no logic of their own.
- `setTimeout`, `setSelectionRange` and `focus` in `insertTextAtCursor`: DOM side effects. The model records the caret index they would set as the collapsed selection, and takes the textarea as controlled, so its value becomes the text passed to `setText`.
- The contents of the scope-option table: `src/data/scope-options.ts` is not part of this model, so every operation takes the table as a parameter.
- `registerCompletionItemProvider` is modelled as appending a registration to a log. The `model` and `position` arguments of the provider are modelled as the values `Position` and `WordAtPosition`.
- The `App` component's initial `scope: ''`, which contradicts the declared `string[]`: the declared type is modelled.
- SnippetForm.HandleInputChange: TypeScript accepts both `string` and `string[]` for any field, but the model takes each field's value in its declared type, as every call site passes it.
- UTF-16 code units: strings are sequences of characters, whereas JavaScript's `length`, `slice`, selection indices, `split` and `trim` work on UTF-16 code units. A character outside the Basic Multilingual Plane counts as one here and as two there, which affects the caret index and the slice bounds in `insertTextAtCursor` and every length in the model.
- Strings.Trim: the white-space set is the fixed ECMAScript list rather than a parameter.
- Test mocks, test setup, `vite.config.ts` and `scripts/test-ci.js`: tooling.
- Monaco.SetSuggestions: its own contract states only that the log equals the specification `FirstOccurrences(EligibleLanguages(options), {})` and that each entry has the trigger characters. Distinctness, completeness and order are proved about that specification in `Monaco.RegistrationOrderProperties`.
