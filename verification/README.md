# clsx attribute rewriter, modelled in Dafny

The `extension.clsx` editor command turns a string attribute such as `class="a b c"` or
`className="a b c"` on the cursor's line into `className={clsx('a b c')}`. It calls the
configured import alias instead of `clsx` and inserts `import <alias> from 'clsx';` as
the document's second line when the document has no such import. The command runs four
steps and stops at the first one that throws:

1. **Applicability** (`Clsx.CheckConditions`): an editor must be open, and its document
   must be `typescriptreact` or `javascriptreact`.
2. **Locate** (`Clsx.GetPropPosition`): take the leftmost match of
   `class(name)?="([^"]+)"` (case-insensitive) on the cursor's line and find it again
   with `indexOf`. The cursor column must lie in the closed interval `[start, end]`.
3. **Compute** (`Clsx.GetNewClassNameProp`): take the field between the first and
   second `"` of the attribute text and build `className={<alias>('<value>')}`.
4. **Import decision** (`Clsx.ImportInsertion`): if the document has no match of
   `import \w+ from ['"]clsx['"](;)?` (case-insensitive), insert
   `import <alias> from 'clsx';\n` at line 1, column 0.

`Clsx.Command` combines the steps. It returns the edit transaction (one replacement and
at most one insertion) together with the error notifications the user sees. The host's
state is an explicit `Option<Editor>`: `None` means no editor is open. An `Editor`
holds the language id, the selection start, the text of that line and the whole
document text. The alias is a plain string parameter.

Neither regex is modelled with a general engine. Each has two hand-written parts:

- a language predicate (`ClassProp.IsClassProp`, `ImportDecl.IsImport`) that says
  which strings the pattern matches as a whole;
- a deterministic matcher (`ClassProp.MatchAt`, `ImportDecl.ImportMatchAt`) that is
  proved equal to the predicate.

For these two patterns the greedy `[^"]+` and `\w+` never need to backtrack. The `i`
flag is modelled by ASCII case folding (`Text.Fold`). This is exact for all-ASCII
patterns: without the `u` flag, JavaScript never folds a non-ASCII character onto an
ASCII one.

Files:

- `results.dfy`: `Option` and `Result`. A `Result` error carries the thrown message and
  any notifications already shown.
- `text.dfy`: case folding, greedy runs, `indexOf`, and `split`/join.
- `class_prop.dfy`: the attribute pattern and leftmost-match search.
- `import_decl.dfy`: the import pattern and the whole-document test.
- `clsx.dfy`: the four steps and the command.
- `clsx_lemmas.dfy`: properties of the whole command.
- `clsx_examples.dfy`: concrete invocations.

`[^"]+` needs at least one character, so `class=""` never matches and the command
stops with "could not find className prop" (`ClsxExamples.EmptyValueIsNotFound`). The
"could not parse class prop" branch is unreachable from the command
(`ClsxLemmas.CommandEditsIff`).

## Model

| member | source | states |
|---|---|---|
| Text.NonQuoteRun | src/extension.ts:14 | The greedy `[^"]+` run from an offset: every character in it is not `"`, and it stops only at a `"` or at the end of the line |
| Text.WordRun | src/extension.ts:15 | The greedy `\w+` run from an offset: every character in it is a word character, and it stops only at a non-word character or at the end |
| Text.IndexOf | src/extension.ts:58 | `indexOf` returns an offset where the pattern occurs and no earlier occurrence exists, or -1 exactly when it occurs nowhere |
| Text.IndexFrom | src/extension.ts:58 | The first occurrence at or after a start offset, with no occurrence between the start and the result |
| Text.Split | src/extension.ts:70 | `split('"')` gives at least one field, and no field contains the separator. Joining the fields with the separator gives back the input |
| Text.SplitAtFirst | src/extension.ts:70 | The text before the first separator is field 0, and the rest is split on its own |
| Text.SplitNoSeparator | src/extension.ts:70 | A string without the separator splits into itself alone |
| ClassProp.MatchAtIff | src/extension.ts:14 | The matcher at an offset returns length `n` exactly when the `n` characters there match the attribute pattern in full. So at most one length matches at each offset |
| ClassProp.FindFromSpec | src/extension.ts:53 | Scanning from an offset gives the first offset with a match, and no offset between the start and it has one |
| ClassProp.FindFirst | src/extension.ts:53-56 | `match` finds nothing exactly when no substring of the line matches. Otherwise it returns a matching slice, nothing matches further left, and the length at that start is unique |
| ClassProp.FindFirstIs | src/extension.ts:53 | A match at `m.start` with none before it is the match that `match` returns |
| ClassProp.FirstOccurrenceIsMatchStart | src/extension.ts:53-58 | `indexOf` of the matched text returns the match's own start, because any earlier copy would be an earlier match |
| ClassProp.CaptureIsSecondField | src/extension.ts:69-70 | For a matched attribute, `split('"')[1]` equals capture group 2, which is non-empty |
| ImportDecl.ImportMatchAtSound | src/extension.ts:15 | Wherever the import matcher reports a match, the text from its start through the greedy word and the closing quote is a complete `import <word> from '<clsx>'` |
| ImportDecl.ImportMatchAtReports | src/extension.ts:15 | The text the import matcher reports, including its optional `;`, is an occurrence of the full import pattern |
| ImportDecl.ImportMatchAtComplete | src/extension.ts:15 | Every complete import is found by the matcher at its start, with either its own length or one more for a following `;` |
| ImportDecl.HasImportFrom | src/extension.ts:91 | The scan reports true exactly when some offset at or after the start has an import match |
| ImportDecl.NeedsImport | src/extension.ts:90-92 | An import is needed exactly when no substring of the document is an import of `clsx` |
| ImportDecl.SemicolonIsIrrelevant | src/extension.ts:15 | The optional `(;)` group never changes whether the pattern occurs in a text |
| Clsx.CheckConditions | src/extension.ts:35-48 | Only an open editor with language `typescriptreact` or `javascriptreact` passes. A missing editor fails without a prior notice. A wrong language fails after one direct notification |
| Clsx.GetPropPosition | src/extension.ts:50-66 | Fails with "could not find className prop" exactly when no substring of the line matches. Fails with "this is not a clsx prop" exactly when the cursor is left of the leftmost match or past its end. Otherwise returns a range on the cursor's line that is the leftmost match, with the cursor inside, both ends included |
| Clsx.GetNewClassNameProp | src/extension.ts:68-80 | Fails only with "could not parse class prop". On success, the result is a call of the alias on a non-empty value that contains no quote |
| Clsx.ImportInsertion | src/extension.ts:94-103 | An insertion is produced exactly when the document contains no import of `clsx`. It is the import line for the alias, at line 1, column 0 |
| Clsx.Plan | src/extension.ts:19-26 | The steps run in order and the first failure ends the command: an applicability failure is passed on unchanged, a locating failure is passed on with no prior notice, and a success carries the located range and the import decision |
| Clsx.Command | src/extension.ts:18-30 | An edit is applied exactly when every step succeeds, and then nothing is notified. A failure shows a last notification of `Error: ` followed by the message |
| ClsxLemmas.LocatedPropParses | src/extension.ts:68-73 | Every attribute the locate step can return parses. The value placed in the call is the pattern's capture, and it is never empty |
| ClsxLemmas.NewPropIsSecondQuoteField | src/extension.ts:69-79 | For any text with a quote, the compute step fails exactly when the field after the first quote is empty. Otherwise it copies that field verbatim into `className={alias('…')}` |
| ClsxLemmas.NewPropWithoutQuote | src/extension.ts:70-73 | Text without any quote fails with "could not parse class prop" |
| ClsxLemmas.OnlyReactDocumentsAreEdited | src/extension.ts:19-29 | No edit happens unless the language is TSX or JSX. The no-editor and wrong-language failures show exactly their notifications |
| ClsxLemmas.CommandLocateFailures | src/extension.ts:50-66 | In a TSX or JSX document, no match on the line ends the command with exactly `Error: could not find className prop`, and a cursor outside the leftmost match ends it with exactly `Error: this is not a clsx prop` |
| ClsxLemmas.CommandEditsIff | src/extension.ts:19-26 | The command edits exactly when the language is accepted, the line has a match, and the cursor lies in the closed interval of the leftmost match. "could not parse class prop" never occurs |
| ClsxLemmas.CommandEdit | src/extension.ts:19-26 | In a TSX or JSX document the command makes exactly the edit read off the pattern (`ClsxLemmas.ExpectedEdit`): when the cursor lies in the closed interval of the leftmost match on its line, that match is replaced by the alias call on its capture, with the document's import decision; otherwise no edit. In any other case there is no edit |
| ClsxLemmas.LocatedEdit | src/extension.ts:19-26 | For a cursor inside the leftmost match of an accepted document, the plan replaces exactly that match's columns by the alias call on its capture and carries the import decision |
| ClsxLemmas.CommandInsertsImportIff | src/extension.ts:94-102 | A successful edit inserts the import line at line 1, column 0 exactly when the document has no import of `clsx` |
| ClsxLemmas.ReplacementKeepsRestOfLine | src/extension.ts:24 | Replacing the range changes only its columns. Text before it is kept in place, and text after it is kept, shifted by the change in length |
| ClsxLemmas.ReplacementCanBeUndone | src/extension.ts:24 | Putting the old text back over the new text restores the original line |
| ClsxLemmas.InsertedImportIsRecognised | src/extension.ts:94-102 | For an alias of one or more ASCII word characters, any document containing the inserted import line needs no further import |
| ClsxExamples.ConvertsClassAttribute | src/extension.ts:18-30 | `<p class="a b c">` becomes `<p className={clsx('a b c')}>`, and `import clsx from 'clsx';` is inserted at line 1 |
| ClsxExamples.CursorBoundaries | src/extension.ts:57-62 | On that line, cursor columns 3 to 16 are accepted, both ends included. Every other column fails with "this is not a clsx prop" |
| ClsxExamples.EmptyValueIsNotFound | src/extension.ts:53-56 | `class=""` fails with "could not find className prop" |
| ClsxExamples.SecondRunFindsNothing | src/extension.ts:53-56 | A second run on the converted line fails with "could not find className prop", so the command is not idempotent |
| ClsxExamples.UpperCaseKeywordMatch | src/extension.ts:14 | `CLASSNAME="x"` matches, and its capture is `x` |
| ClsxExamples.UpperCaseImportIsRecognised | src/extension.ts:15 | A document whose first line is `IMPORT cx FROM "CLSX"` counts as having an import, whatever follows |
| ClsxExamples.ConvertsWithExistingImport | src/extension.ts:90-102 | With alias `cx` and an existing import, the replacement is `className={cx('x')}` and nothing is inserted |

## Left out

- Command registration, `activate` and `context.subscriptions`: host plumbing. Notifications appear only as the list of messages in `Clsx.Outcome`.
- `getActiveEditor`, `getDocument`, `getSelection`, `getCurrentLineNumber` and `getCurrentLineText`: replaced by the fields of `Clsx.Editor`. The cursor is the selection's start. `lineText` is assumed to be the text of the cursor's line.
- `document.getText(range)`: modelled as the slice of the cursor's line, `Clsx.GetText`. The located range always lies within that line.
- `workspace.getConfiguration('clsx').get('importAlias')`: the alias is a given string. An undefined alias, which the template would render as `undefined`, is not modelled.
- Applying the transaction with `editor.edit`: its atomicity, the host's coordinate mapping between the replacement and the insertion, and the unobserved promise it returns. Only the replacement's effect on the line is modelled (`Clsx.ApplyToLine`).
- Documents with fewer than two lines: there, inserting at line 1, column 0 is up to the host.
- General JavaScript regex semantics: only the two fixed patterns are matched, by hand.
- UTF-16 code units: strings are sequences of Dafny characters. Columns therefore differ from the host's for characters outside the Basic Multilingual Plane.
- The `!propString` check of an empty match string: every match has at least nine characters, so that check fails only when there is no match, and it is modelled that way.
- ClsxLemmas.InsertedImportIsRecognised: covers only aliases of one or more ASCII word characters. An alias that is a JavaScript identifier outside `\w`, such as `$cx`, is never matched by `\w+`, so the source inserts another import line on every run.
