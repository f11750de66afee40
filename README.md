# strip: the text normaliser of the SSA builder's API test

The API test of `cfg.js` compares the IR listing that the SSA builder emits
with an expected listing written inside a function comment. Before comparing
them it runs both through `strip`, which:

1. splits the text on `\r\n`, `\r` or `\n` (by alternation order a `\r\n`
   is one separator, not two);
2. replaces the match of `^\s*` in every line by nothing, so each line loses its
   leading whitespace;
3. drops the lines that are then empty;
4. joins the remaining lines with `\n`.

`strip.dfy` (module `Strip`) models this as pure functions:

- `BreakLen` and `SplitLines` model the split;
- `LTrim` and `TrimAll` model the `map`;
- `DropEmpty` models the `filter`;
- `Join` models the `join`;
- `Strip` composes the four.

`LineBreaks` and `Render` are reference definitions used in the proofs. `Render` lays lines out again with arbitrary separators.

The whitespace class `\s` is the parameter `isWs` of every operation that involves it, so every result holds for any choice of class. `IsJsSpace` is the ECMAScript class (WhiteSpace and LineTerminator), and `StripJs` is `strip` using it.

The lemmas prove what the test depends on:

- the output has no `\r`, no empty line and no indented line;
- the output lines are exactly the trimmed non-blank input lines, in order;
- the output is empty exactly when the input holds only whitespace and breaks;
- `strip` is idempotent;
- texts that differ only in indentation (`StripIndentInsensitive`), in an interspersed blank line (`StripBlankLineInsensitive`) or in line-ending style (`LayoutInsensitive`) strip to the same string.

The last property is what lets the comparison on test/api-test.js:34 ignore layout.

One subtlety shows up in the proofs. If a line ends with `\r` and the next line is empty and ends with `\n`, re-splitting reads the two separators as one `\r\n`, and the empty line is lost. Laying lines out and splitting them again is therefore the identity only up to dropped empty lines. `strip` drops those lines anyway (`SplitRenderCons`, `KeptSplitRender`).

## Model

| member | source | states |
|---|---|---|
| Strip.BreakLen | test/api-test.js:8 | the separator matched at the head of a text is `\r\n`, `\r` or `\n`; there is one exactly when the text starts with `\r` or `\n`; a `\r` is taken alone only when no `\n` follows it |
| Strip.SplitLines | test/api-test.js:8 | the split gives at least one piece and at most one more than the text's length; no piece holds a `\r` or `\n` |
| Strip.LineBreaks | test/api-test.js:8 | the separators consumed are each one of the three alternatives, one fewer than the pieces |
| Strip.SplitLinesInverse | test/api-test.js:8 | laying the pieces out again with the separators consumed gives back the original text |
| Strip.SplitBreakFree | test/api-test.js:8 | a text with no `\r` or `\n` (the empty text included) splits into exactly one piece, itself |
| Strip.SplitLineBreak | test/api-test.js:8 | a break-free line followed by `\r\n`, `\r` or `\n` splits off as the first piece and the rest is split on its own, unless the separator is a lone `\r` directly followed by `\n`; so `\r\n` is one separator, never `\r` and an empty piece and `\n` |
| Strip.SplitRenderCons | test/api-test.js:8 | splitting a laid-out text yields its first line, then the split of the rest; exactly when the first separator is `\r`, the second line is empty and the second separator is `\n`, the two separators merge into one `\r\n` and that empty line is not a piece |
| Strip.SplitJoin | test/api-test.js:8-16 | joining break-free lines with `\n` and splitting the result gives back exactly those lines |
| Strip.LTrim | test/api-test.js:11 | trimming removes a prefix made only of whitespace; what remains is an unchanged suffix of the line that is empty or starts with a non-whitespace character |
| Strip.LTrimPad | test/api-test.js:11 | whitespace added in front of a line makes no difference to its trimmed form |
| Strip.BlankIff | test/api-test.js:11-13 | a trimmed line is empty, and so is filtered out, exactly when the line is whitespace only |
| Strip.TrimAll | test/api-test.js:10-12 | the map keeps the number of lines, and line i of the result is line i of the input trimmed |
| Strip.DropEmpty | test/api-test.js:12-14 | the filter result is no longer than its input and has no empty line |
| Strip.DropEmptyMembers | test/api-test.js:12-14 | every line the filter returns is an input line, and every non-empty input line is returned |
| Strip.Kept | test/api-test.js:10-14 | the map plus filter never return more lines than they receive |
| Strip.KeptAppend | test/api-test.js:10-14 | map plus filter work line by line: for consecutive parts of a text, the kept lines are each part's kept lines in order |
| Strip.KeptSingle | test/api-test.js:10-14 | a single line is dropped if it is whitespace only, and otherwise kept with its indentation removed |
| Strip.KeptSplice | test/api-test.js:10-14 | each input line contributes, in its own place, nothing when blank and its trimmed form otherwise |
| Strip.KeptClean | test/api-test.js:10-14 | lines that are already non-empty, break-free and unindented pass through unchanged |
| Strip.KeptLinesClean | test/api-test.js:8-14 | every kept line is non-empty, break-free and does not start with whitespace |
| Strip.KeptEmptyIff | test/api-test.js:10-14 | nothing is kept exactly when every line is whitespace only |
| Strip.IndentInsensitive | test/api-test.js:11 | indenting any lines with whitespace does not change the kept lines |
| Strip.BlankLineInsensitive | test/api-test.js:12-14 | inserting a whitespace-only line anywhere does not change the kept lines |
| Strip.Join | test/api-test.js:16 | `out.join('\n')`; its meaning is given by `SplitJoin` (splitting the joined text gives back the lines) and `JoinClean` (the joined text of clean lines is clean) |
| Strip.JoinClean | test/api-test.js:16 | joining one or more clean lines gives a non-empty text with no `\r`, no empty line and no line starting with whitespace |
| Strip.PiecesBlank | test/api-test.js:8-13 | every piece of the split is whitespace only exactly when the text holds only whitespace, `\r` and `\n` |
| Strip.Strip | test/api-test.js:7-17 | `strip(source)`: split, trim every line, drop the empty ones, join with `\n`; its meaning is given by `StripShape`, `StripLines`, `StripEmptyIff`, `StripIdempotent`, `StripRender`, `LayoutInsensitive`, `StripIndentInsensitive` and `StripBlankLineInsensitive` |
| Strip.StripShape | test/api-test.js:7-17 | the output holds no `\r`, neither starts nor ends with `\n`, never holds two `\n` in a row, and no line of it starts with whitespace |
| Strip.StripLines | test/api-test.js:7-17 | a non-empty output splits into exactly the kept input lines, each clean; the output never has more lines than the input |
| Strip.StripEmptyIff | test/api-test.js:7-17 | the output is empty exactly when the input holds only whitespace and line breaks, which covers the empty input |
| Strip.StripIdempotent | test/api-test.js:7-17 | stripping an already stripped text changes nothing |
| Strip.KeptSplitRender | test/api-test.js:8-14 | however break-free lines are laid out with `\r\n`, `\r` and `\n`, splitting the text keeps the same lines as the layout |
| Strip.StripRender | test/api-test.js:7-17 | a text laid out from break-free lines strips to those lines' kept forms joined by `\n` |
| Strip.LayoutInsensitive | test/api-test.js:34 | two texts whose lines keep the same content strip to the same string, whatever separators each uses, so the comparison ignores indentation, blank lines and line-ending style |
| Strip.StripIndentInsensitive | test/api-test.js:7-17 | a text whose lines are indented with whitespace strips to the same string as the unindented text, whatever line-ending style either uses |
| Strip.StripBlankLineInsensitive | test/api-test.js:7-17 | a text with a whitespace-only line inserted anywhere strips to the same string as the text without it, whatever line-ending style either uses |
| Strip.IsJsSpace | test/api-test.js:11 | the ECMAScript class `\s`: TAB, VT, FF, SP, NBSP, ZWNBSP, the space separators U+1680, U+2000-U+200A, U+202F, U+205F, U+3000, and the line terminators LF, CR, U+2028, U+2029; `StripJsEmptyIff` uses that it contains `\r` and `\n` |
| Strip.StripJs | test/api-test.js:7-17 | `strip` with the JavaScript engine's `\s`; every property proved for any `isWs` holds for it, and `StripJsEmptyIff` specialises the emptiness result |
| Strip.StripJsEmptyIff | test/api-test.js:7-17 | with the ECMAScript class, the output is empty exactly when every input character is whitespace, because `\r` and `\n` are themselves in `\s` |

## Left out

- The test harness itself (test/api-test.js:18-36) and the test cases after it are left out. This covers parsing with `esprima`, `ssa.construct`, `ir.stringify`, the mocha `describe`/`it` calls and `assert.equal`. They are calls into code that is not part of this model. Only `strip`, which both sides of the comparison go through, is modelled.
- The expected IR listings in the test cases are not modelled, because they are data, not behaviour.
- The exact Unicode membership of `\s` is a parameter (`isWs`), and no property depends on it. `IsJsSpace` writes out the ECMAScript class, following the WhiteSpace and LineTerminator productions of ECMA-262. Which characters a given JavaScript engine counts as Unicode "Space_Separator" depends on its Unicode version, and that is not modelled.
- JavaScript strings are sequences of UTF-16 code units, while Dafny strings are sequences of Unicode scalar values. Every separator and every whitespace character involved lies in the Basic Multilingual Plane, so splitting and trimming behave the same. Surrogate pairs and lone surrogates are not modelled.
- JavaScript's `split` returns capture groups and treats empty matches specially. Neither applies here: the separator regular expression has no group and never matches the empty string, so the model does not include those cases.
