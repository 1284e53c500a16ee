# Fragments: a Dafny model of the template core

Fragments is a static-site generator. A page is a tree of **fragments**.
Each fragment's code is an optional Lua script, then `---`, then a template
body. The body is text with three kinds of reference:

- `${key}` reads metadata.
- `@{name}` and `@{name [[content]]}` include a child fragment (`TOKEN_FRAGMENT_REF`).
- `*{name}` and `*{name [[content]]}` call a builder function (`TOKEN_BUILDER_REF`).

A child has its own local metadata and shares its root's shared table.
Inline `[[content]]` is evaluated in the referencing fragment and handed to
the callee.

This project models the core of that system in Dafny 4.11 and proves
properties of the model:

- The byte lexer (`lexer.dfy`).
- The recursive-descent parser over the token stream (`parser.dfy`).
- The `CoreType` values: display, clone, merge, and dotted-key get/set (`values.dfy`).
- The fragment tree and evaluation world: `MakeChild`, the shared-table lookup, the fragment stack, and the non-recursive pieces of `Evaluate` (`fragments.dfy`).
- `Fragment.Evaluate` and the node evaluators (`evaluate.dfy`).
- Properties of evaluation (`evaluation_facts.dfy`), and of how fragments compose through references and templates (`composition_facts.dfy`).
- The console helpers `parseTags`, `indent` and `kvfmt` (`logging.dfy`).
- `Option`/`Result` (`wrappers.dfy`) and string helpers that mirror Go's `strings` package (`text.dfy`).

Design of the model:

- Go strings are modelled as `string` with one character per byte.
- Go's mutable tables are immutable map values.
- Evaluation threads a `World` value:
  - fragments by id;
  - shared tables by id, so a child's table really is its parent's;
  - the fragment cache;
  - the error log.
- The Lua runtime, the file system and `%f` number printing are parameters, bundled as a `Host`.
- Evaluation can recurse without bound, because a fragment may include itself. Every evaluation function therefore takes a `fuel` budget and returns `None` when the budget runs out.

In these places the code is easy to misread; the model follows the code:

- A meta reference looks up its key as one raw key, not as a dotted path.
- `WithContent` computes `merge` of the shared tables and throws the result away. Only `CONTENT` changes.
- `skipWhitespace` runs before every token, so blanks after a reference are dropped. `${title} @{nav} *{today}` renders without the spaces between the three outputs.
- The node evaluators exist in two versions:
  - `parser.go` reads local metadata only.
  - `fragmentParser.go` reads shared metadata first, then local.
  
  `LookupOrder` selects between them. Parse errors carry the parsed code; evaluation errors carry only a position and a message.

## Model

| member | source | states |
|---|---|---|
| Lexer.ReadChar | lexer.go:40-55 | advances one byte and keeps line and column equal to the line and column of the byte under the cursor (column restarts at 1 after a newline; see Findings) |
| Lexer.ReadCharAsWritten | lexer.go:40-55 | the code as written: after a newline the line goes up by one and the column becomes 0; otherwise the column goes up by one |
| Lexer.NewLexer | lexer.go:34-38 | a fresh lexer looks at byte 0, on line 1, column 1, with tracked position |
| Lexer.AsWrittenColumnAfterNewline | lexer.go:40-45 | on "a\nb" the code as written puts `b` at column 0 while `a` is at column 1; the corrected lexer puts `b` at column 1 |
| Lexer.SkipWhitespace | lexer.go:137-141 | skips exactly a run of spaces and tabs (never newlines), stopping at the first other byte or the end |
| Lexer.ReadText | lexer.go:150-157 | returns the maximal run of non-special bytes at the cursor, as a slice of the input, and stops on a special byte or the end |
| Lexer.TokenAt | lexer.go:57-135 | which token each byte starts (escapes only before `@ * $ \`, a sigil opens a reference only before `{`, `[[`/`]]` only doubled, a lone bracket one byte of text, a brace one byte), that the bytes consumed spell the token, and that the token carries the position of its first byte |
| Lexer.NextToken | lexer.go:57-60 | blanks are dropped before the token; EOF exactly when the first non-blank is the end; the token is at the line and column of the first non-blank byte |
| Lexer.Tokenize | parser.go:207-211 | the token stream the parser pulls ends with the first EOF and has no earlier EOF |
| Lexer.TokenizeSpellsInput | lexer.go:57-157 | on input without blanks or NUL bytes the tokens spell the input back exactly: lexing loses nothing |
| Parser.ScanBalancedMeaning | parser.go:247-276 | the brace-counting scan closes exactly at the token that brings the count to zero with no EOF before it, and returns the literals before that token; otherwise an EOF comes first |
| Parser.ParseReference | parser.go:247-276 | on failure the error is "Unexpected EOF while parsing reference" at the start token's position |
| Parser.ParseReferenceMeaning | parser.go:247-276 | success gives the balanced closing brace and the key spelled by the tokens before it; failure happens exactly when the braces are never closed before EOF |
| Parser.ParseContent | parser.go:334-363 | on failure the error is "Unexpected EOF while parsing content" at the `[[` token's position |
| Parser.ParseContentMeaning | parser.go:334-363 | success gives the balanced `]]` and the content spelled by the tokens before it; failure happens exactly when the brackets are never closed before EOF |
| Parser.TailScanMeaning | parser.go:301-318 | after the content block the scan stops at the brace that brings the count to zero, keeps every other literal except closing braces, and fails exactly when an EOF comes first |
| Parser.NameScan | parser.go:284-329 | every failure carries the parsed code and one of the two EOF messages |
| Parser.NameScanErrorPosition | parser.go:284-329 | a failure is reported at the reference's start token or at a `[[` token |
| Parser.ParseReferenceWithContent | parser.go:278-332 | a parsed name has no surrounding white space (it is trimmed) and errors carry the code |
| Parser.ReferenceWithoutContentBlock | parser.go:278-332 | when the brace that balances the opener comes with no `[[` before it, the result is the trimmed literals before that brace, no content, and the index after the brace |
| Parser.ReferenceWithContentBlock | parser.go:278-332 | when the first `[[` comes while the reference is open, its `]]` balances it, and the tail then meets enough closing braces before EOF: the name is the trimmed literals before the block followed by the tail's literals other than closing braces, the content is the literals inside the block, and parsing resumes after the last brace |
| Parser.ClosesUnique | parser.go:253-272 | the closer that brings a nesting back to zero is unique |
| Parser.ScanBalancedAt | parser.go:247-276 | wherever a closer balances the opener, the scan stops exactly there and returns the literals before it |
| Parser.ContentBlockAt | parser.go:334-363 | wherever a `]]` balances a `[[`, `parseContent` returns the literals between them and the index after the `]]` |
| Parser.TailScanAt | parser.go:301-318 | wherever the tail meets its last closing brace with no EOF before it, the tail loop stops exactly there, keeping every literal but closing braces |
| Parser.TailStopsOnce | parser.go:301-318 | the tail loop can stop at only one closing brace |
| Parser.NameWithoutContentBlock | parser.go:284-331 | with no `[[` before the closing brace, the name is the balanced-brace key and the content is empty |
| Parser.NameWithContentBlock | parser.go:295-319 | at the first `[[` the content block is parsed; its error is the result, otherwise the name gathers the literals before the block and those after it (closing braces excepted) |
| Parser.ParseNodes | parser.go:211-245 | text and escaped tokens become text nodes at their position; a stray brace or bracket is an "Unknown token type" error at its position; an empty node list exactly at EOF |
| Parser.ParseAfter | parser.go:218-234 | a reference node parsed at a position heads the node list that follows |
| Parser.ParseCode | parser.go:207-245 | empty code parses to no nodes; a failure carries the code that was parsed |
| Parser.ParseCodeErrorPositioned | parser.go:207-245 | a failure to parse code is reported at the line and column of one of the code's tokens |
| Parser.TextTokensBecomeTextNodes | parser.go:213-216 | a stream of text and escaped tokens parses to the matching text nodes, in order |
| Parser.MetaRefKeyIsBalanced | parser.go:217-222 | a `${` token yields a meta node whose key is the literal text up to the balancing brace, at the `${` position |
| Parser.ParseErrorsArePositioned | fragmentParser.go:320-366 | every parse error carries the code and the line and column of one of the code's tokens |
| Parser.PlainTextIsOneNode | parser.go:207-245 | code of plain text (no special byte, no leading blank) parses to a single text node at line 1, column 1 |
| CoreValue.Display | coreType.go:24-276 | nil, booleans, strings, functions and user data display as their Go `stringRepresentation`; a table as its item count; a number through the host's formatting |
| CoreValue.TableSummary | coreType.go:241-249 | a table's display starts with "[fragments.CoreTable with " and ends with "]" |
| CoreValue.TableSummaryShowsCount | coreType.go:241-249 | between the prefix and " item]" (one entry) or " items]" (any other count) stand decimal digits without a leading zero that read back as the item count |
| Text.NatToString | coreType.go:242 | `%d`: a non-empty run of decimal digits whose value is the number, with a leading zero only for 0 |
| CoreValue.TableSummaryPlural | coreType.go:241-249 | the display reads "items" exactly when the count is not 1 |
| CoreValue.CloneIsIdentity | coreType.go:250-256 | a deep copy equals the original, so nothing reachable from it is shared |
| CoreValue.MergeMut | coreType.go:196-214 | the keys are the union; keys only in `mine` keep their values; a key of `other` wins unless both sides hold tables, which become one table with the keys of both; `MergeOtherWins` and `MergeKeepsMine` carry this to every depth |
| CoreValue.MergeKeepsMine | coreType.go:196-214 | at any depth, along a path that `other` does not reach (some segment is missing there, every earlier one a table), the merged table reads what `mine` reads |
| CoreValue.MissedPathIsNil | coreType.go:350-370 | a path that leaves the table (a missing segment after tables only) reads nil |
| CoreValue.Merge | coreType.go:216-238 | merging into a copy has the union of the keys |
| CoreValue.MergeIsMergeMut | coreType.go:216-238 | `merge` gives exactly the table that `mergeMut` gives |
| CoreValue.MergeMutIdempotent | coreType.go:196-214 | merging a table into itself changes nothing |
| CoreValue.MergeMutEmpty | coreType.go:196-214 | the empty table is a unit on both sides of a merge |
| CoreValue.FoundPathReaches | coreType.go:354-366 | a path that reads anything but nil is present: each segment exists and each earlier one is a table |
| CoreValue.MergeOtherWins | coreType.go:196-214 | along any path present in `other`, the merged table reads `other`'s value there, nil and tables included, unless both sides hold a table, where it reads the recursive merge of the two: with `MergeKeepsMine` this fixes every path of the result |
| CoreValue.MergeLastWriterWins | coreType.go:196-214 | where `other` holds a non-table value at the end of a path, the merged table reads that value there (a corollary of `MergeOtherWins`) |
| CoreValue.GetPath | coreType.go:350-370 | a missing first segment reads nil; a single present segment reads its entry |
| CoreValue.GetPathThroughTables | coreType.go:350-370 | a path that reads anything but nil passes through tables only: every proper prefix of it reads a table |
| CoreValue.SetPath | coreType.go:372-398 | only the first segment's entry changes; with more segments it becomes a table |
| CoreValue.GetAfterSet | coreType.go:350-398 | reading a path right after setting it gives the value set |
| CoreValue.SetLeavesOtherPaths | coreType.go:350-398 | setting one path leaves every diverging path reading as before |
| CoreValue.NestedRoundTrip | coreType.go:350-398 | for any dotted key, `getNestedValue` after `setNestedValue` returns the value set |
| CoreValue.UndottedKey | coreType.go:350-398 | a key without dots reads and writes a plain top-level entry |
| Fragments.NewRoot | fragment.go:84-125 | a new root has depth 0, no parent, empty metadata and a fresh shared table; nothing else in the world changes |
| Fragments.MakeChild | fragment.go:43-54 | the child is one level deeper, has its parent as parent, empty local metadata and the parent's shared table itself; nothing else changes |
| Fragments.RetrieveSharedIsOwn | fragment.go:56-63 | when every child shares its parent's table, walking up to the root returns the fragment's own shared table |
| Fragments.ChildRetrievesParentTable | fragment.go:43-63 | a new child retrieves the same shared table as its parent |
| Fragments.MakeChildKeepsSharing | fragment.go:43-54 | creating a child keeps every child sharing its parent's table |
| Fragments.FragmentStack | fragmentParser.go:117-125 | the stack runs from a parentless root down to the fragment, one entry per level, each entry the parent of the next; no fragment gives an empty stack |
| Fragments.StackRootHoldsShared | fragmentParser.go:117-125 | the bottom of the stack holds the table that `RetrieveSharedMetadata` returns |
| Fragments.SplitCodeMeaning | fragment.go:187-200 | with no `---` the script is empty and the body is all the code; otherwise the script ends at the leftmost `---`, the body runs to the next `---` or the end with no `---` starting inside it, and what follows is empty or starts with `---` |
| Text.SplitLeftmost | fragment.go:188 | `strings.Split` gives one piece exactly when the separator does not occur; otherwise the first piece ends at the leftmost occurrence and no occurrence starts inside the second piece |
| Fragments.LookupMeta | fragmentParser.go:157-163 | in shared-first order a shared entry wins and local is the fallback; in local-only order only local entries are found; a key is found exactly when one of the consulted tables holds it |
| Fragments.BuilderArgs | fragmentParser.go:236-239 | the builder gets no argument for empty content and the content as its one argument otherwise |
| Fragments.WithContent | fragment.go:257-271 | only the child's local `CONTENT` entry changes; the shared tables are not touched |
| Evaluation.EvalFragment | fragment.go:181-255 | evaluation keeps the world valid, changes no fragment created earlier, and leaves the fragment evaluated, or evaluating with empty output when its body does not parse; an evaluated fragment without a template is cached under its name; a root's template shares its table; a non-root template is logged |
| Evaluation.Conclude | fragment.go:232-254 | the fragment ends up evaluated with its shared table unchanged and no earlier fragment touched; a root with a template leaves the template sharing its table; otherwise the fragment is cached under its name, with a logged error for a template below the root |
| Evaluation.ToTemplate | fragment.go:234-243 | handing a root's output to its template keeps the world valid, leaves the root itself and every earlier fragment as they were, leaves the template sharing the root's table, and caches nothing under the root |
| Evaluation.CacheOutput | fragment.go:243-252 | a fragment that does not hand over to a template is cached under its name, and a template below the root is logged as an error; no fragment changes |
| Evaluation.RunScript | fragment.go:206-212 | an empty script is not run; a script changes only this fragment's local metadata, builders and template and its shared table: every other fragment and every other table is unchanged, the only new fragment is the selected template, and the state and cache stay |
| Evaluation.Prepare | fragment.go:181-219 | the fragment is left evaluating with its shared table and the cache unchanged, and the parse result is that of the trimmed body |
| Evaluation.EvalBody | fragment.go:221-230 | the node loop keeps the world valid and changes no fragment created before the fragment's children; its output and log are pinned for any nodes by `BodyPrefixStep` and `EvalBodyStep` |
| Evaluation.EvalNode | fragmentParser.go:139-310 | evaluating a node keeps the world valid and changes no fragment created before the fragment's children |
| Evaluation.EvalBuilderRef | fragmentParser.go:192-259 | a builder call keeps the world valid and changes no earlier fragment; its results are pinned by `MissingBuilderFirst`, `BuilderWithoutContent`, `BuilderWithContent` and `BuilderUnparsableContent` |
| Evaluation.EvalFragmentRef | fragmentParser.go:277-310 | a fragment reference keeps the world valid and changes no earlier fragment |
| Evaluation.HandToTemplate | fragment.go:233-237 | the template takes over the root's shared table and gets the output as `CONTENT` |
| Evaluation.EvalContent | fragmentParser.go:215-229 | a failing loop's error is "Error evaluating content node in <what> <name>: ..." placed at one of the content nodes; which node, and the output on success, are given by `ContentFirstFailure` and `ContentPrefixOutput` |
| EvaluationFacts.ContentFirstFailure | fragmentParser.go:217-228 | for any content nodes: once the nodes before `k` have succeeded, a failure of node `k` in the world they left is the loop's result, with the content-node error at node `k` |
| EvaluationFacts.ContentPrefixOutput | fragmentParser.go:217-231 | for any content nodes: once the nodes before `k` have succeeded with output `s`, a success `out` of node `k` makes the loop over the first `k + 1` nodes succeed with `s + out` |
| EvaluationFacts.PlainContent | fragmentParser.go:217-232 | over text and meta nodes the content loop leaves the world alone and ends as a reference reading of the loop over the nodes' outcomes says |
| EvaluationFacts.ContentOutcomeSucceeds | fragmentParser.go:217-232 | with no failing outcome the content is the outputs concatenated in order |
| EvaluationFacts.ContentOutcomeFails | fragmentParser.go:217-232 | the first failing outcome decides the error: at that node's line and column, naming the reference and quoting the node's error |
| EvaluationFacts.PlainContentSucceeds | fragmentParser.go:217-232 | plain content nodes that all succeed give their outputs concatenated in order, and the world is unchanged |
| EvaluationFacts.PlainContentFails | fragmentParser.go:217-232 | for plain content nodes, the first one that fails gives "Error evaluating content node in ..." at its own position with its error as reason, and the world is unchanged |
| Evaluation.Content | fragmentParser.go:203-214 | empty content is not parsed; content that does not parse is an error at the reference |
| EvaluationFacts.EvalBodyStep | fragment.go:221-230 | for any first node, fragment and builder references included: the rest of the body runs in the world that node left, with its failure logged, and the node's success output comes first |
| EvaluationFacts.BodyPrefixStep | fragment.go:221-230 | for any nodes: once the nodes before `k` have run to `(wk, s)`, node `k` runs in `wk`; a failure is logged after the earlier ones and adds nothing, a success appends its output to `s` |
| EvaluationFacts.EvalBodyPlain | fragment.go:221-230 | over text and meta nodes the body outputs the successes concatenated in order, logs every failure in order, and changes nothing else |
| EvaluationFacts.CleanPlainBody | fragment.go:221-230 | a body of text and meta nodes none of which fails outputs their outputs in order and leaves the world exactly as it was |
| EvaluationFacts.PlainNodeValue | fragmentParser.go:139-175 | text evaluates to itself; a key shows the shared entry first, then the local one, else a missing-key error at the reference |
| EvaluationFacts.MissingBuilderFirst | fragmentParser.go:192-202 | a missing builder is reported before the content is even parsed, and nothing else happens |
| EvaluationFacts.BuilderWithoutContent | fragmentParser.go:230-259 | a builder referenced without content is called with no arguments; its result is displayed, its error is reported at the reference |
| EvaluationFacts.BuilderWithContent | fragmentParser.go:203-259 | with content, the content's parse or evaluation error is the node's result; otherwise the builder is called with the evaluated content as its one argument (none if it is empty), and its result is displayed or its error reported at the reference |
| EvaluationFacts.BuilderUnparsableContent | fragmentParser.go:205-215 | content that does not parse gives "Error parsing content in builder <name>: ..." at the reference, the world unchanged and the builder not called |
| EvaluationFacts.UnparsableBody | fragment.go:212-217 | a body that does not parse gives empty output, leaves the fragment evaluating and uncached, and logs the parse error last |
| EvaluationFacts.PlainTextFragment | fragment.go:181-255 | a plain-text fragment without script or template outputs its trimmed code, logs nothing and is cached |
| EvaluationFacts.PrepareWithoutScript | fragment.go:181-212 | without a script, preparing only marks the fragment evaluating |
| EvaluationFacts.ConcludeWithoutTemplate | fragment.go:232-254 | without a template the fragment is marked evaluated, cached under its name, and the body's output is returned |
| CompositionFacts.RunScriptEffect | fragment.go:206-212 | a script's effect is installed as given: local metadata, builders and shared table; a selected template becomes a new root read from the named file and linked; a script error is logged and is the only log entry |
| CompositionFacts.PrepareRuns | fragment.go:181-212 | preparing marks the fragment evaluating and runs the script on that record |
| CompositionFacts.ReferencedChild | fragment.go:43-54 | a referenced child is new, one level down, with the referring fragment as parent, its shared table, no local metadata, the named code and pending state |
| CompositionFacts.FragmentRefWithoutContent | fragmentParser.go:277-310 | without content, the reference evaluates the new child and shows its output |
| CompositionFacts.FragmentRefWithContent | fragmentParser.go:277-307 | with content, the content is evaluated in the referring fragment first; its error is the reference's error; otherwise the child gets the content as `CONTENT` and its output is shown |
| CompositionFacts.FragmentRefUnparsableContent | fragmentParser.go:279-290 | content that does not parse gives "Error parsing content in fragment ..." at the reference, after the child was made and without evaluating it |
| CompositionFacts.ConcludeWithTemplate | fragment.go:232-243 | a root with a template is marked evaluated, the template gets the root's shared table and the output as `CONTENT`, and the result is exactly the template's evaluation; nothing is newly cached under the root |
| CompositionFacts.PlainTemplateConcludes | fragment.go:232-252 | a root whose template is plain text ends with the template's trimmed text; the template is cached under its name, the root is not, nothing is logged |
| CompositionFacts.TemplatePage | fragment.go:181-255 | a page whose script selects a plain-text template without error and whose body is plain text evaluates to the template's trimmed text; the template is new and linked, cached under its name, the root is not cached, and nothing is logged |
| Logging.TagLength | logging.go:27 | whatever it matches at the start of a string is a tag `[&name]` whose name is one or more lower-case letters |
| Logging.TagLengthUnique | logging.go:27 | whenever a string starts with such a tag, that tag is exactly what is matched: the pattern has no other match at that point |
| Logging.PlainPrefix | logging.go:26-35 | for any code table, text without `[` passes through tag parsing unchanged and the rest is parsed on its own |
| Logging.ExpandsTag | logging.go:26-35 | for any code table, a tag at the start is replaced by its code, or by nothing when the name is unknown, and scanning resumes right after it |
| Logging.IndentLines | logging.go:38-41 | lines joined by newlines come out with every line prefixed by four spaces per padding level |
| Logging.IndentEveryLine | logging.go:38-41 | for any text, the result is its lines (as `strings.Split` finds them), each prefixed with the padding |
| Logging.IndentZero | logging.go:38-41 | padding 0 leaves the text unchanged |
| Logging.KvFmtLayout | logging.go:45-48 | for a key and value without brackets the line is cyan, key, colon, reset, padding, tab, value |
| Logging.KvFmtAligned | logging.go:45-48 | the tab lands at the same column for every key up to the maximum length, so values line up |

## Left out

- The Lua runtime is left out. This covers the scripts, `setTemplate`, the builder functions, and Lua↔Core value conversion. A `Host` supplies a script's effect and a builder call's result as functions.
- The file system and `GetFragmentFromName`'s file lookup are left out. `Host.load` gives a fragment's code by name.
- `GetFragmentFromName` reads at most the first 1024 bytes of a root or template file. That limit belongs to the file reading and is not modelled.
- `FragmentCache` internals are modelled as a name-to-id map; its printing is left out.
- `%f` number formatting is left out; `Host.number` prints numbers. `convertToString` is left out as well.
- `formatError`, its styling and `ParseError`/`EvaluationError` display text are left out. Only the plain `Error()` formats of `parser.go` are modelled. `log` output is modelled as the `World` log.
- `EvaluationError.Code` and the `Fragment` field of `ParseError` and `EvaluationError` (fragmentParser.go:18-32, 165-172, 196-201) are not modelled: `Fragments.EvalError` holds the line, column and message, and `Parser.ParseError` adds only the code. Those fields feed only `formatError`, which is left out.
- Concurrency is left out, and so is the `fmt.Println` of the cache in `Evaluate`.
- Go tables are shared by pointer. Here they are values, except fragments' shared tables, which live in the world by id. Aliasing of nested tables inside metadata is not modelled.
- `strings.TrimSpace` is modelled on ASCII white space only; multi-byte Unicode spaces are not.
- `Builders` is nil for a child made by `MakeChild`, and indexing it in Go would fail. The model treats it as an empty table.
- `Builders` is also nil for roots and templates made by `GetFragmentFromName` (fragment.go:116-124). Until a script calls the builders setter, a `*{x}` reference there panics in Go (parser.go:94, fragmentParser.go:193), while the model reports "Builder not found".
- Builder functions run in the fragment's Lua state (fragmentParser.go:241) and can call `this:setLocalMeta` or reach `this:parent()` (LFragment.go:74-83). The model's builder is a pure function of its arguments, so a builder call changes no metadata. `EvalBuilderRef`'s frame and the frame parts of `EvalBody` and `EvalFragment` rely on that.
- A script of a child can change its parent's local metadata through the Lua API. The model lets a script change only its own fragment, its shared table and its template.
- When a script calls `setTemplate` several times, only the last call is modelled.
- `getNestedValue`'s error logging is left out.
- Evaluation.EvalFragment: the `fuel` bound makes evaluation partial. With too little fuel the result is `None`, and the contracts speak only of `Some` results. This is how self-inclusion, which the code does not guard against, stays finite.
- Logging.KvFmt: a key longer than `maxKeyLen` makes Go's `strings.Repeat` panic on a negative count. This is a precondition here.
- Logging.Indent: a negative padding panics in Go; `padding` is a `nat`.
- Lexer.ReadChar: the model uses the corrected lexer (see Findings). So every column on line 2 and later is one greater than the column Go reports for the same byte.
- Lexer.TokenizeSpellsInput: blanks are dropped before tokens, so the round trip is stated only for input without blanks or NUL bytes.

## Findings

| source | as written | input that shows it | evidently intended | confidence | as-written member | corrected member |
|---|---|---|---|---|---|---|
| lexer.go:40-45 | after a newline `readChar` sets the column to 0, while line 1 starts at column 1 (`NewLexer` starts at 0 and reads one byte) | "a\nb": `a` is at line 1, column 1 but `b` is at line 2, column 0 | every line's first byte is at column 1 | not executed | Lexer.AsWrittenColumnAfterNewline | Lexer.ReadChar |
