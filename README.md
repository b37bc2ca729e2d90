# html1120 HTML parser — a verified model

This project models the parsing core of the html1120 HTML parser, which has two engines.

- **The streaming tokenizer** (`lib/Parser.js`). A `Parser` object takes the document in chunks. It splits the buffer at every `<` and `>` marker and classifies each slice: text, tag, comment, directive, script or style. It tracks script, style and comment regions on a tag stack, adds attributes and, optionally, locations. It queues the elements and hands them to an event handler whenever no region is open.
- **The default handler** (`lib/DefaultHandler.js`). It turns those events into a forest of nodes:
  - it merges adjacent text inside script and style;
  - it merges adjacent comments;
  - it reports the forest once through its callback.
- **The legacy single-shot engine** (`node-htmlparser.js`). `ParseTags` splits the whole document into elements, `ParseTagAttribs` adds attributes, and `NestTags` folds the flat list into a tree.

The modules are:

- `Markup` (markup.dfy): the element record, JavaScript's `\s`, `trim`, `toLowerCase` on ASCII, a string's `length` in UTF-16 code units, the marker search, and the element queue with its synthesised closes for self-closing tags. Both engines share it.
- `Attributes` (attributes.dfy): the attribute regular expression as a leftmost-match scanner, the assignment loop, and a round trip from rendered attributes back to the attribute map.
- `Forest` (forest.dfy): a zipper of closed trees plus the stack of open nodes. `Unwind` gives the top-level list the JavaScript code exposes, open nodes included.
- `StreamScanner` (stream_scanner.dfy): the `Parser` fields as a state value. For every operation there is a function that gives the state after it, with lemmas about those functions.
- `StreamParser` (stream_parser.dfy): the `Parser` class. Each method is proved to leave `State()` equal to its function in `StreamScanner`.
- `DomBuilder` (dom_builder.dfy): the handler's effect on the forest as functions with lemmas, and the `DefaultHandler` class proved against them.
- `LegacyScanner`, `LegacyNest`, `LegacyParser` (legacy_*.dfy): the single-shot engine.

The streaming parser's handler is represented by the log of calls made on it (`calls`). The default handler's callback is represented by the log of its invocations. A method that throws in JavaScript returns the error instead: `Option<string>`, or `thrown`.

Three behaviours of the code that a reader may not expect, which the model keeps:

- A second `done()` on the streaming parser does nothing and raises no error.
- `done()` does not force the queue out while a script, style or comment region is open. The elements stay queued.
- `parseChunk` after `done()` reports the error through `handler.error` when there is one, and then parses the chunk anyway.

## Model

| member | source | states |
|---|---|---|
| Markup.FindMarker | node-htmlparser.js:198-201 | the next `<` or `>` at or after `current`, or the end of the data when there is none |
| Markup.EnqueueQueued | lib/Parser.js:328-348 | queueing never adds empty text, keeps every tag, script and style named, and follows each self-closing opening element with its synthesised close |
| Markup.AppendQueued | node-htmlparser.js:391-408 | a trailing element appended without a close leaves the rest of the queue well formed |
| Markup.Trim | lib/Parser.js:168-171 | the result is no longer than the input and neither starts nor ends with a space; `TrimSlice` and `TrimPadded` state what it removes |
| Markup.TrimSlice | lib/Parser.js:168-171 | the result is empty exactly when the input is all whitespace, and otherwise it is a slice of the input with only spaces before and after it |
| Markup.TrimPadded | lib/Parser.js:168-171 | spaces around a non-empty word that neither starts nor ends with a space are exactly what `trim` removes |
| Markup.Units | node-htmlparser.js:191 | JavaScript's `length` counts UTF-16 code units: between one and two per character, and one per character exactly when none lies beyond U+FFFF |
| Markup.UnitsAppend | node-htmlparser.js:191 | the length of a concatenation is the sum of the lengths of its parts |
| Markup.FirstWord | node-htmlparser.js:180-181 | the result is a space-free prefix of the input, ending at the first space or at the end |
| Markup.Lower | node-htmlparser.js:182 | each character is lower-cased and the length is kept |
| Attributes.AddAttribs | lib/Parser.js:127-145 | the element's attributes become exactly what the `exec` loop over the text after the tag name assigns; with no text after the name, `attribs` is left as it was |
| Attributes.ExecLeftmost | lib/Parser.js:133 | `exec` returns the leftmost position where one of the four alternatives matches; with no match, none matches anywhere after `lastIndex` |
| Attributes.AssignLastWins | node-htmlparser.js:145-153 | when a name occurs several times, the value of its last occurrence is the one stored; a match named `__proto__` stores nothing |
| Attributes.AssignKeeps | node-htmlparser.js:145-153 | a key that no match names keeps its old value, or stays absent; so does `__proto__`, whatever the matches, because the setter inherited from `Object.prototype` ignores a string |
| Attributes.ProtoAttribIgnored | lib/Parser.js:133-144 | `a __proto__="x" id="y"` creates the `attribs` object but stores only `id` |
| Attributes.AssignKeys | node-htmlparser.js:145-153 | every key of the result is an old key or the name of some match |
| Attributes.NoMatchInSpace | lib/Parser.js:127-133 | whitespace alone holds no attribute |
| Attributes.MatchesRendered | lib/Parser.js:123-146 | round trip: scanning a rendering of well-formed attributes (double-quoted, single-quoted, unquoted, bare) gives them back in order |
| Attributes.AttribsOfRendered | node-htmlparser.js:137-155 | a tag name followed by rendered attributes gives `attribs` unchanged when there are none, and otherwise every attribute, with later duplicates overwriting earlier ones |
| Forest.UnwindPopTo | node-htmlparser.js:106-115 | closing open nodes never changes the forest that the top-level list shows |
| Forest.PreorderAdd | lib/DefaultHandler.js:45-63 | a node added under the innermost open node, or at top level, comes last in document order |
| Forest.PreorderPush | lib/DefaultHandler.js:75-76 | opening a linked node while every open node is linked adds it at the end of document order |
| Forest.PopKeepsFrames | lib/DefaultHandler.js:37-39 | closing the innermost node leaves the nodes below it open, with the same items and links |
| DomBuilder.Plus | lib/DefaultHandler.js:57 | JavaScript `+` on data values: two strings concatenate, and the result is a string exactly when one operand is |
| DomBuilder.SetLastChild | lib/DefaultHandler.js:57 | only the last child of the innermost open node changes; the open stack and the forest elsewhere are kept |
| DomBuilder.OpenTagAdds | lib/DefaultHandler.js:66-77 | the opened node is placed where `_addDomElement` puts it and becomes the innermost open node; script and style set the special flag, which is never cleared |
| DomBuilder.AddDomElementOrder | lib/DefaultHandler.js:41-64 | while every open node is linked, an unmerged node comes last in document order and a merged one leaves the node count unchanged |
| DomBuilder.OpenTagOrder | lib/DefaultHandler.js:66-77 | an open tag that is not merged keeps every open node linked and comes last in document order |
| DomBuilder.CloseTagKeepsDom | lib/DefaultHandler.js:37-39 | closing pops exactly one open node, whatever the name, and never changes the forest or the special flag |
| DomBuilder.OnTextMerges | lib/DefaultHandler.js:52-57 | text is appended to the previous node's data exactly when it follows text under the same open node once a script or style has been opened (the flag is set by `onopentag` and cleared only by `onreset`, so text after `</script>` still merges) |
| DomBuilder.OnTextTopLevel | lib/DefaultHandler.js:61-62 | at top level, text always becomes a new top-level node |
| DomBuilder.OnTextIgnoresWhitespace | lib/DefaultHandler.js:80 | with `ignoreWhitespace`, text that is only whitespace changes nothing |
| DomBuilder.OnCommentMerges | lib/DefaultHandler.js:87-112 | a comment is appended to a previous comment child, and otherwise comes last; at top level it is always a new node |
| DomBuilder.OnProcessingInstructionAdds | lib/DefaultHandler.js:114-120 | a processing instruction is never merged and always comes last in document order |
| DomBuilder.DefaultHandler.constructor | lib/DefaultHandler.js:3-15 | empty forest and stack, not done; options not given fall back to the defaults |
| DomBuilder.DefaultHandler.OnReset | lib/DefaultHandler.js:3-10 | the forest, stack and flags are reset; a callback or options not given are kept |
| DomBuilder.DefaultHandler.OnError | lib/DefaultHandler.js:27-33 | with a callback, the callback gets the error and the forest; otherwise a given error is thrown; nothing else changes |
| DomBuilder.DefaultHandler.OnEnd | lib/DefaultHandler.js:21-25 | the callback gets no error and the forest, on the first call only |
| DomBuilder.DefaultHandler.OnCloseTag | lib/DefaultHandler.js:37-39 | the state after `onclosetag`; the forest is unchanged |
| DomBuilder.DefaultHandler.AddDomElement | lib/DefaultHandler.js:41-64 | the state after `_addDomElement` |
| DomBuilder.DefaultHandler.OnOpenTag | lib/DefaultHandler.js:66-77 | the state after `onopentag` |
| DomBuilder.DefaultHandler.OnText | lib/DefaultHandler.js:79-85 | the state after `ontext` |
| DomBuilder.DefaultHandler.OnComment | lib/DefaultHandler.js:87-112 | the state after `oncomment` |
| DomBuilder.DefaultHandler.OnProcessingInstruction | lib/DefaultHandler.js:114-120 | the state after `onprocessinginstruction` |
| LegacyScanner.LegacyTagName | node-htmlparser.js:176-183 | the name has no space and no upper-case letter |
| LegacyScanner.LegacyTagNameOpen | node-htmlparser.js:176-183 | an opening tag's name is its first word, lower-cased |
| LegacyScanner.LegacyTagNameClose | node-htmlparser.js:176-183 | a closing tag's name is one slash, with any spaces around it dropped, followed by its first word, lower-cased |
| LegacyScanner.LegacyTagNameSelfClosing | node-htmlparser.js:176-183 | a self-closing tag's data such as `br/` or `br / ` names the word before the slash, lower-cased |
| LegacyScanner.RegionStep | node-htmlparser.js:217-321 | the queue keeps its length and every element's type; tags, scripts and styles already queued are unchanged; non-empty raw text stays non-empty except in a comment, whose raw the comment close rewrites; the current element keeps its type or becomes text, a comment or a directive; with the repair it never fails |
| LegacyScanner.TagStep | node-htmlparser.js:323-366 | a slice that is still a tag stays a non-text element, and a container gets the tag's name |
| LegacyScanner.LegacyStep | node-htmlparser.js:203-387 | one pass of the loop keeps the state well formed, and never fails with the repair |
| LegacyScanner.ClassifySlice | node-htmlparser.js:203-387 | the scan from `current` is the scan after the next marker, starting from the state this slice leaves |
| LegacyScanner.ParseTags | node-htmlparser.js:186-411 | the elements the loop produces, or failure where the source throws |
| LegacyScanner.ParseTagsQueued | node-htmlparser.js:369-408 | the result has no empty text and names every tag, script and style; every self-closing opening element except a trailing one is followed by its close |
| LegacyScanner.RepairedParseTagsTotal | node-htmlparser.js:217-321 | with the empty-slice branches repaired, the scan never fails |
| LegacyScanner.PlainText | node-htmlparser.js:391-408 | text with no marker is one text element, and only when it is at least two UTF-16 code units long |
| LegacyScanner.LoneAstralText | node-htmlparser.js:391-408 | a lone character beyond U+FFFF is two code units, so it is kept as one text element |
| LegacyScanner.WholeComment | node-htmlparser.js:324-341 | a comment whose text holds no marker becomes one comment element without its delimiters |
| LegacyScanner.UnassignedPrevElement | node-htmlparser.js:236-244 | `<script>t<<` fails as written and, repaired, gives the script followed by the text `t<` |
| LegacyNest.NestTags | node-htmlparser.js:63-130 | the forest is exactly the fold of the element-by-element step over the input |
| LegacyNest.CloseTo | node-htmlparser.js:106-115 | a close pops back to the innermost open element of its name, and does nothing when none is open |
| LegacyNest.CloseStep | node-htmlparser.js:79-115 | a closing element never changes the forest; it closes the innermost open element of its base name and everything above it, unless the base name is void or not open |
| LegacyNest.LeafStep | node-htmlparser.js:79-129 | text, comments, directives and void elements become the last child of the innermost open element, or a top-level node |
| LegacyNest.OpenStep | node-htmlparser.js:87-123 | any other opening element is added and becomes the innermost open element |
| LegacyNest.NestedOrder | node-htmlparser.js:63-130 | the forest holds every non-closing input element exactly once, in input order |
| LegacyNest.NestedVoidLeaves | node-htmlparser.js:87-123 | a void element is placed in the tree but never holds children |
| LegacyNest.ConstructorAsWritten | node-htmlparser.js:35-50 | as written, `<constructor>x</constructor>` gives an empty `constructor` element followed by a sibling text `x` |
| LegacyNest.ConstructorRepaired | node-htmlparser.js:35-50 | with only the fourteen listed names void, `constructor` holds the text |
| LegacyParser.Annotated | node-htmlparser.js:158-173 | the same elements in the same order, each changed in `attribs` at most; tags and scripts get what the attribute loop assigns, and every other element is left as it was, styles included, because the third test names the undefined `ElementType.style` |
| LegacyParser.ParseTagAttribs | node-htmlparser.js:158-173 | `ParseAttribs` is applied to every tag and script, slot by slot |
| LegacyParser.AnnotatedKeeps | node-htmlparser.js:158-173 | the pass keeps what `NestTags` reads: named elements stay named, and an element is a closing one after the pass exactly when it was before |
| LegacyParser.AnnotatedRendered | node-htmlparser.js:137-173 | a tag or script with rendered attributes gets them; a style element with the same data keeps its `attribs` |
| LegacyParser.LegacyParseShape | node-htmlparser.js:413-418 | with the repaired scanner and void test, the scan succeeds, the forest holds in order every non-closing annotated element, no closing element appears, and void elements are leaves |
| LegacyParser.LegacyParseShapeAsWritten | node-htmlparser.js:413-418 | as written, parsing fails exactly where the scan throws; otherwise the forest holds in order every non-closing annotated element, no closing element appears, and void elements (by the prototype lookup) are leaves |
| LegacyParser.Parser.constructor | node-htmlparser.js:437-439 | empty forest and buffer, not done |
| LegacyParser.Parser.Reset | node-htmlparser.js:431-435 | empty forest and buffer, not done |
| LegacyParser.Parser.Done | node-htmlparser.js:426-429 | marks done; the forest and buffer are untouched |
| LegacyParser.Parser.ParseChunk | node-htmlparser.js:420-424 | always throws: the already-done error once done, "Not implemented" otherwise |
| LegacyParser.Parser.ParseComplete | node-htmlparser.js:413-418 | returns and stores the nested, annotated scan of the data, and is done afterwards |
| StreamScanner.TagName | lib/Parser.js:149-154 | the name has no space, and no slash after an optional leading one |
| StreamScanner.TagNameOpen | lib/Parser.js:149-154 | spaces and then a word give that word, not lower-cased |
| StreamScanner.TagNameClose | lib/Parser.js:149-154 | spaces, a slash, spaces and a word give a slash followed by the word |
| StreamScanner.TagNameNone | lib/Parser.js:149-154 | only spaces, or a slash with no name after it, give the empty name |
| StreamScanner.AdvanceCounts | lib/Parser.js:368-387 | the counting loop adds exactly the newlines it passes, and leaves the column at the UTF-16 code units since the last one, carriage returns not counted |
| StreamScanner.ColumnUnits | lib/Parser.js:376-381 | on a line without line breaks the column advances by the text's JavaScript `length` |
| StreamScanner.AdvanceTwice | lib/Parser.js:368-387 | counting in two steps gives the same counters as counting at once |
| StreamScanner.Dispatch | lib/Parser.js:406-424 | one handler call per queued element, in order |
| StreamScanner.DispatchKinds | lib/Parser.js:408-423 | comments, directives and text go to their own handler methods, and everything else goes to `writeTag` |
| StreamScanner.DispatchAppend | lib/Parser.js:406-424 | delivering two queues in turn is delivering them as one |
| StreamScanner.ScanMarkerFree | lib/Parser.js:160-353 | the loop stops only when no marker is left after `_current` |
| StreamScanner.ScanLast | lib/Parser.js:350-352 | after at least one pass, the state and separator record the last marker |
| StreamScanner.ParseTagsRest | lib/Parser.js:355-363 | after `parseTags` the buffer is exactly the text after the last marker, with no marker in it, and `_current` is 0 |
| StreamScanner.ParseTagsState | lib/Parser.js:350-363 | after `parseTags` the state is Tag exactly when the last marker was `<`; with no marker, state and separator are unchanged |
| StreamScanner.StepQueued | lib/Parser.js:327-349 | a pass of the loop keeps the queue well formed |
| StreamScanner.ParseTagsQueued | lib/Parser.js:158-366 | what `parseTags` leaves queued is a well-formed queue |
| StreamScanner.RegionText | lib/Parser.js:184-245 | inside a script or style that has text queued last, a slice that neither closes the region nor starts a comment is appended, with the marker before it, to that text |
| StreamScanner.RegionTextFirst | lib/Parser.js:184-245 | the same slice with no text before it is queued as new text |
| StreamScanner.RegionEnd | lib/Parser.js:184-245 | the region's closing tag pops it |
| StreamScanner.CommentWhole | lib/Parser.js:286-295 | a comment opened and closed in one slice becomes one comment element without `!--` and `--` |
| StreamScanner.CommentOpen | lib/Parser.js:286-300 | an unclosed comment opens a comment region, and its element keeps the marker after it |
| StreamScanner.CommentGrows | lib/Parser.js:246-281 | inside a comment, a slice that does not end it is appended, with its marker, to the comment |
| StreamScanner.CommentEnd | lib/Parser.js:246-281 | `--` before `>` ends the comment region, and the comment loses its delimiters |
| StreamScanner.DoneIdempotent | lib/Parser.js:64-65 | a second `done` changes nothing |
| StreamScanner.DoneFlushes | lib/Parser.js:64-88 | the first `done` turns the buffer into a last element, delivers the queue unless a region is open, then calls `handler.done` |
| StreamScanner.FinalElementShape | lib/Parser.js:69-83 | the last element is trimmed unless it is text, and in the Tag state it is named |
| StreamScanner.ChunkAfterDone | lib/Parser.js:54-61 | after `done`, `parseChunk` throws and changes nothing, or reports through `handler.error` and parses the chunk |
| StreamScanner.CompleteNoError | lib/Parser.js:47-51 | `parseComplete` never reports an error; it calls `reset` first and `done` last |
| StreamScanner.CompletePlainText | lib/Parser.js:47-88 | a document without markers is delivered as one text element between `reset` and `done` |
| StreamParser.Validation | lib/Parser.js:390-403 | no error exactly when the handler is an object that has every required method |
| StreamParser.MissingFrom | lib/Parser.js:392-401 | no message exactly when every required method from this index on is present |
| StreamParser.Parser.constructor | lib/Parser.js:10-27 | the fields of a fresh parser |
| StreamParser.Parser.New | lib/Parser.js:3-27 | an invalid handler is refused before a parser exists; otherwise the parser is fresh |
| StreamParser.Parser.ValidateHandler | lib/Parser.js:390-403 | the error of the first failing test, in order |
| StreamParser.Parser.HandleError | lib/Parser.js:425-429 | the message goes to `handler.error` when there is one, and is thrown otherwise |
| StreamParser.Parser.ParseComplete | lib/Parser.js:47-51 | the state after reset, one chunk and `done` |
| StreamParser.Parser.ParseChunk | lib/Parser.js:54-61 | the state after the chunk, and the error thrown, if any |
| StreamParser.Parser.Done | lib/Parser.js:64-88 | the state after `done` |
| StreamParser.Parser.Reset | lib/Parser.js:91-108 | the initial state, and `handler.reset` is called |
| StreamParser.Parser.ParseTagAttribs | lib/Parser.js:113-120 | `parseAttribs` is applied to every element |
| StreamParser.Parser.ParseAttribs | lib/Parser.js:123-146 | tags, scripts and styles get their attributes, and other elements are unchanged |
| StreamParser.Parser.ParseTags | lib/Parser.js:158-366 | the state after `parseTags` |
| StreamParser.Parser.ScanMarkers | lib/Parser.js:160-353 | the state after the loop |
| StreamParser.Parser.ClassifySlice | lib/Parser.js:161-352 | the state after one pass of the loop |
| StreamParser.Parser.BuildElement | lib/Parser.js:162-325 | the element one slice gives, and the state after inspecting it |
| StreamParser.Parser.InspectRegion | lib/Parser.js:181-282 | the element and state after the region section |
| StreamParser.Parser.InspectScriptOrStyle | lib/Parser.js:184-245 | the element and state after a slice inside a script or style |
| StreamParser.Parser.InspectComment | lib/Parser.js:246-281 | the element and state after a slice inside a comment |
| StreamParser.Parser.ProcessTag | lib/Parser.js:285-325 | the element and state after processing a tag slice |
| StreamParser.Parser.QueueElement | lib/Parser.js:327-349 | the state after queueing one element |
| StreamParser.Parser.GetLocation | lib/Parser.js:368-387 | the location reported, and the counters after counting, the column in UTF-16 code units |
| StreamParser.Parser.WriteHandler | lib/Parser.js:406-424 | the state after delivering the queue |

## Left out

- I/O and the callers of the parsers are not modelled. The handler is the log of calls it receives, and the default handler's callback is the log of its invocations. Wiring a `DefaultHandler` into a `Parser` is not modelled.
- The shared regular-expression objects and their `lastIndex` field are not modelled. Each search is a function of the string and a start position. The attribute loops set `lastIndex` to 0 before they start. The marker loops (`reTags`, `_reTags`) do not: they rely on the last, failing `test` of the previous run to reset it to 0.
- LegacyScanner.ParseTags: after the TypeError of the first finding below, `reTags.lastIndex` is not reset. The next `ParseComplete` on any legacy parser then starts its marker search there. For example, after `<script>a<<` it is 11, and `<b>hello</b>` then gives one text element `<b>hello</b`. The model starts every scan at 0.
- Strings are sequences of Unicode scalar values, while JavaScript indexes and measures them in UTF-16 code units. The two places where that shows are modelled in code units through `Markup.Units`: the legacy test `current < data.length - 1` and the column that `getLocation` counts. Every other test compares a marker, `/`, `!`, `?` or `-`, all inside the Basic Multilingual Plane, at a character boundary, so it gives the same answer either way. Strings holding a lone surrogate cannot be represented.
- `_next` of lib/Parser.js is read only within the loop pass that sets it, so the model keeps it as the local `next` of `ScanMarkers`. `_elementsCurrent` is written but never read, so the model has no such field.
- JavaScript objects and prototypes are not modelled beyond what the code relies on:
  - the `emptyTags` lookup through `Object.prototype`, which the legacy nesting models;
  - the `__proto__` setter inherited from `Object.prototype`, which `Attributes.Store` models by not storing that key;
  - `_options` falling back to the prototype's default;
  - `undefined`/`NaN` data when text is merged into a node that has no `data`.
- StreamParser.Parser.constructor: it requires a valid handler. `StreamParser.Parser.New` models the throw for an invalid one.
- StreamParser.Parser.ParseComplete: its contract is stated on `State()` only. The handler's `reset`, `done` and `error` methods are not run.
- StreamScanner.CompletePlainText: only documents without markers are proved end to end. The end-to-end example in tests/07-unescaped_in_style.js is not restated as a lemma.
- Splitting a document into different chunks gives the same elements: this is not proved. The retained buffer is described by `ParseTagsRest` and `ParseTagsState` only.
- LegacyParser.LegacyParseShape: it is stated for the corrected scanner and void test; `LegacyParser.LegacyParseShapeAsWritten` states the same shape for the code as written, where the scan succeeds.
- LegacyParser.Parser.ParseComplete: it is stated for the corrected scanner and void test (the Findings below). On the inputs where the source throws, the as-written result is the `None` of `LegacyScanner.ParseTags` with `repaired` false.
- Markup.Lower: it lower-cases ASCII letters only. Unicode case mapping is not modelled.
- lib/ElementType.js is not part of this model. The six element types are a datatype.

## Findings

| source | as written | input that shows it | evidently intended | confidence | as-written member | corrected member |
|---|---|---|---|---|---|---|
| node-htmlparser.js:236-244 | an empty slice inside a script whose last element is text appends the marker to `prevElement`, a function-scoped variable that is assigned only when an element is merged | `<script>a<<` (and any `<script>t<<` with plain text `t`): `prevElement` is undefined, so reading `prevElement.raw` throws a TypeError | the marker is appended to the last element, as lib/Parser.js:226-239 does | not executed | LegacyScanner.UnassignedPrevElement | LegacyScanner.RepairedParseTagsTotal |
| node-htmlparser.js:90,110,121 | void names are looked up with `emptyTags[name]` on a plain object, so inherited members such as `constructor` and `__proto__` count as void | `<constructor>x</constructor>`: the element is left empty, `x` becomes its sibling, and the close is ignored | only the fourteen listed names are void | not executed | LegacyNest.ConstructorAsWritten | LegacyNest.ConstructorRepaired |
