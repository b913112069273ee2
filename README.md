# Babel plugin playground: a verified model

The playground is two Next.js pages. On the left is an editor holding a Babel plugin. On the right are a sample input program, its AST, and the plugin's output.

The model covers the logic that links these widgets:

- **The node locator.** This is `getNodeAtPosition`, the same in both pages. From the plugin text before the cursor it guesses which AST node type's visitor is being edited:
  - it splits that text on `visitor: {`;
  - it takes piece 1 of the split;
  - it returns the last match of `/([A-Z][a-z0-9]+)+/g` in that piece.
- **The AST viewers.**
  - `pages/index.tsx` has `getChildNodes(node, showAll)` and a labelled `Tree`/`Node` projection.
  - `pages/editor.tsx` has `getChildNodes(node)` and a `Tree` that drops labels and flattens arrays. It highlights the node whose `type` is the active one.
- **The highlighting of the active node type in the input.** `getLocations` collects, during a traversal, the locations of the nodes of that type. Babel locations then become Monaco ranges.
- **The page controllers.**
  - The state of `pages/index.tsx` is `output`, `activeNode`, `input`, `tree` and the decoration handles. The steps that change it are the parse and exec effects on the settled input, `exec`, the cursor handler, the decoration effect and Shift+Enter.
  - The state of `pages/editor.tsx` changes through `exec`, the cursor handler and Cmd+Enter.

The files, one module each:

- `results.dfy`: `Option` and `Result`.
- `text.dfy`: `String.prototype.split` on a non-empty separator, first-occurrence search and joining. Includes the round trip and the shape of the pieces.
- `locator.dfy`:
  - the cursor prefix;
  - a scanner for the regular expression, with its declarative description (leftmost start, longest match, resume at the end) and the proof that the two agree;
  - `getNodeAtPosition` and what its result is;
  - lemmas that evaluate it on concrete buffers.
- `sample.dfy`: the default plugin of `pages/editor.tsx`, and what the locator answers at cursors inside it.
- `ast.dfy`: JavaScript values as the viewers see them: truthiness, property access and `===` against `activeNode`.
- `index_tree.dfy`: `getChildNodes(node, showAll)` and the `Tree`/`Node` projection of `pages/index.tsx`. Includes the round trip from the rendered view back to the value.
- `editor_tree.dfy`: `getChildNodes(node)` and the `Tree` of `pages/editor.tsx`. Includes the theorem that it is the index page's tree with labels dropped and non-node fields pruned.
- `locations.dfy`: the location-to-range map and `getLocations`, written as a loop over the traversal's events.
- `index_page.dfy` and `editor_page.dfy`: the two pages as classes whose fields are the React state.

The external libraries are function-typed constants of the page classes. These are `@babel/parser`'s `parse`, `@babel/traverse`, `transform` and Monaco's `deltaDecorations`.

The editor's text model appears as the plugin editor's text, a field set by `SetCode`. A reported cursor position is assumed valid: an existing line and a column up to one past its end. `getValueInRange` is modelled as joining the earlier lines and the cut cursor line with `"\n"`.

Where the AST page renders a leaf, it uses `JSON.stringify(node)`. The model keeps the value itself in the leaf.

## Model

| member | source | states |
|---|---|---|
| NodeLocator.CursorPrefix | pages/index.tsx:40-45 | the text of the range (1,1)-(line,column) is a prefix of the buffer: every earlier line in full and the cursor's line up to column-1 |
| NodeLocator.Lines | pages/index.tsx:40-45 | definition of the editor model's lines (the text split at `"\n"`); see `NodeLocator.CursorPrefix` |
| NodeLocator.ValidPosition | pages/index.tsx:196-197 | definition of a cursor position the editor reports: an existing line, a column up to one past its end; see `NodeLocator.CursorPrefix` |
| NodeLocator.Locate | pages/index.tsx:47-51 | definition: the last match of `/([A-Z][a-z0-9]+)+/g` in piece 1 of the split on the marker, none when that piece is missing or empty; its meaning is `NodeLocator.LocateIsLastMatch` |
| NodeLocator.NodeAtPosition | pages/index.tsx:39-52 | definition: the locator on the text before the cursor; the same function is pages/editor.tsx:42-55; its meaning is `NodeLocator.NoMarkerBeforeCursor` and the sample scenarios |
| NodeLocator.StartsGroup | pages/index.tsx:49 | definition: one group of `/([A-Z][a-z0-9]+)+/` can start here; see `NodeLocator.StartsGroupIffMatchable` |
| NodeLocator.RunEnd | pages/index.tsx:49 | definition of the greedy end of a match; see `NodeLocator.RunEndLongest` |
| NodeLocator.ScanFrom | pages/index.tsx:49 | definition of the global match scan as spans; see `NodeLocator.ScanCorrect` and `NodeLocator.MatchesUnique` |
| NodeLocator.Matches | pages/index.tsx:49 | definition of `nodes.match(/([A-Z][a-z0-9]+)+/g)`, with `null` (no match) as the empty list; see `NodeLocator.ScanCorrect` and `NodeLocator.LocateIsLastMatch` |
| Text.IndexFromSpec | pages/index.tsx:47 | the search finds the first occurrence of the separator at or after the start index, and reports none exactly when there is none |
| Text.Split | pages/index.tsx:47 | definition of `split` on a non-empty separator; its meaning is `Text.JoinSplit`, `Text.SplitPiecesFree` and `Text.SplitSingleIff` |
| Text.Join | pages/index.tsx:40-45 | definition of joining lines with the end-of-line text, as the editor builds the range text; its partner is `Text.JoinSplit` |
| Text.IndexFrom | pages/index.tsx:47 | the search inside `split`: a found index lies in the text at or after the start; its full meaning is `Text.IndexFromSpec` |
| Text.JoinSplit | pages/index.tsx:47 | joining the pieces of the split with the separator gives back the text |
| Text.SplitPiecesFree | pages/index.tsx:47 | no piece of the split contains the separator |
| Text.SplitSingleIff | pages/index.tsx:47 | the split has a single piece exactly when the separator does not occur |
| Text.SecondPiece | pages/index.tsx:47 | when the marker occurs, element 1 of the split is the text after the first marker up to the next marker, or up to the end |
| Text.SplitJoinChar | pages/editor.tsx:43-48 | splitting lines joined by a character that no line contains gives back the lines |
| NodeLocator.StartsGroupIffMatchable | pages/index.tsx:49 | a match of the pattern can start at an index exactly when an upper-case letter is followed by a lower-case letter or digit there |
| NodeLocator.RunEndLongest | pages/index.tsx:49 | from a match start the scanner stops at the end of the longest match (greedy `+`) |
| NodeLocator.ScanCorrect | pages/index.tsx:49 | the scanner's spans are the global matches: each starts at the leftmost possible index after the previous one, is the longest there, and the search resumes at its end, until no match is left |
| NodeLocator.MatchesUnique | pages/index.tsx:49 | that description of the global matches admits only one list |
| NodeLocator.LocateWithoutMarker | pages/index.tsx:47-48 | without `visitor: {` in the text there is no result |
| NodeLocator.LocateIsLastMatch | pages/index.tsx:47-50 | the result is the last global match in element 1 of the split; an empty element or one without matches gives no result |
| NodeLocator.LocateResultShape | pages/index.tsx:49-50 | a result is a word of `([A-Z][a-z0-9]+)+`, starts with an upper-case letter, has at least two characters and occurs in element 1 of the split |
| NodeLocator.LastSpanLongest | pages/index.tsx:49-50 | the returned match cannot be extended: it is the longest match at its start |
| NodeLocator.LocateAfterFirstMarker | pages/index.tsx:47-49 | a result occurs in the text after the end of the first marker, so a word before it (the `BabelPlugin` annotation of the default plugin) is never returned |
| NodeLocator.NoMarkerBeforeCursor | pages/editor.tsx:42-55 | with no `visitor: {` before the cursor, or none in the whole buffer, `getNodeAtPosition` gives `undefined` |
| NodeLocator.LastMatchAfterBreak | pages/editor.tsx:52-53 | text that ends in a character that cannot be part of a match does not change the last match of what follows it |
| NodeLocator.LocateLastWord | pages/editor.tsx:50-53 | when the first marker in the text is followed by a part with no further marker and a match, the result is the last match of that part |
| NodeLocator.MarkerOnceWithoutColon | pages/editor.tsx:50 | between two parts without a colon the marker is found once, right after the first part |
| EditorSample.SampleCodeLines | pages/editor.tsx:11-29 | the editor's lines of the default plugin are its nineteen source lines |
| EditorSample.CursorInIdentifierBody | pages/editor.tsx:23-25 | a cursor at the start of the empty line in the `Identifier(path)` body gives `"Identifier"` |
| EditorSample.CursorInVariableDeclarationBody | pages/editor.tsx:18-22 | a cursor at the start of the first line in the `VariableDeclaration(path)` body gives `"VariableDeclaration"` |
| EditorSample.CursorBeforeVisitor | pages/editor.tsx:11-17 | a cursor at the start of any of the first seven lines, before the marker, gives `undefined` |
| Ast.Lookup | pages/index.tsx:87 | a property read finds the first field with that name, and is `undefined` exactly when no field has it |
| Ast.Truthy | pages/index.tsx:61-63 | definition of JavaScript truthiness on the modelled values |
| Ast.Prop | pages/index.tsx:87 | definition of a property read, `undefined` for a missing key or a non-object; see `Ast.Lookup` |
| Ast.TypeTag | pages/index.tsx:94-95 | definition of `node.type`; see `Ast.Lookup` and `Ast.TypedIsObject` |
| Ast.Typed | pages/index.tsx:87 | definition: a truthy `type` property; `Ast.TypedIsObject` shows only objects have one |
| Ast.StrictEquals | pages/index.tsx:94 | definition of `activeNode === node.type`, `undefined === undefined` included |
| IndexTree.Filter | pages/index.tsx:59-64 | the filtered entries are exactly the entries holding a node or an array whose first element is a node |
| IndexTree.KeepsChild | pages/index.tsx:59-64 | definition of the filter callback; its meaning is `IndexTree.Filter` and `IndexTree.FilterSingle` |
| IndexTree.GetChildNodes | pages/index.tsx:54-65 | every entry returned is one of the node's entries |
| IndexTree.ShowAllKeepsEverything | pages/index.tsx:55-58 | with `showAll` every entry is returned, unchanged and in order |
| IndexTree.FilterAppend | pages/index.tsx:59-64 | filtering splits over concatenation, so the kept entries keep their order |
| IndexTree.FilterSingle | pages/index.tsx:59-64 | one entry is kept exactly when it holds a node or an array whose first element is a node |
| IndexTree.FilterIdentityIff | pages/index.tsx:59-64 | the filter returns all entries exactly when every entry holds a node or an array whose first element is a node |
| IndexTree.NodeRules | pages/index.tsx:76-104 | an array gives one subtree per element labelled 0..n-1 in order; a falsy or untyped value gives a leaf; a node shows its `type`, is active exactly when `activeNode` is that type string, and has one subtree per field labelled by the field name |
| IndexTree.Node | pages/index.tsx:76-104 | definition; its rules are `IndexTree.NodeRules` and its round trip `IndexTree.UnprojectNode` |
| IndexTree.Tree | pages/index.tsx:67-74 | definition: a label above the node's view; see `IndexTree.NodeRules` |
| IndexTree.UnprojectNode | pages/index.tsx:67-104 | the rendered view determines the value: reading it back gives the whole value, every field included |
| EditorTree.Values | pages/editor.tsx:58 | definition of `Object.values` on a node (the field values in field order); what the editor makes of it is stated by `EditorTree.ChildValuesMatchIndex` |
| EditorTree.KeptValues | pages/editor.tsx:58-64 | the kept values are exactly the nodes and the arrays whose first element is a node |
| EditorTree.GetChildNodes | pages/editor.tsx:57-65 | definition (`null` throws, an object gives its kept field values, a primitive none); its meaning is stated by `EditorTree.ChildValuesMatchIndex` and `EditorTree.TreeOnObject` |
| EditorTree.ChildValuesMatchIndex | pages/editor.tsx:57-65 | the editor's child values are the values of the entries the index page keeps when it hides non-node fields |
| EditorTree.AllRendered | pages/editor.tsx:70-74 | definition (a list of subtrees renders when each does); its meaning is stated by `EditorTree.TreeOnArray` and `EditorTree.TreeOnObject` |
| EditorTree.TreeOnArray | pages/editor.tsx:68-76 | an array renders as one unlabelled subtree per element, in order, and fails when any element fails |
| EditorTree.TreeOnObject | pages/editor.tsx:78-90 | an object is labelled with its `type`, is active exactly when `activeNode === tree.type` (including both `undefined`), and has one subtree per kept child value in order |
| EditorTree.TreeFromIndex | pages/editor.tsx:67-91 | the editor's tree is the index page's tree with the labels dropped and each node's non-node fields left out; where the index page shows a leaf, the editor renders that value with its own `Tree`: it expands an untyped object's node-valued fields and throws on `null` |
| EditorTree.Tree | pages/editor.tsx:67-91 | definition; its meaning is `EditorTree.TreeOnArray`, `EditorTree.TreeOnObject`, `EditorTree.TreeFromIndex` and `EditorTree.RendersUnlessNull` |
| EditorTree.NullFreeRenders | pages/editor.tsx:57-58 | a value with no `null` anywhere in it always renders |
| EditorTree.RendersUnlessNull | pages/editor.tsx:57-91 | rendering throws exactly when it reaches a `null`: the value itself, an array item, or a kept child value; a `null` in a dropped field is never reached |
| Locations.ToRange | pages/index.tsx:167-172 | definition (lines kept, columns +1); that it loses nothing is `Locations.FromRangeToRange` |
| Locations.ToRanges | pages/index.tsx:166-176 | definition (one range per location, in order); that it loses nothing is `Locations.ToRangesInjective` |
| Locations.FromRangeToRange | pages/index.tsx:167-172 | each location is recovered from its range |
| Locations.ToRangesInjective | pages/index.tsx:166-176 | different location lists give different range lists |
| Locations.ToRangesAppend | pages/index.tsx:166-176 | the ranges of concatenated location lists are the concatenated ranges |
| Locations.GetLocations | pages/index.tsx:122-134 | the result is the locations pushed before the traversal ends or first throws; it never throws itself |
| Locations.Collected | pages/index.tsx:122-134 | definition of what the traversal pushes; its meaning is `Locations.CollectedUntilFailure` and `Locations.CollectedIsPrefix` |
| Locations.CollectedUntilFailure | pages/index.tsx:125-131 | after a throw the result is exactly the locations pushed so far, in push order; a traversal without a throw gives every entered node's location |
| Locations.CollectedIsPrefix | pages/index.tsx:122-134 | the result lists the entered nodes' locations from the start of the traversal, in order |
| IndexPage.ExecOutput | pages/index.tsx:210-215 | definition: the code on success, the error's message on failure; its use is `IndexPage.Page.Exec` |
| IndexPage.ExecOutcome | pages/index.tsx:206-217 | definition of what `output` is after `exec` on a given input; stated for the page by `IndexPage.Page.Exec` |
| IndexPage.StaleShortcutInput | pages/index.tsx:189-195 | with an echo transform, `ExecOutcome` tells the input "a" from the input "b"; the capture itself is shown by `IndexPage.StaleShortcutOnPage` |
| IndexPage.StaleShortcutOnPage | pages/index.tsx:189-195 | on a page mounted with input "a" whose input is then edited to "b", Shift+Enter through `KeyDown` shows "a" and through `KeyDownCurrentInput` shows "b" |
| IndexPage.LocatedNodeHighlights | pages/index.tsx:160-161 | an active node type from the cursor is never empty, so the decoration effect runs for it |
| IndexPage.Highlighting | pages/index.tsx:161 | definition of `if (activeNode)`: set and not empty; see `IndexPage.LocatedNodeHighlights` |
| IndexPage.Page.constructor | pages/index.tsx:137-146 | empty output, no active node, the sample input, its parse as the tree, no decorations |
| IndexPage.Page.SetCode | pages/index.tsx:206-207 | the text of the mounted plugin editor, which `exec` reads, is edited and nothing else changes |
| IndexPage.Page.Mount | pages/index.tsx:182-222 | the plugin editor mounts with its text, and the key handler is registered once, closing over the input of that moment |
| IndexPage.Page.EditInput | pages/index.tsx:242 | the input becomes the new text, or `""` when there is none |
| IndexPage.Page.ParseEffect | pages/index.tsx:150-154 | a successful parse replaces the tree; a parse error keeps the previous tree |
| IndexPage.Page.Exec | pages/index.tsx:206-217 | with empty or missing plugin code nothing changes; otherwise `output` ends as the transform's output or its error's message; the default input is the current input, so `Exec(None)` is the Play button of line 272 |
| IndexPage.Page.InputSettled | pages/index.tsx:150-158 | the parse and exec effects on the settled input: the tree follows the parse, `output` follows `exec` |
| IndexPage.Page.CursorMoved | pages/index.tsx:196-203 | `activeNode` becomes the locator's answer for the new cursor position |
| IndexPage.Page.DecorationEffect | pages/index.tsx:160-180 | with a truthy `activeNode` the handles become `deltaDecorations` of the old handles and the ranges of the collected locations; otherwise they stay |
| IndexPage.Page.KeyDown | pages/index.tsx:189-195 | after the mount, Shift+Enter runs `exec` on the input captured at mount; any other key, or a key before the mount, changes nothing |
| IndexPage.Page.KeyDownCurrentInput | pages/index.tsx:189-195 | corrected shortcut: Shift+Enter does what the Play button does, running `exec` on the current input |
| IndexPage.RunShortcut | pages/index.tsx:191 | definition of the Shift+Enter test; used by `IndexPage.Page.KeyDown` |
| EditorPage.Page.constructor | pages/editor.tsx:110-113 | empty output, no active node, no editors mounted |
| EditorPage.Page.SetCode | pages/editor.tsx:115-116 | the plugin editor's text is set and nothing else changes |
| EditorPage.Page.SetInput | pages/editor.tsx:152 | the input editor's text is set and nothing else changes |
| EditorPage.Page.Exec | pages/editor.tsx:132-139 | `output` is cleared, then set to the transform's output; a thrown error propagates and leaves `output` cleared |
| EditorPage.Page.CursorMoved | pages/editor.tsx:122-129 | `activeNode` becomes the locator's answer for the new cursor position |
| EditorPage.Page.KeyDown | pages/editor.tsx:117-121 | once the plugin editor is mounted (the handler is registered in `handleMount`), `exec` runs exactly on Meta+Enter; then the result is the transform's when both editors are mounted and the not-mounted failure otherwise, and `output` is the transformed code on success and `""` on failure |
| EditorPage.RunShortcut | pages/editor.tsx:118 | definition of the Meta+Enter test; used by `EditorPage.Page.KeyDown` |
| EditorPage.Page.Shown | pages/editor.tsx:147 | definition: what the tree column shows for the current active node; see `EditorTree.RendersUnlessNull` |

## Left out

- Monaco, React and the DOM are not modelled. This covers editor widgets, rendering, effect scheduling, refs as such, `preventDefault`, themes, `prepareMonaco`, the extra type library and JSX layout. Each handler and effect is a method, and the caller chooses the order.
- The 500 ms `useDebounce` timer is not modelled. An input that settles is one step, `InputSettled`.
- An effect does not rerun by itself. `DecorationEffect` runs when the caller invokes it, for example after `CursorMoved` or `ParseEffect`.
- `@babel/parser`, `@babel/traverse`, `transform` (from `lib/useBabelPlugin`) and `deltaDecorations` are opaque function parameters. Each returns a success or failure.
- Babel's visitor aliases and its check of visitor keys are not modelled. A traversal is the list of events it produces.
- `console.log` at pages/editor.tsx:134 is I/O.
- Styled components, `CodeBlock`, the diff editor and the show-diff toggle are presentation only. The same goes for `pages/_app.tsx` and `components/CodeBlock.tsx`, which are not part of this model.
- The `AstTree` component rendered by `pages/index.tsx`, and `lib/visitorTypes`, are not part of this model. The local `Tree`/`Node` of that page are modelled.
- EditorTree.TreeFromIndex: the two trees are not the same view of every value. An untyped object that the index page shows as a JSON leaf (pages/index.tsx:87-88) is expanded by the editor through its node-valued fields (pages/editor.tsx:78-88), and a `null` that the index page shows as a leaf makes the editor throw. The lemma therefore relates the editor's tree to the index view with each leaf rendered by the editor's own `Tree`.
- JavaScript numbers are integers here, so floating point, `NaN` and `-0` are not modelled.
- `JSON.stringify` of a leaf is not modelled. The leaf holds the value.
- `undefined` as a field value is not modelled. Babel's `null` is.
- Object keys are not checked for uniqueness. A property read finds the first field with that name.
- Text is a sequence of characters. There is no UTF-16 code-unit indexing, and no CRLF end-of-line.
- `split` is modelled only for a non-empty separator. That is the only kind the pages use.
- A `node.loc` of `null`, which the decoration effect would throw on, is not modelled. Every entered node has a location.
- EditorPage.Page.Exec: the failure when an editor is not yet mounted carries a fixed message. What the JavaScript engine says is not modelled.
- `KeyDown` and `CursorMoved` are the handlers `handleMount` registers. On pages/index.tsx, `Mount` records the input the key handler closes over; on pages/editor.tsx the handlers read the editors' current text, so nothing is captured. `CursorMoved` requires the plugin editor to be mounted and the position to be valid in its text, which the editor guarantees for its own events.
- IndexPage.Page.Exec: a plugin that throws something other than an `Error` (such as a string) makes `(e as Error).message` `undefined`, so `output` becomes `undefined`; in the model a failure always carries a string message.
- IndexPage.Page.DecorationEffect: the effect throws when the input editor or `monacoRef` is not yet mounted; the model assumes both are mounted when it runs.

## Findings

| source | as written | input that shows it | evidently intended | confidence | as-written member | corrected member |
|---|---|---|---|---|---|---|
| pages/index.tsx:189-195 | the Shift+Enter handler is registered once, at mount, and calls `exec()` whose default argument is the `input` of that render | mount with input `"a"`, edit the input to `"b"`, press Shift+Enter: the transform runs on `"a"` (`IndexPage.StaleShortcutOnPage`, `IndexPage.StaleShortcutInput`) | Shift+Enter runs on the current input, like the Play button | not executed (medium) | IndexPage.Page.KeyDown (with IndexPage.StaleShortcutOnPage) | IndexPage.Page.KeyDownCurrentInput |
