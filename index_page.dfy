/** The state of the playground page of pages/index.tsx and the steps that
    change it: the settled input being parsed and run, the plugin being
    run, the cursor moving in the plugin editor, and the highlighting of the
    active node type in the input editor. */
module IndexPage {
  import opened Results
  import opened Ast
  import opened NodeLocator
  import opened Locations

  /** The keyboard shortcut that runs the plugin: Shift+Enter. */
  predicate RunShortcut(code: string, shiftKey: bool) {
    shiftKey && code == "Enter"
  }

  /** What `exec` leaves in `output`: the transformed code, or the message
      of the error the transform threw. */
  function ExecOutput(r: Result<string>): (out: string)
    ensures r.Success? ==> out == r.value
    ensures r.Failure? ==> out == r.message
  {
    match r
    case Success(code) => code
    case Failure(message) => message
  }

  /** What `output` is after `exec` runs `plugin` on `source`: unchanged
      when the plugin editor is not mounted or empty, otherwise the
      transformed code or the error's message. */
  function ExecOutcome(output: string, plugin: Option<string>, source: string,
                       transform: (string, string) -> Result<string>): string
  {
    if plugin.None? || plugin.value == "" then output
    else ExecOutput(transform(source, plugin.value))
  }

  /** With a transform that returns its input, the outcome of `exec`
      tells the input "a" from the input "b"; `StaleShortcutOnPage` shows
      the handler captured at mount running on the first of the two. */
  lemma StaleShortcutInput()
    ensures var echo := (source: string, plugin: string) => Success(source);
      ExecOutcome("", Some("p"), "a", echo) == "a" &&
      ExecOutcome("", Some("p"), "b", echo) == "b"
  {
  }

  /** `activeNode` is set and not empty. */
  predicate Highlighting(activeNode: Option<string>) {
    activeNode.Some? && activeNode.value != ""
  }

  /** The cursor either clears the active node type or sets one that the
      decoration effect acts on: a located name is never empty. */
  lemma LocatedNodeHighlights(text: string, position: Position)
    requires ValidPosition(text, position)
    ensures NodeAtPosition(text, position).Some? ==> Highlighting(NodeAtPosition(text, position))
  {
    LocateResultShape(CursorPrefix(text, position));
  }

  class Page {
    /** `@babel/parser`'s `parse`: the AST, or the syntax error. */
    const parse: string -> Result<Value>
    /** `transform(input, plugin)`: the transformed input, or the error. */
    const transform: (string, string) -> Result<string>
    /** What `@babel/traverse` does on a tree with a visitor for one node type. */
    const traverse: (Value, string) -> seq<TraverseEvent>
    /** The input editor's `deltaDecorations(old, ranges)`: the new handles. */
    const deltaDecorations: (seq<string>, seq<Range>) -> seq<string>

    /** The `output` state. */
    var output: string
    /** The `activeNode` state. */
    var activeNode: Option<string>
    /** The `input` state: the input editor's text. */
    var input: string
    /** The `tree` state: the last AST parsed from the settled input. */
    var tree: Value
    /** `decorationRefs.current`: the handles of the current highlighting. */
    var decorations: seq<string>
    /** The plugin editor's text, once it is mounted (`editorRef.current`). */
    var code: Option<string>
    /** The `input` that the Shift+Enter handler closes over: `handleMount`
        registers it once, when the plugin editor mounts, with the `exec`
        of that render; `None` before the mount. */
    var shortcutInput: Option<string>

    /** The page as first rendered: the sample input, parsed. */
    constructor(parse: string -> Result<Value>, transform: (string, string) -> Result<string>,
                traverse: (Value, string) -> seq<TraverseEvent>,
                deltaDecorations: (seq<string>, seq<Range>) -> seq<string>,
                inputCode: string)
      requires parse(inputCode).Success?
      ensures this.parse == parse && this.transform == transform
      ensures this.traverse == traverse && this.deltaDecorations == deltaDecorations
      ensures output == "" && activeNode == None && input == inputCode
      ensures tree == parse(inputCode).value && decorations == [] && code == None
      ensures shortcutInput == None
    {
      this.parse := parse;
      this.transform := transform;
      this.traverse := traverse;
      this.deltaDecorations := deltaDecorations;
      output := "";
      activeNode := None;
      input := inputCode;
      tree := parse(inputCode).value;
      decorations := [];
      code := None;
      shortcutInput := None;
    }

    /** `handleMount`: the plugin editor mounts holding `text`, and the key
        handler is registered with the current input. */
    method Mount(text: string)
      requires shortcutInput.None?
      modifies this
      ensures code == Some(text) && shortcutInput == Some(old(input))
      ensures output == old(output) && activeNode == old(activeNode) && input == old(input)
      ensures tree == old(tree) && decorations == old(decorations)
    {
      code := Some(text);
      shortcutInput := Some(input);
    }

    /** The mounted plugin editor's text is edited to `text`. */
    method SetCode(text: string)
      requires shortcutInput.Some?
      modifies this
      ensures code == Some(text)
      ensures output == old(output) && activeNode == old(activeNode) && input == old(input)
      ensures tree == old(tree) && decorations == old(decorations)
      ensures shortcutInput == old(shortcutInput)
    {
      code := Some(text);
    }

    /** The input editor's `onChange`: `setInput(newCode ?? "")`. */
    method EditInput(newCode: Option<string>)
      modifies this
      ensures input == (if newCode.Some? then newCode.value else "")
      ensures output == old(output) && activeNode == old(activeNode) && tree == old(tree)
      ensures decorations == old(decorations) && code == old(code)
      ensures shortcutInput == old(shortcutInput)
    {
      input := if newCode.Some? then newCode.value else "";
    }

    /** The parse effect on the settled input: a syntax error keeps the
        previous tree. */
    method ParseEffect(settled: string)
      modifies this
      ensures parse(settled).Success? ==> tree == parse(settled).value
      ensures parse(settled).Failure? ==> tree == old(tree)
      ensures output == old(output) && activeNode == old(activeNode) && input == old(input)
      ensures decorations == old(decorations) && code == old(code)
      ensures shortcutInput == old(shortcutInput)
    {
      var r := parse(settled);
      if r.Success? {
        tree := r.value;
      }
    }

    /** `exec(inputCode = input)`: with no plugin code nothing happens;
        otherwise `output` ends as the transformed input or as the error's
        message. The Play button is `Exec(None)`. */
    method Exec(inputCode: Option<string>)
      modifies this
      ensures output == ExecOutcome(old(output), code,
                                    if inputCode.Some? then inputCode.value else old(input), transform)
      ensures activeNode == old(activeNode) && input == old(input) && tree == old(tree)
      ensures decorations == old(decorations) && code == old(code)
      ensures shortcutInput == old(shortcutInput)
    {
      var source := if inputCode.Some? then inputCode.value else input;
      if code.Some? && code.value != "" {
        output := "";
        var r := transform(source, code.value);
        match r
        case Success(out) =>
          output := out;
        case Failure(message) =>
          output := message;
      }
    }

    /** The input settles (the debounce fires): the parse effect and then
        the exec effect, both on the settled input. */
    method InputSettled()
      modifies this
      ensures parse(old(input)).Success? ==> tree == parse(old(input)).value
      ensures parse(old(input)).Failure? ==> tree == old(tree)
      ensures output == ExecOutcome(old(output), code, old(input), transform)
      ensures activeNode == old(activeNode) && input == old(input)
      ensures decorations == old(decorations) && code == old(code)
      ensures shortcutInput == old(shortcutInput)
    {
      var settled := input;
      ParseEffect(settled);
      Exec(Some(settled));
    }

    /** The plugin editor's cursor moves: the node type it is in becomes
        the active one. */
    method CursorMoved(position: Position)
      requires code.Some? && ValidPosition(code.value, position)
      modifies this
      ensures code == old(code)
      ensures activeNode == NodeAtPosition(code.value, position)
      ensures output == old(output) && input == old(input) && tree == old(tree)
      ensures decorations == old(decorations) && shortcutInput == old(shortcutInput)
    {
      activeNode := NodeAtPosition(code.value, position);
    }

    /** The decoration effect: with an active node type, its locations in
        the tree replace the highlighting; otherwise the old handles stay. */
    method DecorationEffect()
      modifies this
      ensures Highlighting(activeNode) ==>
        decorations == deltaDecorations(old(decorations),
                                        ToRanges(Collected(traverse(tree, activeNode.value))))
      ensures !Highlighting(activeNode) ==> decorations == old(decorations)
      ensures output == old(output) && activeNode == old(activeNode) && input == old(input)
      ensures tree == old(tree) && code == old(code) && shortcutInput == old(shortcutInput)
    {
      if Highlighting(activeNode) {
        var locs := GetLocations(traverse(tree, activeNode.value));
        decorations := deltaDecorations(decorations, ToRanges(locs));
      }
    }

    /** A key press in the plugin editor, as `handleMount` registers it:
        Shift+Enter runs the plugin on the input captured at mount, not on
        the current one; any other key, or a key before the mount, changes
        nothing. */
    method KeyDown(key: string, shiftKey: bool)
      modifies this
      ensures RunShortcut(key, shiftKey) && shortcutInput.Some? ==>
        output == ExecOutcome(old(output), code, shortcutInput.value, transform)
      ensures !RunShortcut(key, shiftKey) || shortcutInput.None? ==> output == old(output)
      ensures activeNode == old(activeNode) && input == old(input) && tree == old(tree)
      ensures decorations == old(decorations) && code == old(code)
      ensures shortcutInput == old(shortcutInput)
    {
      if RunShortcut(key, shiftKey) && shortcutInput.Some? {
        Exec(shortcutInput);
      }
    }

    /** Shift+Enter as evidently intended: it does what the Play button
        does, running the plugin on the current input. */
    method KeyDownCurrentInput(key: string, shiftKey: bool)
      modifies this
      ensures RunShortcut(key, shiftKey) && shortcutInput.Some? ==>
        output == ExecOutcome(old(output), code, old(input), transform)
      ensures !RunShortcut(key, shiftKey) || shortcutInput.None? ==> output == old(output)
      ensures activeNode == old(activeNode) && input == old(input) && tree == old(tree)
      ensures decorations == old(decorations) && code == old(code)
      ensures shortcutInput == old(shortcutInput)
    {
      if RunShortcut(key, shiftKey) && shortcutInput.Some? {
        Exec(None);
      }
    }
  }

  /** The stale shortcut on a page: mount with the input "a", edit the
      input to "b", then press Shift+Enter with a transform that returns
      its input. The handler as registered shows "a"; the shortcut run on
      the current input shows "b". */
  method StaleShortcutOnPage() returns (shortcut: string, current: string)
    ensures shortcut == "a" && current == "b"
  {
    var page := new Page(s => Success(Null), (source: string, plugin: string) => Success(source),
                         (v: Value, t: string) => [], (d: seq<string>, r: seq<Range>) => d, "a");
    page.Mount("p");
    page.EditInput(Some("b"));
    page.KeyDown("Enter", true);
    shortcut := page.output;
    page.KeyDownCurrentInput("Enter", true);
    current := page.output;
  }
}
