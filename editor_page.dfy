/** The state of the plugin editor page of pages/editor.tsx: running the
    plugin, the Cmd+Enter shortcut, and the cursor choosing the node type
    highlighted in the tree of the fixed input. */
module EditorPage {
  import opened Results
  import opened Ast
  import opened NodeLocator
  import opened EditorTree

  /** The keyboard shortcut that runs the plugin: Meta+Enter. */
  predicate RunShortcut(code: string, metaKey: bool) {
    metaKey && code == "Enter"
  }

  /** What reading an editor's text before that editor is mounted throws. */
  const NotMounted: string := "Cannot read properties of undefined (reading 'getValue')"

  class Page {
    /** `transform(input, plugin)`: the transformed input, or the error. */
    const transform: (string, string) -> Result<string>
    /** `parse(input).program`, parsed once when the page loads. */
    const program: Value

    /** The `output` state. */
    var output: string
    /** The `activeNode` state. */
    var activeNode: Option<string>
    /** The plugin editor's text, once it is mounted (`editorRef.current`). */
    var code: Option<string>
    /** The input editor's text, once it is mounted (`inputEditorRef.current`). */
    var input: Option<string>

    constructor(transform: (string, string) -> Result<string>, program: Value)
      ensures this.transform == transform && this.program == program
      ensures output == "" && activeNode == None && code == None && input == None
    {
      this.transform := transform;
      this.program := program;
      output := "";
      activeNode := None;
      code := None;
      input := None;
    }

    /** What the page shows in its tree column; `None` when rendering the
        tree throws. */
    function Shown(): Option<EView>
      reads this
    {
      Tree(program, activeNode)
    }

    /** The plugin editor is mounted with, or edited to, `text`. */
    method SetCode(text: string)
      modifies this
      ensures code == Some(text)
      ensures output == old(output) && activeNode == old(activeNode) && input == old(input)
    {
      code := Some(text);
    }

    /** The input editor is mounted with, or edited to, `text`. */
    method SetInput(text: string)
      modifies this
      ensures input == Some(text)
      ensures output == old(output) && activeNode == old(activeNode) && code == old(code)
    {
      input := Some(text);
    }

    /** `exec()`: clears `output`, then runs the plugin on the input. A
        thrown error is not caught: it is the result, and `output` stays
        cleared. */
    method Exec() returns (r: Result<string>)
      modifies this
      ensures code.None? || input.None? ==> r == Failure(NotMounted) && output == ""
      ensures code.Some? && input.Some? ==>
        r == transform(input.value, code.value) &&
        output == (if r.Success? then r.value else "")
      ensures activeNode == old(activeNode) && code == old(code) && input == old(input)
    {
      output := "";
      if code.None? || input.None? {
        return Failure(NotMounted);
      }
      r := transform(input.value, code.value);
      if r.Success? {
        output := r.value;
      }
    }

    /** The plugin editor's cursor moves: the node type it is in becomes
        the active one. */
    method CursorMoved(position: Position)
      requires code.Some? && ValidPosition(code.value, position)
      modifies this
      ensures code == old(code)
      ensures activeNode == NodeAtPosition(code.value, position)
      ensures output == old(output) && input == old(input)
    {
      activeNode := NodeAtPosition(code.value, position);
    }

    /** A key press in the plugin editor, whose handler exists once that
        editor is mounted: Meta+Enter runs the plugin and yields what
        `exec` yields; any other key does nothing. */
    method KeyDown(key: string, metaKey: bool) returns (r: Option<Result<string>>)
      requires code.Some?
      modifies this
      ensures r.Some? <==> RunShortcut(key, metaKey)
      ensures r.Some? && code.Some? && input.Some? ==> r.value == transform(input.value, code.value)
      ensures r.Some? && (code.None? || input.None?) ==> r.value == Failure(NotMounted)
      ensures r.Some? ==> output == (if r.value.Success? then r.value.value else "")
      ensures r.None? ==> output == old(output)
      ensures activeNode == old(activeNode) && code == old(code) && input == old(input)
    {
      if RunShortcut(key, metaKey) {
        var e := Exec();
        r := Some(e);
      } else {
        r := None;
      }
    }
  }
}
