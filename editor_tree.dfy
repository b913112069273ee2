/** The AST viewer of pages/editor.tsx: child values without their keys, and
    a tree that flattens arrays and drops labels. */
module EditorTree {
  import opened Results
  import opened Ast
  import opened IndexTree

  /** `Object.values` of an object. */
  function Values(fields: seq<Field>): (vs: seq<Value>)
    ensures |vs| == |fields| && forall i :: 0 <= i < |fields| ==> vs[i] == fields[i].value
  {
    seq(|fields|, i requires 0 <= i < |fields| => fields[i].value)
  }

  /** The values that pass the filter callback of `getChildNodes`, in order. */
  function KeptValues(vs: seq<Value>): (kept: seq<Value>)
    ensures |kept| <= |vs|
    ensures forall w :: w in kept <==> w in vs && KeepsChild(w)
  {
    if vs == [] then []
    else (if KeepsChild(vs[0]) then [vs[0]] else []) + KeptValues(vs[1..])
  }

  /** `getChildNodes(node)`: the node-valued property values, keys dropped;
      `None` where `Object.values` throws (on `null`). A primitive has
      no property that holds a node. */
  function GetChildNodes(v: Value): (r: Option<seq<Value>>)
    ensures r.None? <==> v == Null
    ensures v.Obj? ==> r == Some(KeptValues(Values(v.fields)))
    ensures v.Arr? ==> r == Some(KeptValues(v.items))
    ensures (v.Bool? || v.Num? || v.Str?) ==> r == Some([])
  {
    match v
    case Null => None
    case Arr(items) => Some(KeptValues(items))
    case Obj(fields) => Some(KeptValues(Values(fields)))
    case _ => Some([])
  }

  /** On an object, the editor keeps exactly the values of the entries the
      index page keeps when it hides non-node fields. */
  lemma {:induction false} ChildValuesMatchIndex(fields: seq<Field>)
    ensures KeptValues(Values(fields)) == Values(IndexTree.GetChildNodes(fields, false))
    decreases |fields|
  {
    if fields != [] {
      var rest := fields[1..];
      var head := if KeepsChild(fields[0].value) then [fields[0]] else [];
      ChildValuesMatchIndex(rest);
      KeptValuesStep(fields);
      assert Filter(fields) == head + Filter(rest);
      ValuesAppend(head, Filter(rest));
    }
  }

  lemma KeptValuesStep(fields: seq<Field>)
    requires fields != []
    ensures KeptValues(Values(fields)) ==
      Values(if KeepsChild(fields[0].value) then [fields[0]] else []) + KeptValues(Values(fields[1..]))
  {
    assert Values(fields)[1..] == Values(fields[1..]);
  }

  lemma ValuesAppend(a: seq<Field>, b: seq<Field>)
    ensures Values(a + b) == Values(a) + Values(b)
  {
  }

  /** What the editor's `Tree` renders: a flat forest for an array, and
      otherwise the `type` tag (`None` when there is none), whether it is
      highlighted, and the subtrees of the child nodes. */
  datatype EView =
    | Forest(trees: seq<EView>)
    | Labelled(tag: Option<Value>, active: bool, children: seq<EView>)

  /** The rendered subtrees, or `None` when any of them throws. */
  function AllRendered(ts: seq<Option<EView>>): (r: Option<seq<EView>>)
    ensures r.Some? <==> forall i :: 0 <= i < |ts| ==> ts[i].Some?
    ensures r.Some? ==> |r.value| == |ts| && forall i :: 0 <= i < |ts| ==> ts[i] == Some(r.value[i])
  {
    if forall i :: 0 <= i < |ts| ==> ts[i].Some? then
      Some(seq(|ts|, i requires 0 <= i < |ts| && ts[i].Some? => ts[i].value))
    else None
  }

  /** `Tree({ tree, activeNode })`; `None` when rendering throws. */
  function Tree(v: Value, activeNode: Option<string>): Option<EView>
    decreases v
  {
    match v
    case Arr(items) =>
      var ts := AllRendered(seq(|items|, i requires 0 <= i < |items| => Tree(items[i], activeNode)));
      if ts.Some? then Some(Forest(ts.value)) else None
    case Obj(fields) =>
      var kids := GetChildNodes(v).value;
      assert forall i :: 0 <= i < |kids| ==> kids[i] in Values(fields);
      var ts := AllRendered(seq(|kids|, i requires 0 <= i < |kids| => Tree(kids[i], activeNode)));
      if ts.Some? then Some(Labelled(TypeTag(v), StrictEquals(activeNode, TypeTag(v)), ts.value)) else None
    // `Object.values(null)` throws
    case Null => None
    // a primitive has no child nodes and no `type`
    case _ => Some(Labelled(TypeTag(v), StrictEquals(activeNode, TypeTag(v)), []))
  }

  /** The entries of an index view whose values the filter keeps. */
  function KeptEntries(es: seq<Entry>): (kept: seq<Entry>)
    ensures forall e :: e in kept ==> e in es
  {
    if es == [] then []
    else (if KeepsChild(Unproject(es[0].view)) then [es[0]] else []) + KeptEntries(es[1..])
  }

  /** The editor's rendering of the index page's view: labels dropped, and
      the children of a node pruned to the node-valued ones. Where the
      index page shows a leaf, the editor renders that value itself. */
  function FromIndex(view: View, activeNode: Option<string>): Option<EView>
    decreases view
  {
    match view
    case Fragment(es) =>
      var ts := AllRendered(seq(|es|, i requires 0 <= i < |es| => FromIndex(es[i].view, activeNode)));
      if ts.Some? then Some(Forest(ts.value)) else None
    case Leaf(w) => Tree(w, activeNode)
    case NodeView(tag, active, es) =>
      var kept := KeptEntries(es);
      assert forall i :: 0 <= i < |kept| ==> kept[i] in es;
      var ts := AllRendered(seq(|kept|, i requires 0 <= i < |kept| => FromIndex(kept[i].view, activeNode)));
      if ts.Some? then Some(Labelled(Some(tag), active, ts.value)) else None
  }

  ghost function Renders(es: seq<Entry>, activeNode: Option<string>): seq<Option<EView>> {
    seq(|es|, i requires 0 <= i < |es| => FromIndex(es[i].view, activeNode))
  }

  ghost function TreesOf(vs: seq<Value>, activeNode: Option<string>): seq<Option<EView>> {
    seq(|vs|, i requires 0 <= i < |vs| => Tree(vs[i], activeNode))
  }

  /** Pruning the index view's entries and rendering them is rendering the
      kept field values, once each entry renders as its field's value. */
  lemma {:induction false} PrunedChildren(fields: seq<Field>, es: seq<Entry>, activeNode: Option<string>)
    requires |es| == |fields|
    requires forall i :: 0 <= i < |es| ==> es[i].view == Node(fields[i].value, activeNode)
    requires forall i :: 0 <= i < |es| ==> FromIndex(es[i].view, activeNode) == Tree(fields[i].value, activeNode)
    ensures Renders(KeptEntries(es), activeNode) == TreesOf(KeptValues(Values(fields)), activeNode)
    decreases |es|
  {
    if es != [] {
      PrunedChildren(fields[1..], es[1..], activeNode);
      UnprojectNode(fields[0].value, activeNode);
      assert Values(fields)[1..] == Values(fields[1..]);
      var head := if KeepsChild(fields[0].value) then [es[0]] else [];
      var headV := if KeepsChild(fields[0].value) then [fields[0].value] else [];
      assert KeptEntries(es) == head + KeptEntries(es[1..]);
      assert KeptValues(Values(fields)) == headV + KeptValues(Values(fields[1..]));
      RendersAppend(head, KeptEntries(es[1..]), activeNode);
      TreesOfAppend(headV, KeptValues(Values(fields[1..])), activeNode);
    }
  }

  lemma RendersAppend(a: seq<Entry>, b: seq<Entry>, activeNode: Option<string>)
    ensures Renders(a + b, activeNode) == Renders(a, activeNode) + Renders(b, activeNode)
  {
  }

  lemma TreesOfAppend(a: seq<Value>, b: seq<Value>, activeNode: Option<string>)
    ensures TreesOf(a + b, activeNode) == TreesOf(a, activeNode) + TreesOf(b, activeNode)
  {
  }

  /** The editor's tree is the index page's tree with the index and field
      labels dropped and every node's non-node fields left out; where the
      index page shows a leaf, the editor renders that value with its own
      `Tree`, expanding an untyped object's node-valued fields and failing
      on `null`. */
  lemma {:induction false} TreeFromIndex(v: Value, activeNode: Option<string>)
    ensures Tree(v, activeNode) == FromIndex(Node(v, activeNode), activeNode)
    decreases v
  {
    match v
    case Arr(items) =>
      forall i | 0 <= i < |items|
        ensures Tree(items[i], activeNode) == FromIndex(Node(items[i], activeNode), activeNode)
      {
        TreeFromIndex(items[i], activeNode);
      }
      ArrayFromIndex(items, activeNode);
    case Obj(fields) =>
      if Typed(v) {
        forall i | 0 <= i < |fields|
          ensures Tree(fields[i].value, activeNode) == FromIndex(Node(fields[i].value, activeNode), activeNode)
        {
          assert fields[i].value in Values(fields);
          TreeFromIndex(fields[i].value, activeNode);
        }
        NodeFromIndex(fields, activeNode);
      } else {
        NodeRules(v, activeNode);
      }
    case _ =>
      NodeRules(v, activeNode);
  }

  /** An array, once each of its items is rendered alike by both pages. */
  lemma ArrayFromIndex(items: seq<Value>, activeNode: Option<string>)
    requires forall i :: 0 <= i < |items| ==>
      Tree(items[i], activeNode) == FromIndex(Node(items[i], activeNode), activeNode)
    ensures Tree(Arr(items), activeNode) == FromIndex(Node(Arr(items), activeNode), activeNode)
  {
    var v := Arr(items);
    NodeRules(v, activeNode);
    var es := Node(v, activeNode).items;
    assert Renders(es, activeNode) == TreesOf(items, activeNode);
  }

  /** A node, once each of its field values is rendered alike by both pages. */
  lemma NodeFromIndex(fields: seq<Field>, activeNode: Option<string>)
    requires Typed(Obj(fields))
    requires forall i :: 0 <= i < |fields| ==>
      Tree(fields[i].value, activeNode) == FromIndex(Node(fields[i].value, activeNode), activeNode)
    ensures Tree(Obj(fields), activeNode) == FromIndex(Node(Obj(fields), activeNode), activeNode)
  {
    var v := Obj(fields);
    NodeRules(v, activeNode);
    TypedIsObject(v);
    var es := Node(v, activeNode).children;
    PrunedChildren(fields, es, activeNode);
    TreeOnObjectUnfold(fields, activeNode);
  }

  /** An array renders as one unlabelled subtree per element, in order, and
      fails as soon as one element fails. */
  lemma TreeOnArray(items: seq<Value>, activeNode: Option<string>)
    ensures Tree(Arr(items), activeNode).Some? <==>
      forall i :: 0 <= i < |items| ==> Tree(items[i], activeNode).Some?
    ensures Tree(Arr(items), activeNode).Some? ==>
      var view := Tree(Arr(items), activeNode).value;
      view.Forest? && |view.trees| == |items| &&
      forall i :: 0 <= i < |items| ==> Tree(items[i], activeNode) == Some(view.trees[i])
  {
    var ts := seq(|items|, i requires 0 <= i < |items| => Tree(items[i], activeNode));
    assert forall i :: 0 <= i < |items| ==> ts[i] == Tree(items[i], activeNode);
    var r := AllRendered(ts);
    assert Tree(Arr(items), activeNode) == if r.Some? then Some(Forest(r.value)) else None;
  }

  /** An object renders its `type` as the label, is highlighted exactly when
      `activeNode === tree.type`, and has one subtree per kept child value. */
  lemma TreeOnObject(fields: seq<Field>, activeNode: Option<string>)
    ensures var kids := KeptValues(Values(fields));
      Tree(Obj(fields), activeNode).Some? <==>
      forall i :: 0 <= i < |kids| ==> Tree(kids[i], activeNode).Some?
    ensures var kids := KeptValues(Values(fields));
      Tree(Obj(fields), activeNode).Some? ==>
      var view := Tree(Obj(fields), activeNode).value;
      view.Labelled? && view.tag == Lookup(fields, "type") &&
      (view.active <==> (activeNode.None? && Lookup(fields, "type").None?) ||
                        (activeNode.Some? && Lookup(fields, "type") == Some(Str(activeNode.value)))) &&
      |view.children| == |kids| &&
      forall i :: 0 <= i < |kids| ==> Tree(kids[i], activeNode) == Some(view.children[i])
  {
    var kids := KeptValues(Values(fields));
    TreeOnObjectUnfold(fields, activeNode);
    var ts := TreesOf(kids, activeNode);
    assert forall i :: 0 <= i < |kids| ==> ts[i] == Tree(kids[i], activeNode);
  }

  lemma TreeOnObjectUnfold(fields: seq<Field>, activeNode: Option<string>)
    ensures var r := AllRendered(TreesOf(KeptValues(Values(fields)), activeNode));
      Tree(Obj(fields), activeNode) ==
        if r.Some? then
          Some(Labelled(Lookup(fields, "type"), StrictEquals(activeNode, Lookup(fields, "type")), r.value))
        else None
  {
    var v := Obj(fields);
    var kids := KeptValues(Values(fields));
    assert GetChildNodes(v).value == kids;
    assert seq(|kids|, i requires 0 <= i < |kids| => Tree(kids[i], activeNode)) == TreesOf(kids, activeNode);
  }

  /** No `null` anywhere inside. */
  ghost predicate NullFree(v: Value)
    decreases v
  {
    match v
    case Null => false
    case Arr(items) => forall i :: 0 <= i < |items| ==> NullFree(items[i])
    case Obj(fields) => forall i :: 0 <= i < |fields| ==> NullFree(fields[i].value)
    case _ => true
  }

  /** Rendering throws only by reaching a `null`: a value without one always
      renders. */
  lemma {:induction false} NullFreeRenders(v: Value, activeNode: Option<string>)
    requires NullFree(v)
    ensures Tree(v, activeNode).Some?
    decreases v
  {
    match v
    case Arr(items) =>
      forall i | 0 <= i < |items|
        ensures Tree(items[i], activeNode).Some?
      {
        NullFreeRenders(items[i], activeNode);
      }
    case Obj(fields) =>
      var kids := KeptValues(Values(fields));
      forall i | 0 <= i < |kids|
        ensures Tree(kids[i], activeNode).Some?
      {
        assert kids[i] in Values(fields);
        var j :| 0 <= j < |fields| && Values(fields)[j] == kids[i];
        NullFreeRenders(kids[i], activeNode);
      }
    case _ =>
  }

  /** A `null` on the path rendering takes: the value itself, an array
      item, or a kept child value of an object. */
  ghost predicate ReachesNull(v: Value)
    decreases v
  {
    match v
    case Null => true
    case Arr(items) => exists i :: 0 <= i < |items| && ReachesNull(items[i])
    case Obj(fields) =>
      var kids := KeptValues(Values(fields));
      assert forall i :: 0 <= i < |kids| ==> kids[i] in Values(fields);
      exists i :: 0 <= i < |kids| && ReachesNull(kids[i])
    case _ => false
  }

  /** Rendering throws exactly when it reaches a `null`; a `null` in a field
      the filter drops is never reached. */
  lemma {:induction false} RendersUnlessNull(v: Value, activeNode: Option<string>)
    ensures Tree(v, activeNode).None? <==> ReachesNull(v)
    decreases v
  {
    match v
    case Arr(items) =>
      forall i | 0 <= i < |items|
        ensures Tree(items[i], activeNode).None? <==> ReachesNull(items[i])
      {
        RendersUnlessNull(items[i], activeNode);
      }
      TreeOnArray(items, activeNode);
    case Obj(fields) =>
      var kids := KeptValues(Values(fields));
      forall i | 0 <= i < |kids|
        ensures Tree(kids[i], activeNode).None? <==> ReachesNull(kids[i])
      {
        assert kids[i] in Values(fields);
        RendersUnlessNull(kids[i], activeNode);
      }
      TreeOnObject(fields, activeNode);
    case Null =>
    case Bool(_) =>
    case Num(_) =>
    case Str(_) =>
  }
}
