/** The AST viewer of pages/index.tsx: which fields of a node are shown
    (`getChildNodes`) and the display tree that `Tree` and `Node` render. */
module IndexTree {
  import opened Results
  import opened Ast

  /** The filter callback of `getChildNodes` when not everything is shown:
      an array is kept when its first element is a node, anything else when
      it is itself a node. */
  predicate KeepsChild(v: Value) {
    match v
    case Arr(items) => |items| > 0 && Truthy(items[0]) && Typed(items[0])
    case _ => Truthy(v) && Typed(v)
  }

  /** The entries of `fields` whose value passes `KeepsChild`, in order. */
  function Filter(fields: seq<Field>): (kept: seq<Field>)
    ensures |kept| <= |fields|
    ensures forall f :: f in kept <==> f in fields && KeepsChild(f.value)
  {
    if fields == [] then []
    else (if KeepsChild(fields[0].value) then [fields[0]] else []) + Filter(fields[1..])
  }

  /** `getChildNodes(node, showAll)`: the `Object.entries` of the node, all
      of them or only the node-valued ones. */
  function GetChildNodes(fields: seq<Field>, showAll: bool): (entries: seq<Field>)
    ensures forall f :: f in entries ==> f in fields
  {
    if showAll then fields else Filter(fields)
  }

  /** With `showAll`, every entry is shown, unchanged and in order. */
  lemma ShowAllKeepsEverything(fields: seq<Field>)
    ensures GetChildNodes(fields, true) == fields
  {
  }

  /** The filter splits over concatenation, ... */
  lemma {:induction false} FilterAppend(a: seq<Field>, b: seq<Field>)
    ensures Filter(a + b) == Filter(a) + Filter(b)
    decreases |a|
  {
    if a == [] {
      assert a + b == b;
    } else {
      assert (a + b)[1..] == a[1..] + b;
      FilterAppend(a[1..], b);
    }
  }

  /** ... and on one entry keeps it exactly when it is node-valued, so the
      hidden-fields view is the order-preserving subsequence of the entries
      that hold nodes. */
  lemma FilterSingle(f: Field)
    ensures Filter([f]) == if KeepsChild(f.value) then [f] else []
  {
    assert [f][1..] == [];
  }

  /** Every entry is kept exactly when the filter leaves the list alone. */
  lemma {:induction false} FilterIdentityIff(fields: seq<Field>)
    ensures Filter(fields) == fields <==> forall i :: 0 <= i < |fields| ==> KeepsChild(fields[i].value)
    decreases |fields|
  {
    if fields != [] {
      FilterIdentityIff(fields[1..]);
      FilterIdentityStep(fields);
      AllKeptStep(fields);
    }
  }

  lemma FilterIdentityStep(fields: seq<Field>)
    requires fields != []
    ensures Filter(fields) == fields <==> KeepsChild(fields[0].value) && Filter(fields[1..]) == fields[1..]
  {
    var rest := fields[1..];
    if KeepsChild(fields[0].value) {
      assert Filter(fields) == [fields[0]] + Filter(rest);
      assert fields == [fields[0]] + rest;
      if Filter(fields) == fields {
        assert Filter(rest) == Filter(fields)[1..];
      }
    } else {
      assert |Filter(fields)| <= |rest|;
    }
  }

  lemma AllKeptStep(fields: seq<Field>)
    requires fields != []
    ensures (forall i :: 0 <= i < |fields| ==> KeepsChild(fields[i].value)) <==>
      KeepsChild(fields[0].value) && forall i :: 0 <= i < |fields[1..]| ==> KeepsChild(fields[1..][i].value)
  {
    assert forall i :: 1 <= i < |fields| ==> fields[i] == fields[1..][i - 1];
  }

  /** What a child of the viewer is labelled with: its array index or its
      field name. */
  datatype Label = Index(i: nat) | Key(k: string)

  /** What `Node` renders: a fragment of labelled subtrees for an array, a
      leaf showing the value itself for anything that is not a node, and for
      a node its type tag, whether it is highlighted, and its labelled
      children. */
  datatype View =
    | Fragment(items: seq<Entry>)
    | Leaf(value: Value)
    | NodeView(tag: Value, active: bool, children: seq<Entry>)

  /** What `Tree` renders: a label above a node's view. */
  datatype Entry = Entry(caption: Label, view: View)

  /** `Node({ node, activeNode })`. */
  function Node(v: Value, activeNode: Option<string>): View
    decreases v, 1
  {
    match v
    case Arr(items) =>
      Fragment(seq(|items|, i requires 0 <= i < |items| => Tree(Index(i), items[i], activeNode)))
    case Obj(fields) =>
      if !Typed(v) then Leaf(v)
      else
        var entries := GetChildNodes(fields, true);
        NodeView(TypeTag(v).value, StrictEquals(activeNode, TypeTag(v)),
          seq(|entries|, i requires 0 <= i < |entries| => Tree(Key(entries[i].key), entries[i].value, activeNode)))
    // `!node || !node.type`: a scalar is falsy or has no `type`
    case _ => Leaf(v)
  }

  /** `Tree({ tree, activeNode, label })`. */
  function Tree(caption: Label, v: Value, activeNode: Option<string>): Entry
    decreases v, 2
  {
    Entry(caption, Node(v, activeNode))
  }

  /** The projection rules: an array becomes one subtree per element,
      labelled by its index; a falsy or untyped value becomes a leaf; a node
      shows its type tag, is highlighted exactly when its type is the active
      node name, and has one subtree per field, labelled by the field name. */
  lemma NodeRules(v: Value, activeNode: Option<string>)
    ensures v.Arr? ==>
      Node(v, activeNode).Fragment? &&
      |Node(v, activeNode).items| == |v.items| &&
      forall i :: 0 <= i < |v.items| ==>
        Node(v, activeNode).items[i] == Entry(Index(i), Node(v.items[i], activeNode))
    ensures !v.Arr? && (!Truthy(v) || !Typed(v)) ==> Node(v, activeNode) == Leaf(v)
    ensures !v.Arr? && Truthy(v) && Typed(v) ==>
      var view := Node(v, activeNode);
      view.NodeView? && Some(view.tag) == TypeTag(v) &&
      (view.active <==> exists name :: activeNode == Some(name) && TypeTag(v) == Some(Str(name))) &&
      |view.children| == |v.fields| &&
      forall i :: 0 <= i < |v.fields| ==>
        view.children[i] == Entry(Key(v.fields[i].key), Node(v.fields[i].value, activeNode))
  {
    TypedIsObject(v);
  }

  /** The field name a child was shown under. */
  function KeyName(caption: Label): string {
    match caption
    case Key(k) => k
    case Index(_) => ""
  }

  /** The value a view displays, read back from the view. */
  function Unproject(view: View): Value
    decreases view
  {
    match view
    case Fragment(es) =>
      Arr(seq(|es|, i requires 0 <= i < |es| => Unproject(es[i].view)))
    case Leaf(w) => w
    case NodeView(_, _, es) =>
      Obj(seq(|es|, i requires 0 <= i < |es| => Field(KeyName(es[i].caption), Unproject(es[i].view))))
  }

  /** The viewer loses nothing: the whole value, every field of every node
      included, can be read back from what it renders. */
  lemma {:induction false} UnprojectNode(v: Value, activeNode: Option<string>)
    ensures Unproject(Node(v, activeNode)) == v
    decreases v
  {
    match v
    case Arr(items) =>
      forall i | 0 <= i < |items|
        ensures Unproject(Node(items[i], activeNode)) == items[i]
      {
        UnprojectNode(items[i], activeNode);
      }
    case Obj(fields) =>
      if Typed(v) {
        forall i | 0 <= i < |fields|
          ensures Unproject(Node(fields[i].value, activeNode)) == fields[i].value
        {
          UnprojectNode(fields[i].value, activeNode);
        }
      }
    case _ =>
  }
}
