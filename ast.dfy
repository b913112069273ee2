/** The JavaScript values that the playground's AST viewers walk: what
    `@babel/parser` produces, seen through `Object.entries` and property
    access. */
module Ast {
  import opened Results

  /** A JavaScript value. Numbers are integers here; the order of an object's
      fields is the order in which `Object.entries` lists them. */
  datatype Value =
    | Null
    | Bool(b: bool)
    | Num(n: int)
    | Str(s: string)
    | Arr(items: seq<Value>)
    | Obj(fields: seq<Field>)

  /** One own enumerable property of an object. */
  datatype Field = Field(key: string, value: Value)

  /** JavaScript truthiness: `null`, `false`, `0` and `""` are falsy. */
  predicate Truthy(v: Value) {
    match v
    case Null => false
    case Bool(b) => b
    case Num(n) => n != 0
    case Str(s) => s != ""
    case Arr(_) => true
    case Obj(_) => true
  }

  /** The value stored under `key`, if a field has it. */
  function Lookup(fields: seq<Field>, key: string): (r: Option<Value>)
    ensures r.Some? <==> exists i :: 0 <= i < |fields| && fields[i].key == key
    ensures r.Some? ==> exists i :: 0 <= i < |fields| && fields[i] == Field(key, r.value) &&
                                    (forall j :: 0 <= j < i ==> fields[j].key != key)
  {
    if fields == [] then None
    else if fields[0].key == key then Some(fields[0].value)
    else
      var r := Lookup(fields[1..], key);
      assert forall i :: 1 <= i < |fields| ==> fields[i] == fields[1..][i - 1];
      r
  }

  /** Property access `v[key]`, with `None` for `undefined`. Only objects
      carry properties named like AST fields. */
  function Prop(v: Value, key: string): Option<Value> {
    match v
    case Obj(fields) => Lookup(fields, key)
    case _ => None
  }

  /** The node's `type` tag, `v.type`. */
  function TypeTag(v: Value): Option<Value> {
    Prop(v, "type")
  }

  /** `Boolean(v.type)`: the value is an AST node. */
  predicate Typed(v: Value) {
    TypeTag(v).Some? && Truthy(TypeTag(v).value)
  }

  /** `activeNode === t`, where `activeNode` is a string or `undefined` and
      `t` is a property value or `undefined`. */
  predicate StrictEquals(activeNode: Option<string>, t: Option<Value>) {
    match activeNode
    case None => t.None?
    case Some(name) => t == Some(Str(name))
  }

  /** A typed value is a truthy object. */
  lemma TypedIsObject(v: Value)
    ensures Typed(v) ==> v.Obj? && Truthy(v)
  {
  }
}
