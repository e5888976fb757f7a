/**
 A GDB/MI record as the variable-object model sees it. The record parser is
 not part of this model: a parsed node is represented only by its
 lookup by key from result names to values, which is all that
 `MINode.valueOf` offers its callers here.
 */
module MI {
  import opened Wrappers

  /** A GDB/MI value: a c-string, a tuple of named results, or a list. */
  datatype Value =
    | Const(text: string)
    | Tuple(results: seq<(string, Value)>)
    | List(items: seq<Value>)

  /** A parsed result or async record, seen through its result lookup. */
  datatype Node = Node(results: map<string, Value>)

  /** `MINode.valueOf(node, key)`: the value reported under `key`, or `None`
      when the debugger omitted the field. */
  function ValueOf(node: Node, key: string): (r: Option<Value>)
    ensures r.Some? <==> key in node.results
    ensures r.Some? ==> r.value == node.results[key]
  {
    if key in node.results then Some(node.results[key]) else None
  }

  /** JavaScript's `!!` applied to a lookup result. `undefined` and the empty
      string are falsy; every other string, including "0", and every tuple or
      list (an object) is truthy. */
  function Truthy(v: Option<Value>): (b: bool)
    ensures b <==> v.Some? && v.value != Const("")
    ensures v == Some(Const("0")) ==> b
  {
    match v
    case None => false
    case Some(Const(s)) => |s| > 0
    case Some(_) => true
  }

  /** The node reports `key` with a truthy value. */
  predicate Flag(node: Node, key: string) {
    Truthy(ValueOf(node, key))
  }
}
