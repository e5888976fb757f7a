/**
 The extension's record of one GDB/MI variable object (`VariableObject`) and
 the protocol error it raises (`MIError`), as pure functions over immutable
 values. The source mutates a `VariableObject` in place; here each mutation
 returns the updated record.
 */
module Backend {
  import opened Wrappers
  import opened MI

  /** The placeholder GDB prints as the value of an aggregate whose members are elided. */
  const ElidedValue: Value := Const("{...}")

  /** The front-end's display value for an object without a value. */
  const UnknownValue: Value := Const("<unknown>")

  /** The string-to-number conversion applied to a reported `numchild`
      (JavaScript's `parseInt`); `None` is NaN. */
  type NumberParser = Value -> Option<int>

  /** One variable object. Every field copied from a node keeps the lookup
      result as it is, so an omitted field is `None`; `numchild` is `None`
      when the conversion gave NaN. `id` is the front-end handle. */
  datatype VariableObject = VariableObject(
    name: Option<Value>,
    exp: Option<Value>,
    numchild: Option<int>,
    valueType: Option<Value>,
    value: Option<Value>,
    threadId: Option<Value>,
    frozen: bool,
    dynamic: bool,
    displayhint: Option<Value>,
    hasMore: bool,
    id: int)

  /** The front-end's variable (`DebugProtocol.Variable`), restricted to the
      five fields the projection fills. */
  datatype ProtocolVariable = ProtocolVariable(
    name: Option<Value>,
    evaluateName: Option<Value>,
    value: Value,
    valueType: Option<Value>,
    variablesReference: int)

  /** The fields an update never touches: the MI identity, the expression,
      the child count, the thread, the frozen flag and the front-end handle. */
  predicate SameIdentity(v: VariableObject, w: VariableObject) {
    && w.name == v.name
    && w.exp == v.exp
    && w.numchild == v.numchild
    && w.threadId == v.threadId
    && w.frozen == v.frozen
    && w.id == v.id
  }

  /** The fields an update overwrites without falling back to old values all
      come from `node`. */
  predicate MirrorsUpdate(w: VariableObject, node: Node) {
    && w.value == ValueOf(node, "value")
    && w.displayhint == ValueOf(node, "displayhint")
    && w.dynamic == Flag(node, "dynamic")
    && w.hasMore == Flag(node, "has_more")
  }

  /** The update node announces a new type. */
  predicate TypeChanged(node: Node) {
    Flag(node, "type_changed")
  }

  /** The child count is a number greater than zero (NaN never is). */
  predicate HasChildren(v: VariableObject) {
    v.numchild.Some? && v.numchild.value > 0
  }

  /** The variable object built from a `-var-create` or child-listing node. */
  function FromNode(node: Node, parseInt: NumberParser): (v: VariableObject)
    ensures v.id == 0
    ensures v.name == ValueOf(node, "name") && v.exp == ValueOf(node, "exp")
    ensures v.valueType == ValueOf(node, "type") && v.value == ValueOf(node, "value")
    ensures v.threadId == ValueOf(node, "thread-id")
    ensures v.displayhint == ValueOf(node, "displayhint")
    ensures "numchild" !in node.results ==> v.numchild == None
    ensures "numchild" in node.results ==> v.numchild == parseInt(node.results["numchild"])
    ensures v.frozen <==> "frozen" in node.results && node.results["frozen"] != Const("")
    ensures v.dynamic <==> "dynamic" in node.results && node.results["dynamic"] != Const("")
    ensures v.hasMore <==> "has_more" in node.results && node.results["has_more"] != Const("")
  {
    var count := ValueOf(node, "numchild");
    VariableObject(
      name := ValueOf(node, "name"),
      exp := ValueOf(node, "exp"),
      numchild := if count.Some? then parseInt(count.value) else None,
      valueType := ValueOf(node, "type"),
      value := ValueOf(node, "value"),
      threadId := ValueOf(node, "thread-id"),
      frozen := Flag(node, "frozen"),
      dynamic := Flag(node, "dynamic"),
      displayhint := ValueOf(node, "displayhint"),
      hasMore := Flag(node, "has_more"),
      id := 0)
  }

  /** `applyChanges`: the object after one `-var-update` change record. */
  function ApplyChanges(v: VariableObject, node: Node): (w: VariableObject)
    ensures SameIdentity(v, w)
    ensures MirrorsUpdate(w, node)
    ensures "dynamic" !in node.results ==> !w.dynamic
    ensures "has_more" !in node.results ==> !w.hasMore
    ensures TypeChanged(node) ==> w.valueType == ValueOf(node, "new_type")
    ensures !TypeChanged(node) ==> w.valueType == v.valueType
  {
    var withValue := v.(value := ValueOf(node, "value"));
    var withType :=
      if Flag(node, "type_changed") then withValue.(valueType := ValueOf(node, "new_type"))
      else withValue;
    withType.(
      dynamic := Flag(node, "dynamic"),
      displayhint := ValueOf(node, "displayhint"),
      hasMore := Flag(node, "has_more"))
  }

  /** The update the code evidently intends: GDB reports `type_changed` as
      the c-string "true" or "false", so only "true" announces a new type. */
  predicate AnnouncesNewType(node: Node) {
    ValueOf(node, "type_changed") == Some(Const("true"))
  }

  /** `applyChanges` with the type test corrected to `AnnouncesNewType`. */
  function ApplyChangesIntended(v: VariableObject, node: Node): (w: VariableObject)
    ensures SameIdentity(v, w)
    ensures MirrorsUpdate(w, node)
    ensures AnnouncesNewType(node) ==> w.valueType == ValueOf(node, "new_type")
    ensures !AnnouncesNewType(node) ==> w.valueType == v.valueType
    ensures ValueOf(node, "type_changed") == Some(Const("false")) ==> w.valueType == v.valueType
  {
    var changed := ApplyChanges(v, node);
    if AnnouncesNewType(node) then changed else changed.(valueType := v.valueType)
  }

  /** The object after the change records `updates`, applied in order. */
  function ApplyAll(v: VariableObject, updates: seq<Node>): (w: VariableObject)
    ensures SameIdentity(v, w)
    ensures |updates| == 0 ==> w == v
    ensures |updates| > 0 ==> MirrorsUpdate(w, updates[|updates| - 1])
    decreases |updates|
  {
    if |updates| == 0 then v
    else ApplyAll(ApplyChanges(v, updates[0]), updates[1..])
  }

  /** `isCompound`: the object can be expanded into children. */
  function IsCompound(v: VariableObject): (r: bool)
    ensures HasChildren(v) ==> r
    ensures v.value == Some(ElidedValue) ==> r
    ensures v.dynamic && v.displayhint in {Some(Const("array")), Some(Const("map"))} ==> r
    ensures !HasChildren(v) && v.value != Some(ElidedValue) && !v.dynamic ==> !r
    ensures (!HasChildren(v) && v.value != Some(ElidedValue)
             && v.displayhint !in {Some(Const("array")), Some(Const("map"))}) ==> !r
  {
    || HasChildren(v)
    || v.value == Some(ElidedValue)
    || (v.dynamic && (v.displayhint == Some(Const("array")) || v.displayhint == Some(Const("map"))))
  }

  /** `toProtocolVariable`: the object as the front-end's variable. */
  function ToProtocolVariable(v: VariableObject): (p: ProtocolVariable)
    ensures p.name == v.exp && p.evaluateName == v.name
    ensures p.valueType == v.valueType && p.variablesReference == v.id
    ensures v.value.None? ==> p.value == UnknownValue
    ensures v.value.Some? ==> p.value == v.value.value
  {
    ProtocolVariable(
      name := v.exp,
      evaluateName := v.name,
      value := v.value.GetOr(UnknownValue),
      valueType := v.valueType,
      variablesReference := v.id)
  }

  /** The debugger-reported value behind a front-end value, when it can be
      told apart from the placeholder. */
  function ValueFromProtocol(p: ProtocolVariable): (r: Option<Value>)
    ensures r.Some? <==> p.value != UnknownValue
    ensures r.Some? ==> r.value == p.value
  {
    if p.value == UnknownValue then None else Some(p.value)
  }

  /** A protocol error: the message and the command it came from. */
  datatype MIError = MIError(message: string, source: string)

  /** The text that follows the message in `MIError.toString`. */
  function SourceSuffix(source: string): string {
    " (from " + source + ")"
  }

  /** `MIError.toString`: the message followed by the source in parentheses. */
  function ToString(e: MIError): (s: string)
    ensures |s| == |e.message| + |e.source| + 8
    ensures s[..|e.message|] == e.message
    ensures s[|e.message|..] == SourceSuffix(e.source)
  {
    e.message + SourceSuffix(e.source)
  }

  /** The message of an error text whose source is `source`, or `None` when
      the text does not end the way `ToString` ends it. */
  function MessageOf(s: string, source: string): (m: Option<string>)
    ensures m.Some? <==> |SourceSuffix(source)| <= |s|
                         && s[|s| - |SourceSuffix(source)|..] == SourceSuffix(source)
    ensures m.Some? ==> s == m.value + SourceSuffix(source)
  {
    var suffix := SourceSuffix(source);
    if |suffix| <= |s| && s[|s| - |suffix|..] == suffix then
      Some(s[..|s| - |suffix|])
    else
      None
  }
}
