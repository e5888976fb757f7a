/** Properties relating construction, updates, classification and the
    front-end projection of a variable object. */
module BackendProperties {
  import opened Wrappers
  import opened MI
  import opened Backend

  /** The keys a variable-object node is read through at construction. */
  const CreationKeys: set<string> :=
    {"name", "exp", "numchild", "type", "value", "thread-id", "frozen", "dynamic", "displayhint", "has_more"}

  /** The keys a change record is read through by an update. */
  const UpdateKeys: set<string> :=
    {"value", "type_changed", "new_type", "dynamic", "displayhint", "has_more"}

  /** The two nodes report the same thing under every key in `keys`. */
  predicate AgreeOn(n1: Node, n2: Node, keys: set<string>) {
    forall k :: k in keys ==> ValueOf(n1, k) == ValueOf(n2, k)
  }

  /** The type after `updates`: the `new_type` of the last change record that
      announces a type change, or `t` when none does. */
  function TypeAfter(t: Option<Value>, updates: seq<Node>): Option<Value>
    decreases |updates|
  {
    if |updates| == 0 then t
    else
      var last := updates[|updates| - 1];
      if TypeChanged(last) then ValueOf(last, "new_type")
      else TypeAfter(t, updates[..|updates| - 1])
  }

  /** The node itself reports structure to expand: an elided value, or a
      dynamic object with an array or map display hint. */
  predicate NodeSignalsStructure(node: Node) {
    || ValueOf(node, "value") == Some(Const("{...}"))
    || (&& Flag(node, "dynamic")
        && (ValueOf(node, "displayhint") == Some(Const("array"))
            || ValueOf(node, "displayhint") == Some(Const("map"))))
  }

  // ---------------------------------------------------------------------
  // Construction

  /** Construction reads nothing but the ten variable-object fields. */
  lemma FromNodeReadsOnlyCreationKeys(n1: Node, n2: Node, parseInt: NumberParser)
    requires AgreeOn(n1, n2, CreationKeys)
    ensures FromNode(n1, parseInt) == FromNode(n2, parseInt)
  {
  }

  /** A freshly built object is compound exactly when the node reports a
      positive child count, an elided value, or a dynamic array or map; a
      missing `numchild` never counts as children. */
  lemma CompoundOfNode(node: Node, parseInt: NumberParser)
    ensures IsCompound(FromNode(node, parseInt)) <==>
      || ("numchild" in node.results && parseInt(node.results["numchild"]).Some?
          && parseInt(node.results["numchild"]).value > 0)
      || NodeSignalsStructure(node)
    ensures "numchild" !in node.results ==>
      (IsCompound(FromNode(node, parseInt)) <==> NodeSignalsStructure(node))
  {
  }

  /** A change record equal to the creation node, that announces no type
      change, reproduces the freshly built object. */
  lemma UpdateWithCreationNode(node: Node, parseInt: NumberParser)
    requires !TypeChanged(node)
    ensures ApplyChanges(FromNode(node, parseInt), node) == FromNode(node, parseInt)
  {
  }

  // ---------------------------------------------------------------------
  // Updates

  /** An update reads nothing but the six change-record fields. */
  lemma ApplyChangesReadsOnlyUpdateKeys(v: VariableObject, n1: Node, n2: Node)
    requires AgreeOn(n1, n2, UpdateKeys)
    ensures ApplyChanges(v, n1) == ApplyChanges(v, n2)
  {
  }

  /** Applying the same change record twice is the same as applying it once. */
  lemma ApplyChangesIdempotent(v: VariableObject, node: Node)
    ensures ApplyChanges(ApplyChanges(v, node), node) == ApplyChanges(v, node)
  {
  }

  /** Applying one more change record after a sequence of them. */
  lemma {:induction false} ApplyAllSnoc(v: VariableObject, updates: seq<Node>, node: Node)
    ensures ApplyAll(v, updates + [node]) == ApplyChanges(ApplyAll(v, updates), node)
    decreases |updates|
  {
    if |updates| == 0 {
      assert updates + [node] == [node];
    } else {
      assert (updates + [node])[1..] == updates[1..] + [node];
      ApplyAllSnoc(ApplyChanges(v, updates[0]), updates[1..], node);
    }
  }

  /** After a sequence of change records the type is the one announced by
      the last record that announces a type change. */
  lemma {:induction false} ApplyAllType(v: VariableObject, updates: seq<Node>)
    ensures ApplyAll(v, updates).valueType == TypeAfter(v.valueType, updates)
    decreases |updates|
  {
    if |updates| > 0 {
      var prefix := updates[..|updates| - 1];
      var last := updates[|updates| - 1];
      assert updates == prefix + [last];
      ApplyAllSnoc(v, prefix, last);
      ApplyAllType(v, prefix);
    }
  }

  /** Computing the type after a sequence a second time, starting from its
      own result, changes nothing. */
  lemma {:induction false} TypeAfterOverride(t: Option<Value>, updates: seq<Node>)
    ensures TypeAfter(TypeAfter(t, updates), updates) == TypeAfter(t, updates)
    decreases |updates|
  {
    if |updates| > 0 {
      var last := updates[|updates| - 1];
      if !TypeChanged(last) {
        TypeAfterOverride(t, updates[..|updates| - 1]);
      }
    }
  }

  /** Replaying a sequence of change records leaves the object as the first
      replay did. */
  lemma ReplayIdempotent(v: VariableObject, updates: seq<Node>)
    ensures ApplyAll(ApplyAll(v, updates), updates) == ApplyAll(v, updates)
  {
    var once := ApplyAll(v, updates);
    var twice := ApplyAll(once, updates);
    ApplyAllType(v, updates);
    ApplyAllType(once, updates);
    TypeAfterOverride(v.valueType, updates);
    if |updates| == 0 {
      assert twice == once;
    } else {
      assert MirrorsUpdate(once, updates[|updates| - 1]);
      assert MirrorsUpdate(twice, updates[|updates| - 1]);
    }
  }

  /** A last change record that announces no type change keeps the type the
      earlier records left. */
  lemma LastUpdateKeepsUnannouncedType(v: VariableObject, updates: seq<Node>)
    requires |updates| > 0 && !TypeChanged(updates[|updates| - 1])
    ensures ApplyAll(v, updates).valueType == ApplyAll(v, updates[..|updates| - 1]).valueType
  {
    ApplyAllType(v, updates);
    ApplyAllType(v, updates[..|updates| - 1]);
  }

  /** Once some change record in a sequence announces a type change, the type
      after the sequence does not depend on the type before it. */
  lemma {:induction false} TypeAfterForgetsStart(t1: Option<Value>, t2: Option<Value>, updates: seq<Node>)
    requires exists i :: 0 <= i < |updates| && TypeChanged(updates[i])
    ensures TypeAfter(t1, updates) == TypeAfter(t2, updates)
    decreases |updates|
  {
    var last := updates[|updates| - 1];
    if !TypeChanged(last) {
      var prefix := updates[..|updates| - 1];
      var i :| 0 <= i < |updates| && TypeChanged(updates[i]);
      assert i < |prefix| && prefix[i] == updates[i];
      TypeAfterForgetsStart(t1, t2, prefix);
    }
  }

  /** An ordinary GDB change record, for a variable whose type did not
      change: `type_changed` is the c-string "false", no `new_type` is sent,
      and `has_more` is "0". */
  const OrdinaryUpdate: Node :=
    Node(map["name" := Const("var1"), "value" := Const("3"), "in_scope" := Const("true"),
             "type_changed" := Const("false"), "has_more" := Const("0")])

  /** As written, the type test treats "false" as a type change, so an
      ordinary update replaces the type with the missing `new_type`, and
      `has_more` "0" sets the has-more flag. The corrected update keeps the
      type. */
  lemma OrdinaryUpdateWipesType(v: VariableObject)
    requires v.valueType.Some?
    ensures ApplyChanges(v, OrdinaryUpdate).valueType == None
    ensures ApplyChanges(v, OrdinaryUpdate).valueType != v.valueType
    ensures ApplyChanges(v, OrdinaryUpdate).hasMore
    ensures ApplyChangesIntended(v, OrdinaryUpdate).valueType == v.valueType
  {
  }

  /** The corrected update differs from the code as written only in the type,
      and only for records whose `type_changed` is truthy but not "true". */
  lemma IntendedAgreesExceptOnFalseTypeChange(v: VariableObject, node: Node)
    ensures ApplyChangesIntended(v, node).(valueType := v.valueType)
         == ApplyChanges(v, node).(valueType := v.valueType)
    ensures (AnnouncesNewType(node) || !TypeChanged(node)) ==>
              ApplyChangesIntended(v, node) == ApplyChanges(v, node)
  {
  }

  /** The corrected update is idempotent too. */
  lemma ApplyChangesIntendedIdempotent(v: VariableObject, node: Node)
    ensures ApplyChangesIntended(ApplyChangesIntended(v, node), node) == ApplyChangesIntended(v, node)
  {
  }

  // ---------------------------------------------------------------------
  // Classification

  /** After an update the object is compound exactly when it had children
      before or the change record itself signals structure. */
  lemma CompoundAfterUpdate(v: VariableObject, node: Node)
    ensures IsCompound(ApplyChanges(v, node)) <==> HasChildren(v) || NodeSignalsStructure(node)
  {
  }

  /** An object with children stays compound after any sequence of updates,
      because updates never change the child count. */
  lemma CompoundStable(v: VariableObject, updates: seq<Node>)
    requires HasChildren(v)
    ensures IsCompound(ApplyAll(v, updates))
  {
  }

  /** The three cases of the classification: a positive child count; a
      dynamic array without children; a plain scalar. A literal "0" flag is
      truthy. */
  lemma CompoundExamples(parseInt: NumberParser)
    requires parseInt(Const("2")) == Some(2) && parseInt(Const("0")) == Some(0)
    ensures IsCompound(FromNode(Node(map["numchild" := Const("2")]), parseInt))
    ensures IsCompound(FromNode(Node(map["numchild" := Const("0"), "dynamic" := Const("1"),
                                         "displayhint" := Const("array")]), parseInt))
    ensures !IsCompound(FromNode(Node(map["numchild" := Const("0"), "value" := Const("5")]), parseInt))
    ensures FromNode(Node(map["dynamic" := Const("0")]), parseInt).dynamic
    ensures !FromNode(Node(map["dynamic" := Const("")]), parseInt).dynamic
  {
  }

  // ---------------------------------------------------------------------
  // Front-end projection

  /** The front-end's names and handle survive any sequence of updates. */
  lemma ProtocolIdentityStable(v: VariableObject, updates: seq<Node>)
    ensures var p := ToProtocolVariable(v);
      var q := ToProtocolVariable(ApplyAll(v, updates));
      q.name == p.name && q.evaluateName == p.evaluateName
      && q.variablesReference == p.variablesReference
  {
  }

  /** A freshly built object has no front-end handle yet. */
  lemma FreshObjectHasNoHandle(node: Node, parseInt: NumberParser)
    ensures ToProtocolVariable(FromNode(node, parseInt)).variablesReference == 0
  {
  }

  /** The reported value can be read back from the front-end variable unless
      the debugger reported the placeholder text itself. */
  lemma ProtocolValueRoundTrip(v: VariableObject)
    requires v.value != Some(UnknownValue)
    ensures ValueFromProtocol(ToProtocolVariable(v)) == v.value
  {
  }

  /** An absent value and a reported "<unknown>" look the same to the front
      end, so the placeholder does not mean "absent" in both directions. */
  lemma UnknownPlaceholderAmbiguous(v: VariableObject)
    requires v.value.None?
    ensures ToProtocolVariable(v.(value := Some(UnknownValue))) == ToProtocolVariable(v)
    ensures v.(value := Some(UnknownValue)) != v
  {
  }

  // ---------------------------------------------------------------------
  // Protocol errors

  /** The message is recovered from the error text given its source. */
  lemma ToStringRoundTrip(e: MIError)
    ensures MessageOf(ToString(e), e.source) == Some(e.message)
  {
  }

  /** Two errors from the same source have the same text only when they have
      the same message. */
  lemma ToStringInjectiveForSource(e1: MIError, e2: MIError)
    requires e1.source == e2.source
    requires ToString(e1) == ToString(e2)
    ensures e1 == e2
  {
  }
}
