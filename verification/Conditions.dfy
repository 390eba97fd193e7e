/**
 Media conditions (`services/conditions.rs`): JSON trees of `and`/`or` groups over leaf tests,
 evaluated against a media item and validated before they are stored.

 Number parsing and regular expressions come in as functions, and numbers are reals.
 */
module Conditions {
  import opened Options
  import opened Text

  datatype Json =
    | Null
    | Bool(b: bool)
    | Num(n: real)
    | Str(s: string)
    | Arr(items: seq<Json>)
    | Obj(fields: map<string, Json>)

  type Object = map<string, Json>

  datatype Context = Context(
    mediaType: string,
    libraryId: Option<string>,
    texts: map<string, string>,
    criticRating: Option<real>,
    audioChannels: Option<int>,
    genres: seq<string>,
    streamingOn: seq<string>,
    hasDolbyVision: bool,
    hasMultipleVersions: bool)

  /** What the language's library decides: numerals in strings, and pattern matching. */
  datatype Library = Library(
    parseInt: string -> Option<int>,
    parseReal: string -> Option<real>,
    matches: (string, string) -> bool)

  /** The smallest relative step of a 64-bit float, 2^-52. */
  const EPSILON: real := 1.0 / 4503599627370496.0

  // ------------------------------------------------------------------ leaves

  function StringAt(o: Object, key: string): Option<string>
  {
    if key in o && o[key].Str? then Some(o[key].s) else None
  }

  function ArrayAt(o: Object, key: string): Option<seq<Json>>
  {
    if key in o && o[key].Arr? then Some(o[key].items) else None
  }

  predicate EqIgnoreCase(a: string, b: string)
  {
    AsciiLower(a) == AsciiLower(b)
  }

  /** The nullable text columns by field name; the media type is always there. */
  function TextField(field: string, ctx: Context): Option<string>
  {
    if field == "media_type" then Some(ctx.mediaType)
    else if IsTextColumn(field) && field in ctx.texts then Some(ctx.texts[field])
    else None
  }

  predicate IsTextColumn(field: string)
  {
    field in ["video_resolution", "video_codec", "video_dynamic_range", "audio_codec", "container_format",
              "content_rating", "original_language", "edition"]
  }

  /** A number cut towards zero, or a numeral in a string. */
  function ToInt(lib: Library, v: Json): Option<int>
  {
    match v
    case Num(n) => Some(if n < 0.0 then -(-n).Floor else n.Floor)
    case Str(s) => lib.parseInt(s)
    case _ => None
  }

  function ToReal(lib: Library, v: Json): Option<real>
  {
    match v
    case Num(n) => Some(n)
    case Str(s) => lib.parseReal(s)
    case _ => None
  }

  predicate IsCriticRating(field: string)
  {
    field == "critic_rating" || field == "critic_rating_above"
  }

  predicate CompareEq(lib: Library, field: string, value: Option<Json>, ctx: Context)
  {
    if value == None then false
    else
      var v := value.value;
      if field == "genre" then v.Str? && exists g :: g in ctx.genres && EqIgnoreCase(g, v.s)
      else if field == "streaming_on" then v.Str? && exists g :: g in ctx.streamingOn && EqIgnoreCase(g, v.s)
      else if field == "library_id" then v.Str? && ctx.libraryId == Some(v.s)
      else if field == "has_dolby_vision" then v.Bool? && v.b == ctx.hasDolbyVision
      else if field == "has_multiple_versions" then v.Bool? && v.b == ctx.hasMultipleVersions
      else if field == "audio_channels" then
        var target := ToInt(lib, v);
        target.Some? && ctx.audioChannels == target
      else if IsCriticRating(field) then
        var target := ToReal(lib, v);
        target.Some? && ctx.criticRating.Some?
        && -EPSILON < ctx.criticRating.value - target.value < EPSILON
      else
        var text := TextField(field, ctx);
        text.Some? && v.Str? && EqIgnoreCase(text.value, v.s)
  }

  predicate Ordered(op: string, a: real, b: real)
  {
    (op == "gt" && a > b) || (op == "gte" && a >= b) || (op == "lt" && a < b) || (op == "lte" && a <= b)
  }

  predicate CompareNumeric(lib: Library, field: string, op: string, value: Option<Json>, ctx: Context)
  {
    if value == None then false
    else if field == "audio_channels" then
      var target := ToInt(lib, value.value);
      target.Some? && ctx.audioChannels.Some? && Ordered(op, ctx.audioChannels.value as real, target.value as real)
    else if IsCriticRating(field) then
      var target := ToReal(lib, value.value);
      target.Some? && ctx.criticRating.Some? && Ordered(op, ctx.criticRating.value, target.value)
    else false
  }

  predicate IsPresent(field: string, ctx: Context)
  {
    if field == "media_type" then ctx.mediaType != ""
    else if IsTextColumn(field) then field in ctx.texts
    else if field == "audio_channels" then ctx.audioChannels.Some?
    else if IsCriticRating(field) then ctx.criticRating.Some?
    else if field == "library_id" then ctx.libraryId.Some?
    else if field == "genre" then ctx.genres != []
    else if field == "streaming_on" then ctx.streamingOn != []
    else if field == "has_dolby_vision" then ctx.hasDolbyVision
    else if field == "has_multiple_versions" then ctx.hasMultipleVersions
    else false
  }

  /** The wanted flag of an existence test; without one, presence is wanted. */
  function Wanted(o: Object): bool
  {
    if "value" in o && o["value"].Bool? then o["value"].b else true
  }

  function ValueOf(o: Object): Option<Json>
  {
    if "value" in o then Some(o["value"]) else None
  }

  predicate MatchRegex(lib: Library, field: string, pattern: string, ctx: Context)
  {
    var text := TextField(field, ctx);
    text.Some? && lib.matches(pattern, text.value)
  }

  predicate EvaluateLeaf(lib: Library, o: Object, ctx: Context)
  {
    var field, op := StringAt(o, "field"), StringAt(o, "op");
    if field == None || op == None then false
    else if op.value == "eq" then CompareEq(lib, field.value, ValueOf(o), ctx)
    else if op.value == "neq" then !CompareEq(lib, field.value, ValueOf(o), ctx)
    else if op.value == "in" then
      var values := ArrayAt(o, "values");
      values.Some? && exists i :: 0 <= i < |values.value| && CompareEq(lib, field.value, Some(values.value[i]), ctx)
    else if op.value == "exists" then IsPresent(field.value, ctx) == Wanted(o)
    else if op.value == "matches" then
      var pattern := StringAt(o, "value");
      pattern.Some? && MatchRegex(lib, field.value, pattern.value, ctx)
    else CompareNumeric(lib, field.value, op.value, ValueOf(o), ctx)
  }

  // --------------------------------------------------------------- evaluator

  predicate EvaluateGroup(lib: Library, group: Json, ctx: Context)
    decreases group, 0
  {
    if !group.Obj? then true
    else
      var rules := ArrayAt(group.fields, "rules");
      if rules == None || rules.value == [] then true
      else if StringAt(group.fields, "operator") == Some("or") then
        exists i :: 0 <= i < |rules.value| && EvaluateNode(lib, rules.value[i], ctx)
      else
        forall i :: 0 <= i < |rules.value| ==> EvaluateNode(lib, rules.value[i], ctx)
  }

  predicate EvaluateNode(lib: Library, node: Json, ctx: Context)
    decreases node, 1
  {
    if !node.Obj? then false
    else if "operator" in node.fields then EvaluateGroup(lib, node, ctx)
    else EvaluateLeaf(lib, node.fields, ctx)
  }

  predicate Evaluate(lib: Library, conditions: Json, ctx: Context)
  {
    match conditions
    case Bool(b) => b
    case Obj(fields) => if fields == map[] then true else EvaluateGroup(lib, conditions, ctx)
    case _ => true
  }

  // --------------------------------------------------------------- validator

  datatype Error = InvalidStructure | MissingKey(key: string) | InvalidOperator(op: string)

  function ValidateLeaf(o: Object): Option<Error>
  {
    var op := StringAt(o, "op");
    if StringAt(o, "field") == None then Some(MissingKey("field"))
    else if op == None then Some(MissingKey("op"))
    else if !IsOperator(op.value) then Some(InvalidOperator(op.value))
    else if op.value == "in" then (if "values" !in o then Some(MissingKey("values")) else None)
    else if "value" !in o then Some(MissingKey("value"))
    else None
  }

  predicate IsOperator(op: string)
  {
    op in ["eq", "neq", "in", "gt", "gte", "lt", "lte", "exists", "matches"]
  }

  function ValidateGroup(group: Json): Option<Error>
    decreases group, 0
  {
    if !group.Obj? then Some(InvalidStructure)
    else
      var operator, rules := StringAt(group.fields, "operator"), ArrayAt(group.fields, "rules");
      if operator == None then Some(MissingKey("operator"))
      else if operator.value != "and" && operator.value != "or" then Some(InvalidOperator(operator.value))
      else if rules == None then Some(MissingKey("rules"))
      else ValidateRules(rules.value)
  }

  /** The first error among the rules. */
  function ValidateRules(rules: seq<Json>): Option<Error>
    decreases rules, 0
  {
    if rules == [] then None
    else if ValidateNode(rules[0]).Some? then ValidateNode(rules[0])
    else ValidateRules(rules[1..])
  }

  function ValidateNode(node: Json): Option<Error>
    decreases node, 1
  {
    if !node.Obj? then Some(InvalidStructure)
    else if "operator" in node.fields then ValidateGroup(node)
    else ValidateLeaf(node.fields)
  }

  function ValidateStructure(conditions: Json): Option<Error>
  {
    match conditions
    case Null => None
    case Bool(_) => None
    case Obj(fields) => if fields == map[] then None else ValidateGroup(conditions)
    case _ => Some(InvalidStructure)
  }

  // ------------------------------------------ what validation guarantees

  predicate LeafComplete(o: Object)
  {
    && StringAt(o, "field").Some? && StringAt(o, "op").Some? && IsOperator(StringAt(o, "op").value)
    && (if StringAt(o, "op").value == "in" then "values" in o else "value" in o)
  }

  /** Every group names `and` or `or` and lists rules; every leaf names a field, an operator and an operand. */
  predicate NodeComplete(node: Json)
    decreases node
  {
    && node.Obj?
    && if "operator" in node.fields then
         && (StringAt(node.fields, "operator") == Some("and") || StringAt(node.fields, "operator") == Some("or"))
         && ArrayAt(node.fields, "rules").Some?
         && forall i :: 0 <= i < |node.fields["rules"].items| ==> NodeComplete(node.fields["rules"].items[i])
       else LeafComplete(node.fields)
  }

  lemma {:induction false} ValidNode(node: Json)
    ensures ValidateNode(node) == None <==> NodeComplete(node)
    decreases node, 1
  {
    if node.Obj? && "operator" in node.fields && ArrayAt(node.fields, "rules").Some? {
      ValidRules(node.fields["rules"].items);
    }
  }

  lemma {:induction false} ValidRules(rules: seq<Json>)
    ensures ValidateRules(rules) == None <==> forall i :: 0 <= i < |rules| ==> NodeComplete(rules[i])
    decreases rules, 0
  {
    if rules != [] {
      ValidNode(rules[0]);
      ValidRules(rules[1..]);
      assert forall i :: 1 <= i < |rules| ==> rules[i] == rules[1..][i - 1];
      assert (forall i :: 0 <= i < |rules[1..]| ==> NodeComplete(rules[1..][i])) ==>
             forall i :: 1 <= i < |rules| ==> NodeComplete(rules[i]);
    }
  }

  /** Validation passes exactly the empty conditions, the constants, and complete groups. */
  lemma ValidationIsExact(conditions: Json)
    ensures ValidateStructure(conditions) == None <==>
            || conditions.Null? || conditions.Bool? || conditions == Obj(map[])
            || (conditions.Obj? && "operator" in conditions.fields && NodeComplete(conditions))
  {
    ValidNode(conditions);
  }

  /** The usual reading of a complete tree: conjunction, disjunction and the leaf tests. */
  predicate Means(lib: Library, node: Json, ctx: Context)
    requires NodeComplete(node)
    decreases node
  {
    if "operator" in node.fields then
      var rules := node.fields["rules"].items;
      if StringAt(node.fields, "operator") == Some("and") then
        forall i :: 0 <= i < |rules| ==> Means(lib, rules[i], ctx)
      else exists i :: 0 <= i < |rules| && Means(lib, rules[i], ctx)
    else EvaluateLeaf(lib, node.fields, ctx)
  }

  /** No `or` group of the tree is without rules. */
  predicate NoEmptyOr(node: Json)
    requires NodeComplete(node)
    decreases node
  {
    "operator" in node.fields ==>
      && (StringAt(node.fields, "operator") == Some("or") ==> node.fields["rules"].items != [])
      && forall i :: 0 <= i < |node.fields["rules"].items| ==> NoEmptyOr(node.fields["rules"].items[i])
  }

  /** Validated conditions are evaluated by their usual reading, as long as no `or` group is empty. */
  lemma {:induction false} ValidatedMeansWhatItSays(lib: Library, node: Json, ctx: Context)
    requires NodeComplete(node) && NoEmptyOr(node)
    ensures EvaluateNode(lib, node, ctx) == Means(lib, node, ctx)
    decreases node
  {
    if "operator" in node.fields {
      var rules := node.fields["rules"].items;
      forall i | 0 <= i < |rules| ensures EvaluateNode(lib, rules[i], ctx) == Means(lib, rules[i], ctx) {
        ValidatedMeansWhatItSays(lib, rules[i], ctx);
      }
    }
  }

  /** What a complete tree means by its usual reading it also evaluates to: an empty `or` only adds matches. */
  lemma {:induction false} EmptyOrOnlyAdds(lib: Library, node: Json, ctx: Context)
    requires NodeComplete(node) && Means(lib, node, ctx)
    ensures EvaluateNode(lib, node, ctx)
    decreases node
  {
    if "operator" in node.fields {
      var rules := node.fields["rules"].items;
      forall i | 0 <= i < |rules| && Means(lib, rules[i], ctx) ensures EvaluateNode(lib, rules[i], ctx) {
        EmptyOrOnlyAdds(lib, rules[i], ctx);
      }
    }
  }

  function Group(operator: string, rules: seq<Json>): Json
  {
    Obj(map["operator" := Str(operator), "rules" := Arr(rules)])
  }

  /** An empty `or` group passes validation and matches everything, although its usual reading is false. */
  lemma EmptyOrMatchesAll(lib: Library, ctx: Context)
    ensures ValidateStructure(Group("or", [])) == None && NodeComplete(Group("or", []))
    ensures Evaluate(lib, Group("or", []), ctx) && !Means(lib, Group("or", []), ctx)
  {
    assert ValidateRules([]) == None;
  }

  /** The same tree with every empty `or` group turned into an empty `and` group. */
  function Repaired(node: Json): (r: Json)
    requires NodeComplete(node)
    ensures r.Obj? && ("operator" in r.fields <==> "operator" in node.fields)
    decreases node
  {
    if "operator" !in node.fields then node
    else
      var rules := node.fields["rules"].items;
      if rules == [] then Obj(node.fields["operator" := Str("and")])
      else Obj(node.fields["rules" := Arr(seq(|rules|, i requires 0 <= i < |rules| => Repaired(rules[i])))])
  }

  lemma {:induction false} RepairedIsComplete(node: Json)
    requires NodeComplete(node)
    ensures NodeComplete(Repaired(node)) && NoEmptyOr(Repaired(node))
    decreases node
  {
    if "operator" in node.fields {
      var rules := node.fields["rules"].items;
      forall i | 0 <= i < |rules| ensures NodeComplete(Repaired(rules[i])) && NoEmptyOr(Repaired(rules[i])) {
        RepairedIsComplete(rules[i]);
      }
    }
  }

  /** Any complete tree is evaluated by the usual reading of the tree with its empty `or` groups so turned. */
  lemma {:induction false} EvaluatesAsRepaired(lib: Library, node: Json, ctx: Context)
    requires NodeComplete(node)
    ensures NodeComplete(Repaired(node))
    ensures EvaluateNode(lib, node, ctx) == Means(lib, Repaired(node), ctx)
    decreases node
  {
    RepairedIsComplete(node);
    if "operator" in node.fields {
      var rules := node.fields["rules"].items;
      if rules != [] {
        var repaired := Repaired(node).fields["rules"].items;
        forall i | 0 <= i < |rules|
          ensures repaired[i] == Repaired(rules[i]) && EvaluateNode(lib, rules[i], ctx) == Means(lib, repaired[i], ctx)
        {
          EvaluatesAsRepaired(lib, rules[i], ctx);
        }
      }
    }
  }

  // ------------------------------------------------------- De Morgan's law

  predicate DualLeaf(o: Object)
  {
    && StringAt(o, "field").Some?
    && (StringAt(o, "op") == Some("eq") || StringAt(o, "op") == Some("neq") || StringAt(o, "op") == Some("exists"))
  }

  /** Non-empty `and`/`or` groups over equality and existence tests. */
  predicate Dualizable(node: Json)
    decreases node
  {
    && node.Obj?
    && if "operator" in node.fields then
         && (StringAt(node.fields, "operator") == Some("and") || StringAt(node.fields, "operator") == Some("or"))
         && ArrayAt(node.fields, "rules").Some? && node.fields["rules"].items != []
         && forall i :: 0 <= i < |node.fields["rules"].items| ==> Dualizable(node.fields["rules"].items[i])
       else DualLeaf(node.fields)
  }

  function LeafDual(o: Object): Object
    requires DualLeaf(o)
  {
    if o["op"].s == "eq" then o["op" := Str("neq")]
    else if o["op"].s == "neq" then o["op" := Str("eq")]
    else o["value" := Bool(!Wanted(o))]
  }

  /** Swaps `and` with `or`, `eq` with `neq`, and the wanted flag of existence tests. */
  function Dual(node: Json): Json
    requires Dualizable(node)
    decreases node
  {
    if "operator" in node.fields then
      var rules := node.fields["rules"].items;
      Obj(node.fields["operator" := Str(if node.fields["operator"].s == "and" then "or" else "and")]
                     ["rules" := Arr(seq(|rules|, i requires 0 <= i < |rules| => Dual(rules[i])))])
    else Obj(LeafDual(node.fields))
  }

  lemma LeafDualNegates(lib: Library, o: Object, ctx: Context)
    requires DualLeaf(o) && "operator" !in o
    ensures "operator" !in LeafDual(o)
    ensures EvaluateLeaf(lib, LeafDual(o), ctx) == !EvaluateLeaf(lib, o, ctx)
  {
    assert StringAt(LeafDual(o), "field") == StringAt(o, "field");
    if o["op"].s == "exists" {
      assert StringAt(LeafDual(o), "op") == StringAt(o, "op");
    } else {
      assert ValueOf(LeafDual(o)) == ValueOf(o);
    }
  }

  /** The dual condition holds of an item exactly when the condition does not. */
  lemma {:induction false} DualNegates(lib: Library, node: Json, ctx: Context)
    requires Dualizable(node)
    ensures EvaluateNode(lib, Dual(node), ctx) == !EvaluateNode(lib, node, ctx)
    decreases node
  {
    if "operator" in node.fields {
      var rules, duals := node.fields["rules"].items, Dual(node).fields["rules"].items;
      forall i | 0 <= i < |rules|
        ensures duals[i] == Dual(rules[i])
        ensures EvaluateNode(lib, duals[i], ctx) == !EvaluateNode(lib, rules[i], ctx)
      {
        DualNegates(lib, rules[i], ctx);
      }
    } else {
      LeafDualNegates(lib, node.fields, ctx);
    }
  }

  /** The law carries over to whole conditions. */
  lemma DualConditionsNegate(lib: Library, conditions: Json, ctx: Context)
    requires Dualizable(conditions) && "operator" in conditions.fields
    ensures Evaluate(lib, Dual(conditions), ctx) == !Evaluate(lib, conditions, ctx)
  {
    DualNegates(lib, conditions, ctx);
    assert "operator" in Dual(conditions).fields;
  }

  function Leaf(field: string, op: string, value: Json): Json
  {
    Obj(map["field" := Str(field), "op" := Str(op), "value" := value])
  }

  predicate IsOrdering(op: string)
  {
    op in ["gt", "gte", "lt", "lte"]
  }

  /** The ordering test that one would expect to be the negation. */
  function Opposite(op: string): string
    requires IsOrdering(op)
  {
    if op == "gt" then "lte" else if op == "gte" then "lt" else if op == "lt" then "gte" else "gt"
  }

  /** The item has the number that the field names, and the operand is one. */
  predicate HasNumbers(lib: Library, field: string, v: Json, ctx: Context)
  {
    || (field == "audio_channels" && ctx.audioChannels.Some? && ToInt(lib, v).Some?)
    || (IsCriticRating(field) && ctx.criticRating.Some? && ToReal(lib, v).Some?)
  }

  lemma OrderingCompares(lib: Library, field: string, op: string, v: Json, ctx: Context)
    requires IsOrdering(op)
    ensures EvaluateNode(lib, Leaf(field, op, v), ctx) == CompareNumeric(lib, field, op, Some(v), ctx)
  {
    var o := Leaf(field, op, v).fields;
    assert StringAt(o, "field") == Some(field) && StringAt(o, "op") == Some(op) && ValueOf(o) == Some(v);
  }

  lemma OppositeOrders(op: string, a: real, b: real)
    requires IsOrdering(op)
    ensures IsOrdering(Opposite(op)) && Ordered(Opposite(op), a, b) == !Ordered(op, a, b)
  {
  }

  /**
   Opposite ordering tests negate each other, for any field and operand, exactly when there are two
   numbers to compare. Otherwise neither of them holds.
   */
  lemma OrderingDual(lib: Library, field: string, op: string, v: Json, ctx: Context)
    requires IsOrdering(op)
    ensures var here := EvaluateNode(lib, Leaf(field, op, v), ctx);
            var there := EvaluateNode(lib, Leaf(field, Opposite(op), v), ctx);
            && (there == !here <==> HasNumbers(lib, field, v, ctx))
            && (!HasNumbers(lib, field, v, ctx) ==> !here && !there)
  {
    OppositeOrders(op, 0.0, 0.0);
    OrderingCompares(lib, field, op, v, ctx);
    OrderingCompares(lib, field, Opposite(op), v, ctx);
    if HasNumbers(lib, field, v, ctx) {
      if field == "audio_channels" {
        OppositeOrders(op, ctx.audioChannels.value as real, ToInt(lib, v).value as real);
      } else {
        OppositeOrders(op, ctx.criticRating.value, ToReal(lib, v).value);
      }
    }
  }

  /** On an item whose channels are not known, neither a test nor its opposite holds. */
  lemma OrderingHasNoDual(lib: Library, op: string, v: Json, ctx: Context)
    requires IsOrdering(op) && ctx.audioChannels == None
    ensures !EvaluateNode(lib, Leaf("audio_channels", op, v), ctx)
    ensures !EvaluateNode(lib, Leaf("audio_channels", Opposite(op), v), ctx)
  {
    OrderingDual(lib, "audio_channels", op, v, ctx);
  }

  // --------------------------------------------------------- membership

  function InLeaf(field: string, values: seq<Json>): Json
  {
    Obj(map["field" := Str(field), "op" := Str("in"), "values" := Arr(values)])
  }

  function EqLeaves(field: string, values: seq<Json>): seq<Json>
  {
    seq(|values|, i requires 0 <= i < |values| => Leaf(field, "eq", values[i]))
  }

  lemma EqLeafCompares(lib: Library, field: string, value: Json, ctx: Context)
    ensures EvaluateNode(lib, Leaf(field, "eq", value), ctx) == CompareEq(lib, field, Some(value), ctx)
  {
  }

  lemma InCompares(lib: Library, field: string, values: seq<Json>, ctx: Context)
    ensures EvaluateNode(lib, InLeaf(field, values), ctx)
       <==> exists i :: 0 <= i < |values| && CompareEq(lib, field, Some(values[i]), ctx)
  {
    var o := InLeaf(field, values).fields;
    assert StringAt(o, "field") == Some(field) && StringAt(o, "op") == Some("in")
           && ArrayAt(o, "values") == Some(values);
  }

  lemma OrCompares(lib: Library, field: string, values: seq<Json>, ctx: Context)
    requires values != []
    ensures EvaluateNode(lib, Group("or", EqLeaves(field, values)), ctx)
       <==> exists i :: 0 <= i < |values| && CompareEq(lib, field, Some(values[i]), ctx)
  {
    var leaves := EqLeaves(field, values);
    forall i | 0 <= i < |values|
      ensures EvaluateNode(lib, leaves[i], ctx) == CompareEq(lib, field, Some(values[i]), ctx)
    {
      EqLeafCompares(lib, field, values[i], ctx);
    }
  }

  /** A membership test is the `or` of its equality tests, for every item, exactly when the list is not empty. */
  lemma InIsOrOfEq(lib: Library, field: string, values: seq<Json>, ctx: Context)
    ensures EvaluateNode(lib, InLeaf(field, values), ctx)
            == EvaluateNode(lib, Group("or", EqLeaves(field, values)), ctx)
       <==> values != []
  {
    InCompares(lib, field, values, ctx);
    if values != [] {
      OrCompares(lib, field, values, ctx);
    } else {
      assert EvaluateNode(lib, Group("or", EqLeaves(field, values)), ctx);
    }
  }

  // ------------------------------------------------- what the leaves mean

  /** Cutting towards zero. */
  lemma ToIntMeans(lib: Library, v: Json)
    ensures v.Num? && v.n >= 0.0 ==>
            ToInt(lib, v).Some? && ToInt(lib, v).value as real <= v.n < ToInt(lib, v).value as real + 1.0
    ensures v.Num? && v.n < 0.0 ==>
            ToInt(lib, v).Some? && ToInt(lib, v).value as real - 1.0 < v.n <= ToInt(lib, v).value as real
    ensures v.Str? ==> ToInt(lib, v) == lib.parseInt(v.s) && ToReal(lib, v) == lib.parseReal(v.s)
    ensures !v.Num? && !v.Str? ==> ToInt(lib, v) == None && ToReal(lib, v) == None
    ensures v.Num? ==> ToReal(lib, v) == Some(v.n)
  {
  }

  /** The item's rating compared with the operand. */
  lemma RatingOrderMeans(lib: Library, field: string, v: Json, ctx: Context, rating: real, bound: real)
    requires field == "critic_rating" || field == "critic_rating_above"
    requires ctx.criticRating == Some(rating) && ToReal(lib, v) == Some(bound)
    ensures EvaluateNode(lib, Leaf(field, "gt", v), ctx) <==> rating > bound
    ensures EvaluateNode(lib, Leaf(field, "gte", v), ctx) <==> rating >= bound
    ensures EvaluateNode(lib, Leaf(field, "lt", v), ctx) <==> rating < bound
    ensures EvaluateNode(lib, Leaf(field, "lte", v), ctx) <==> rating <= bound
  {
    OrderingCompares(lib, field, "gt", v, ctx);
    OrderingCompares(lib, field, "gte", v, ctx);
    OrderingCompares(lib, field, "lt", v, ctx);
    OrderingCompares(lib, field, "lte", v, ctx);
  }

  /** The item's number of channels compared with the operand. */
  lemma ChannelOrderMeans(lib: Library, v: Json, ctx: Context, channels: int, bound: int)
    requires ctx.audioChannels == Some(channels) && ToInt(lib, v) == Some(bound)
    ensures EvaluateNode(lib, Leaf("audio_channels", "gt", v), ctx) <==> channels > bound
    ensures EvaluateNode(lib, Leaf("audio_channels", "gte", v), ctx) <==> channels >= bound
    ensures EvaluateNode(lib, Leaf("audio_channels", "lt", v), ctx) <==> channels < bound
    ensures EvaluateNode(lib, Leaf("audio_channels", "lte", v), ctx) <==> channels <= bound
  {
    OrderingCompares(lib, "audio_channels", "gt", v, ctx);
    OrderingCompares(lib, "audio_channels", "gte", v, ctx);
    OrderingCompares(lib, "audio_channels", "lt", v, ctx);
    OrderingCompares(lib, "audio_channels", "lte", v, ctx);
  }

  /** The columns that hold one text each, besides the media type. */
  const TEXT_COLUMNS: set<string> :=
    {"video_resolution", "video_codec", "video_dynamic_range", "audio_codec", "container_format",
     "content_rating", "original_language", "edition"}

  lemma TextColumnMeans(field: string, ctx: Context)
    ensures field == "media_type" ==> TextField(field, ctx) == Some(ctx.mediaType)
    ensures field in TEXT_COLUMNS && field in ctx.texts ==> TextField(field, ctx) == Some(ctx.texts[field])
    ensures field != "media_type" && !(field in TEXT_COLUMNS && field in ctx.texts) ==> TextField(field, ctx) == None
  {
  }

  /** An equality test on a text column compares up to the case of ASCII letters; without the text it fails. */
  lemma TextEqMeans(lib: Library, field: string, v: Json, ctx: Context)
    requires field == "media_type" || field in TEXT_COLUMNS
    ensures EvaluateNode(lib, Leaf(field, "eq", v), ctx)
       <==> TextField(field, ctx).Some? && v.Str? && SameButCase(TextField(field, ctx).value, v.s)
  {
    EqLeafCompares(lib, field, v, ctx);
    if TextField(field, ctx).Some? && v.Str? {
      LowerMeans(TextField(field, ctx).value, v.s);
    }
  }

  /** On a list column it asks whether some entry is the text, up to case. */
  lemma ListEqMeans(lib: Library, field: string, v: Json, ctx: Context, entries: seq<string>)
    requires (field == "genre" && entries == ctx.genres) || (field == "streaming_on" && entries == ctx.streamingOn)
    ensures EvaluateNode(lib, Leaf(field, "eq", v), ctx) <==> v.Str? && exists g :: g in entries && SameButCase(g, v.s)
  {
    EqLeafCompares(lib, field, v, ctx);
    if v.Str? {
      forall g | g in entries ensures EqIgnoreCase(g, v.s) <==> SameButCase(g, v.s) {
        LowerMeans(g, v.s);
      }
    }
  }

  /** On the remaining columns: the same identifier, flag, or number, a rating up to 2^-52. */
  lemma OtherEqMeans(lib: Library, v: Json, ctx: Context)
    ensures EvaluateNode(lib, Leaf("library_id", "eq", v), ctx) <==> v.Str? && ctx.libraryId == Some(v.s)
    ensures EvaluateNode(lib, Leaf("has_dolby_vision", "eq", v), ctx) <==> v == Bool(ctx.hasDolbyVision)
    ensures EvaluateNode(lib, Leaf("has_multiple_versions", "eq", v), ctx) <==> v == Bool(ctx.hasMultipleVersions)
    ensures EvaluateNode(lib, Leaf("audio_channels", "eq", v), ctx)
       <==> ctx.audioChannels.Some? && ToInt(lib, v) == ctx.audioChannels
  {
    EqLeafCompares(lib, "library_id", v, ctx);
    EqLeafCompares(lib, "has_dolby_vision", v, ctx);
    EqLeafCompares(lib, "has_multiple_versions", v, ctx);
    EqLeafCompares(lib, "audio_channels", v, ctx);
  }

  lemma RatingEqMeans(lib: Library, field: string, v: Json, ctx: Context)
    requires field == "critic_rating" || field == "critic_rating_above"
    ensures EvaluateNode(lib, Leaf(field, "eq", v), ctx)
       <==> && ctx.criticRating.Some? && ToReal(lib, v).Some?
            && -1.0 < (ctx.criticRating.value - ToReal(lib, v).value) * 4503599627370496.0 < 1.0
  {
    EqLeafCompares(lib, field, v, ctx);
  }

  /** Every other field equals nothing. */
  lemma UnknownEqMeans(lib: Library, field: string, v: Json, ctx: Context)
    requires field !in TEXT_COLUMNS
    requires field !in ["media_type", "genre", "streaming_on", "library_id", "has_dolby_vision",
                        "has_multiple_versions",
                        "audio_channels", "critic_rating", "critic_rating_above"]
    ensures !EvaluateNode(lib, Leaf(field, "eq", v), ctx)
  {
    EqLeafCompares(lib, field, v, ctx);
  }

  lemma LeafDispatch(lib: Library, field: string, op: string, v: Json, ctx: Context)
    ensures op == "neq" ==> EvaluateNode(lib, Leaf(field, op, v), ctx) == !EvaluateNode(lib, Leaf(field, "eq", v), ctx)
    ensures op == "exists" ==>
              EvaluateNode(lib, Leaf(field, op, v), ctx) == (IsPresent(field, ctx) == if v.Bool? then v.b else true)
    ensures op == "matches" ==>
              EvaluateNode(lib, Leaf(field, op, v), ctx)
              == (v.Str? && TextField(field, ctx).Some? && lib.matches(v.s, TextField(field, ctx).value))
    ensures op !in ["eq", "neq", "in", "gt", "gte", "lt", "lte", "exists", "matches"] ==>
              !EvaluateNode(lib, Leaf(field, op, v), ctx)
  {
    EqLeafCompares(lib, field, v, ctx);
    var o := Leaf(field, op, v).fields;
    assert StringAt(o, "field") == Some(field) && StringAt(o, "op") == Some(op) && ValueOf(o) == Some(v);
  }

  /** What counts as present: a text that is there, */
  lemma TextPresenceMeans(field: string, ctx: Context)
    ensures field == "media_type" ==> (IsPresent(field, ctx) <==> ctx.mediaType != "")
    ensures field in TEXT_COLUMNS ==> (IsPresent(field, ctx) <==> field in ctx.texts)
  {
  }

  /** a number or an identifier, */
  lemma NumberPresenceMeans(ctx: Context)
    ensures IsPresent("audio_channels", ctx) <==> ctx.audioChannels.Some?
    ensures IsPresent("critic_rating", ctx) <==> ctx.criticRating.Some?
    ensures IsPresent("critic_rating_above", ctx) <==> ctx.criticRating.Some?
    ensures IsPresent("library_id", ctx) <==> ctx.libraryId.Some?
  {
  }

  /** a list that is not empty, or a flag that is set. */
  lemma ListPresenceMeans(ctx: Context)
    ensures IsPresent("genre", ctx) <==> ctx.genres != []
    ensures IsPresent("streaming_on", ctx) <==> ctx.streamingOn != []
    ensures IsPresent("has_dolby_vision", ctx) <==> ctx.hasDolbyVision
    ensures IsPresent("has_multiple_versions", ctx) <==> ctx.hasMultipleVersions
  {
  }

  // ------------------------------------------- incomplete trees and errors

  /** What is not validated is still evaluated: an unknown operator joins like `and`, no rules match everything. */
  lemma LenientEvaluation(lib: Library, operator: string, rules: seq<Json>, node: Json, ctx: Context)
    ensures operator != "or" ==>
              EvaluateNode(lib, Group(operator, rules), ctx) == EvaluateNode(lib, Group("and", rules), ctx)
    ensures node.Obj? && "operator" in node.fields && ArrayAt(node.fields, "rules") == None ==>
            EvaluateNode(lib, node, ctx)
    ensures !node.Obj? ==> !EvaluateNode(lib, node, ctx)
    ensures !node.Obj? && !node.Bool? ==> Evaluate(lib, node, ctx)
  {
  }

  /** The error of a list of rules is that of the first rule that has one. */
  lemma {:induction false} FirstError(rules: seq<Json>, k: nat)
    requires k < |rules| && ValidateNode(rules[k]).Some?
    requires forall i :: 0 <= i < k ==> ValidateNode(rules[i]) == None
    ensures ValidateRules(rules) == ValidateNode(rules[k])
    decreases |rules|
  {
    if k > 0 {
      FirstError(rules[1..], k - 1);
    }
  }

  /** What is wrong with a single leaf or group, in the order in which it is noticed. */
  lemma ErrorsMean(o: Object)
    ensures "operator" !in o && StringAt(o, "field") == None ==> ValidateNode(Obj(o)) == Some(MissingKey("field"))
    ensures "operator" !in o && StringAt(o, "field").Some? && StringAt(o, "op") == None ==>
              ValidateNode(Obj(o)) == Some(MissingKey("op"))
    ensures "operator" !in o && StringAt(o, "field").Some? && StringAt(o, "op").Some?
            && StringAt(o, "op").value !in ["eq", "neq", "in", "gt", "gte", "lt", "lte", "exists", "matches"] ==>
              ValidateNode(Obj(o)) == Some(InvalidOperator(StringAt(o, "op").value))
    ensures "operator" !in o && StringAt(o, "field").Some? && StringAt(o, "op") == Some("in") && "values" !in o ==>
              ValidateNode(Obj(o)) == Some(MissingKey("values"))
    ensures "operator" !in o && StringAt(o, "field").Some? && StringAt(o, "op") == Some("eq") && "value" !in o ==>
              ValidateNode(Obj(o)) == Some(MissingKey("value"))
    ensures "operator" in o && StringAt(o, "operator") == None ==> ValidateNode(Obj(o)) == Some(MissingKey("operator"))
    ensures StringAt(o, "operator").Some? && StringAt(o, "operator").value !in ["and", "or"] ==>
              ValidateNode(Obj(o)) == Some(InvalidOperator(StringAt(o, "operator").value))
    ensures StringAt(o, "operator").Some? && StringAt(o, "operator").value in ["and", "or"]
            && ArrayAt(o, "rules") == None ==>
              ValidateNode(Obj(o)) == Some(MissingKey("rules"))
    ensures forall node: Json :: !node.Obj? ==> ValidateNode(node) == Some(InvalidStructure)
  {
  }
}
