/** The validation algorithm of src/validator.js as pure functions: the
    shape check of `build`, the walk `alright` performs over the rules, the
    three kinds of rule declaration (a `|`-separated string, an array of
    element declarations, a nested object) and the message resolution of
    `errors`. The class in validator.dfy runs the same algorithm step by step
    on its two dictionaries and is proved to end where these functions say. */
module Engine {

  import opened Wrappers
  import opened Text
  import opened JsValues
  import Utils

  /** A registered template as the engine calls it:
      `(key, value, param, rule, field_rules)`; a truthy result is a failure. */
  type Template = (JValue, JValue, JValue, JValue, JValue) -> JValue

  /** `rule_validators`: rule name to template. */
  type Registry = map<string, Template>

  /** The three arguments a validation was built with. */
  datatype Scope = Scope(values: JValue, rules: JValue, messages: JValue)

  /** `validation_results` (raw key to template message, or nested errors)
      and `validation_alright` (field to accepted value). */
  datatype State = State(results: Dict, accepted: Dict)

  const ShapeMessage := "value, rules and messages must be object"

  /** A destructuring default: an absent argument becomes `{}`. */
  function Default(v: JValue): JValue {
    if v.Undefined? then Obj([]) else v
  }

  /** The argument check of `build`: each argument, once defaulted, must have
      `typeof 'object'` (an object, an array or null). */
  function Shape(values: JValue, rules: JValue, messages: JValue): (r: Result<Scope>)
    ensures r.Ok? <==> IsObjectType(Default(values)) && IsObjectType(Default(rules)) && IsObjectType(Default(messages))
    ensures r.Err? ==> r.error == SyntaxError(ShapeMessage)
    ensures r.Ok? ==> r.value == Scope(Default(values), Default(rules), Default(messages))
  {
    var sc := Scope(Default(values), Default(rules), Default(messages));
    if IsObjectType(sc.values) && IsObjectType(sc.rules) && IsObjectType(sc.messages) then Ok(sc)
    else Err(SyntaxError(ShapeMessage))
  }

  // ------------------------------------------------------------- the walk

  /** One run of `alright` from cleared dictionaries. Only a plain object (or
      null, which makes `Object.keys` throw) is walked; an array or any other
      rules value records nothing. */
  function Run(sc: Scope, reg: Registry): Result<State>
    decreases Size(sc.rules), 4
  {
    match sc.rules
    case Obj(ps) => Walk(sc, reg, KeysOf(ps), 0, State([], []))
    case Null => Err(TypeError)
    case _ => Ok(State([], []))
  }

  /** The `forEach` over the rule keys from position i on; a fault stops it. */
  function Walk(sc: Scope, reg: Registry, keys: seq<string>, i: nat, st: State): Result<State>
    requires sc.rules.Obj? && i <= |keys|
    decreases Size(sc.rules), 3, |keys| - i
  {
    if i == |keys| then Ok(st)
    else
      var st1 :- Field(sc, reg, keys[i], st);
      Walk(sc, reg, keys, i + 1, st1)
  }

  /** The step for one rule key, chosen by the kind of its declaration. */
  function Field(sc: Scope, reg: Registry, key: string, st: State): Result<State>
    requires sc.rules.Obj?
    decreases Size(sc.rules), 2
  {
    match Lookup(sc.rules.props, key)
    case None => Ok(st)
    case Some(spec) =>
      LookupSmaller(sc.rules, sc.rules.props, key);
      match spec
      case Str(s) => StringField(sc, reg, key, s, st)
      case Arr(specs) => ArrayField(sc, reg, key, specs, st)
      case Obj(_) => ObjectField(sc, reg, key, spec, st)
      case Null => ObjectField(sc, reg, key, spec, st)
      case _ => Ok(st)
  }

  // ------------------------------------------------------- string rules

  /** The rule name of a token: the text before the first ':'. */
  function RuleName(row: string): string {
    Split(row, ':')[0]
  }

  /** The parameter of a token: the text between the first and second ':',
      undefined when there is no ':'. */
  function ParamOf(row: string): JValue {
    var parts := Split(row, ':');
    if |parts| > 1 then Str(parts[1]) else Undefined
  }

  /** The `field_rules` array handed to every template. */
  function TokenList(tokens: seq<string>): (r: JValue)
    ensures r.Arr? && |r.items| == |tokens|
  {
    if tokens == [] then Arr([])
    else Arr([Str(tokens[0])] + TokenList(tokens[1..]).items)
  }

  /** Element j of `field_rules` is token j. */
  lemma {:induction false} TokenListItems(tokens: seq<string>, j: nat)
    requires j < |tokens|
    ensures TokenList(tokens).items[j] == Str(tokens[j])
  {
    if j > 0 {
      TokenListItems(tokens[1..], j - 1);
    }
  }

  /** The syntax error for a token whose name is not registered. */
  function UnknownRule(s: string, key: string, rule: string): Fault {
    if rule == "" then SyntaxError("'" + s + "' field: '" + key + "'")
    else SyntaxError("Validator '" + rule + "' not found")
  }

  /** What the template of token j returns for the field. */
  function Outcome(sc: Scope, reg: Registry, key: string, tokens: seq<string>, j: nat): JValue
    requires j < |tokens| && RuleName(tokens[j]) in reg && Get(sc.values, key).Ok?
  {
    var rule := RuleName(tokens[j]);
    reg[rule](Str(key), Get(sc.values, key).value, ParamOf(tokens[j]), Str(rule), TokenList(tokens))
  }

  /** Token j: a failure records `key.rule`, a pass records the value as accepted. */
  function Token(sc: Scope, reg: Registry, key: string, s: string, tokens: seq<string>, j: nat, st: State): Result<State>
    requires j < |tokens|
  {
    var rule := RuleName(tokens[j]);
    if rule in reg then
      var value :- Get(sc.values, key);
      var result := Outcome(sc, reg, key, tokens, j);
      if Truthy(result) then Ok(State(Put(st.results, key + "." + rule, result), st.accepted))
      else Ok(State(st.results, Put(st.accepted, key, value)))
    else Err(UnknownRule(s, key, rule))
  }

  /** A `forEach` over positions j..n-1 whose body may throw: each step
      runs on the state the previous one left, and the first fault stops it. */
  function Sequence(step: (nat, State) -> Result<State>, n: nat, j: nat, st: State): Result<State>
    decreases n - j
  {
    if n <= j then Ok(st)
    else
      var st1 :- step(j, st);
      Sequence(step, n, j + 1, st1)
  }

  /** The body of the `forEach` over the tokens: token i. */
  function TokenAt(sc: Scope, reg: Registry, key: string, s: string, tokens: seq<string>): (nat, State) -> Result<State> {
    (i: nat, st: State) => if i < |tokens| then Token(sc, reg, key, s, tokens, i, st) else Ok(st)
  }

  /** Tokens j.. in order, every one of them evaluated. */
  function Tokens(sc: Scope, reg: Registry, key: string, s: string, tokens: seq<string>, j: nat, st: State): Result<State>
    requires j <= |tokens|
  {
    Sequence(TokenAt(sc, reg, key, s, tokens), |tokens|, j, st)
  }

  /** A string declaration, split on '|'. */
  function StringField(sc: Scope, reg: Registry, key: string, s: string, st: State): Result<State> {
    Tokens(sc, reg, key, s, Split(s, '|'), 0, st)
  }

  // -------------------------------------------------------- array rules

  /** `messages[key + '.*'] || (messages[key] || {})['*'] || {}`. */
  function Wildcard(messages: JValue, key: string): (r: Result<JValue>)
    ensures r.Err? <==> messages.Undefined? || messages.Null?
    ensures r.Ok? && Truthy(Get(messages, key + ".*").value) ==> r.value == Get(messages, key + ".*").value
    ensures r.Ok? && !Truthy(Get(messages, key + ".*").value) && !Truthy(Get(messages, key).value) ==> r.value == Obj([])
    ensures r.Ok? && !Truthy(Get(messages, key + ".*").value) && Truthy(Get(messages, key).value) ==>
      var star := Get(Get(messages, key).value, "*").value;
      r.value == if Truthy(star) then star else Obj([])
  {
    var dotted :- Get(messages, key + ".*");
    if Truthy(dotted) then Ok(dotted)
    else
      var own := Get(messages, key).value;
      var scope := if Truthy(own) then own else Obj([]);
      var star := Get(scope, "*").value;
      Ok(if Truthy(star) then star else Obj([]))
  }

  /** `(value || []).forEach`: the elements visited; a truthy non-array has no
      `forEach` and throws. */
  function Items(value: JValue): (r: Result<seq<JValue>>)
    ensures !Truthy(value) ==> r == Ok([])
    ensures value.Arr? ==> r == Ok(value.items)
    ensures Truthy(value) && !value.Arr? ==> r == Err(TypeError)
  {
    if !Truthy(value) then Ok([])
    else if value.Arr? then Ok(value.items)
    else Err(TypeError)
  }

  /** The declaration element i is checked against: `specs[i]`, or the last
      one when the value has more elements than there are declarations. */
  function ElementSpec(specs: seq<JValue>, i: nat): (r: JValue)
    requires |specs| > 0
    ensures r in specs
    ensures i < |specs| ==> r == specs[i]
    ensures i >= |specs| ==> r == specs[|specs| - 1]
  {
    specs[if i < |specs| then i else |specs| - 1]
  }

  /** The nested build for element i: `{i: item}` against `{i: spec}`, with
      the global messages, then `{i: wildcard}`, then `messages[key]`. */
  function ElementScope(specs: seq<JValue>, items: seq<JValue>, globals: Dict, wild: JValue, fm: JValue, i: nat): Scope
    requires |specs| > 0 && i < |items|
  {
    var index := NatToString(i);
    Scope(Obj([(index, items[i])]), Obj([(index, ElementSpec(specs, i))]),
      Obj(PutAll(PutAll(globals, [(index, wild)]), Spread(fm))))
  }

  lemma ElementScopeSmaller(specs: seq<JValue>, items: seq<JValue>, globals: Dict, wild: JValue, fm: JValue, i: nat)
    requires |specs| > 0 && i < |items|
    ensures Size(ElementScope(specs, items, globals, wild, fm, i).rules) < Size(Arr(specs))
  {
    var spec := ElementSpec(specs, i);
    var j :| 0 <= j < |specs| && specs[j] == spec;
    SizeItemsBound(specs, j);
    var rules := Obj([(NatToString(i), spec)]);
    assert SizeProps(rules, [(NatToString(i), spec)]) == Size(spec);
  }

  /** `validation_alright[key][i] = v` on an array of length |xs| <= i: the
      gap is left as holes, which read as undefined. */
  function SetIndex(xs: seq<JValue>, i: nat, v: JValue): (r: seq<JValue>)
    requires |xs| <= i
    ensures |r| == i + 1 && r[..|xs|] == xs && r[i] == v
    ensures forall m :: |xs| <= m < i ==> r[m] == Undefined
  {
    xs + seq(i - |xs|, _ => Undefined) + [v]
  }

  /** The elements from i on: accepted element values are gathered at their
      index, resolved element errors are merged into one object. */
  function Elements(sc: Scope, reg: Registry, specs: seq<JValue>, items: seq<JValue>,
                    globals: Dict, wild: JValue, fm: JValue, i: nat, kept: seq<JValue>, errs: Dict)
    : Result<(seq<JValue>, Dict)>
    requires |specs| > 0 && Size(Arr(specs)) < Size(sc.rules) && i <= |items| && |kept| <= i
    decreases Size(sc.rules), 0, |items| - i
  {
    if i == |items| then Ok((kept, errs))
    else
      var nested := ElementScope(specs, items, globals, wild, fm, i);
      ElementScopeSmaller(specs, items, globals, wild, fm, i);
      var run :- Run(nested, reg);
      if run.results == [] then
        var kept1 := match Lookup(run.accepted, NatToString(i))
          case Some(x) => SetIndex(kept, i, x)
          case None => kept;
        Elements(sc, reg, specs, items, globals, wild, fm, i + 1, kept1, errs)
      else
        var e :- Resolve(nested, run.results);
        Elements(sc, reg, specs, items, globals, wild, fm, i + 1, kept, PutAll(errs, e))
  }

  /** One element whose nested run passed: its accepted value, if any, is
      stored at its index. */
  lemma ElementsPassStep(sc: Scope, reg: Registry, specs: seq<JValue>, items: seq<JValue>,
                         globals: Dict, wild: JValue, fm: JValue, i: nat, kept: seq<JValue>, errs: Dict, run: State)
    requires |specs| > 0 && Size(Arr(specs)) < Size(sc.rules) && i < |items| && |kept| <= i
    requires Run(ElementScope(specs, items, globals, wild, fm, i), reg) == Ok(run) && run.results == []
    ensures var kept1 := if NatToString(i) in KeysOf(run.accepted) then SetIndex(kept, i, Lookup(run.accepted, NatToString(i)).value) else kept;
      Elements(sc, reg, specs, items, globals, wild, fm, i, kept, errs)
      == Elements(sc, reg, specs, items, globals, wild, fm, i + 1, kept1, errs)
  {
  }

  /** One element whose nested run failed: its resolved errors are merged. */
  lemma ElementsFailStep(sc: Scope, reg: Registry, specs: seq<JValue>, items: seq<JValue>,
                         globals: Dict, wild: JValue, fm: JValue, i: nat, kept: seq<JValue>, errs: Dict, run: State)
    requires |specs| > 0 && Size(Arr(specs)) < Size(sc.rules) && i < |items| && |kept| <= i
    requires Run(ElementScope(specs, items, globals, wild, fm, i), reg) == Ok(run) && run.results != []
    ensures Elements(sc, reg, specs, items, globals, wild, fm, i, kept, errs)
      == match Resolve(ElementScope(specs, items, globals, wild, fm, i), run.results)
        case Ok(e) => Elements(sc, reg, specs, items, globals, wild, fm, i + 1, kept, PutAll(errs, e))
        case Err(f) => Err(f)
  {
  }

  /** The closing deletes: an empty accepted array and an empty error
      object leave no entry behind. */
  function Finish(st: State, key: string, kept: seq<JValue>, errs: Dict): State {
    State(if errs == [] then Delete(st.results, key) else Put(st.results, key, Obj(errs)),
          if kept == [] then Delete(st.accepted, key) else Put(st.accepted, key, Arr(kept)))
  }

  /** An array declaration: the `array` guard, then one nested validation per
      element of the value. */
  function ArrayField(sc: Scope, reg: Registry, key: string, specs: seq<JValue>, st: State): Result<State>
    requires Size(Arr(specs)) < Size(sc.rules)
    decreases Size(sc.rules), 1
  {
    var value :- Get(sc.values, key);
    if "array" !in reg then Err(TypeError)
    else
      var guard := reg["array"](Str(key), value, Undefined, Undefined, Undefined);
      if Truthy(guard) then Ok(State(Put(st.results, key + ".array", guard), st.accepted))
      else if specs == [] then Ok(st)
      else
        var globals :- Utils.GetGlobalFields(sc.messages);
        var wild := Wildcard(sc.messages, key).value;
        var fm := Get(sc.messages, key).value;
        var items :- Items(value);
        var acc :- Elements(sc, reg, specs, items, globals, wild, fm, 0, [], []);
        Ok(Finish(st, key, acc.0, acc.1))
  }

  // ------------------------------------------------------- object rules

  /** The arguments of the nested `build` for an object declaration: the
      field's value against the declaration, with the global messages
      overlaid by `messages[key]`. */
  function ObjectScope(sc: Scope, key: string, spec: JValue): (r: Result<Scope>)
    ensures r.Err? <==> (sc.values.Undefined? || sc.values.Null? || sc.messages.Undefined? || sc.messages.Null?
                         || !IsObjectType(Default(Get(sc.values, key).value)) || !IsObjectType(Default(spec)))
    ensures r.Err? ==> r.error == TypeError || r.error == SyntaxError(ShapeMessage)
    ensures r.Ok? ==> r.value.values == Default(Get(sc.values, key).value) && r.value.rules == Default(spec)
    ensures r.Ok? ==> r.value.messages == Obj(PutAll(Utils.GetGlobalFields(sc.messages).value, Spread(Get(sc.messages, key).value)))
  {
    var value :- Get(sc.values, key);
    var globals :- Utils.GetGlobalFields(sc.messages);
    Shape(value, spec, Obj(PutAll(globals, Spread(Get(sc.messages, key).value))))
  }

  /** An object (or null) declaration: the `object` guard, then one nested
      validation of `values[key]` with the global messages overlaid by
      `messages[key]`. */
  function ObjectField(sc: Scope, reg: Registry, key: string, spec: JValue, st: State): Result<State>
    requires (spec.Obj? || spec.Null?) && Size(spec) < Size(sc.rules)
    decreases Size(sc.rules), 1
  {
    var value :- Get(sc.values, key);
    if "object" !in reg then Err(TypeError)
    else
      var guard := reg["object"](Str(key), value, Undefined, Undefined, Undefined);
      if Truthy(guard) then Ok(State(Put(st.results, key + ".object", guard), st.accepted))
      else
        var nested :- ObjectScope(sc, key, spec);
        var run :- Run(nested, reg);
        if run.results == [] then Ok(State(st.results, Put(st.accepted, key, Obj(run.accepted))))
        else
          var errs :- Resolve(nested, run.results);
          Ok(State(Put(st.results, key, Obj(errs)), st.accepted))
  }

  // ------------------------------------------------- message resolution

  /** `validation_results[ek]`. */
  function RawOf(results: Dict, ek: string): JValue {
    match Lookup(results, ek)
    case Some(x) => x
    case None => Undefined
  }

  /** `ek.split('.')[0]`: the field of a raw key. */
  function FieldOf(ek: string): string {
    Split(ek, '.')[0]
  }

  /** `ek.split('.')[1]` used as a property key: the rule of a raw key, or
      "undefined" when the key has no '.'. */
  function RuleOf(ek: string): string {
    var parts := Split(ek, '.');
    if |parts| > 1 then parts[1] else "undefined"
  }

  /** The output entry for one raw key, by the precedence chain of `errors`:
      nested errors verbatim; the exact raw key in messages; the rule under
      the field's messages; a global message for the rule; the template's
      own message under the raw key. */
  function ResolveKey(sc: Scope, results: Dict, ek: string): (r: Result<(string, JValue)>)
    ensures r.Err? ==> r.error == TypeError
    ensures sc.rules.Obj? && sc.messages.Obj? && Lookup(sc.messages.props, FieldOf(ek)) == None ==> r.Ok?
    ensures r.Ok? ==> r.value.0 == ek || r.value.0 == FieldOf(ek)
  {
    var spec :- Get(sc.rules, ek);
    if IsObjectType(spec) then Ok((ek, RawOf(results, ek)))
    else
      var field := FieldOf(ek);
      var rule := RuleOf(ek);
      var exact :- Has(sc.messages, ek);
      if exact then Ok((field, Get(sc.messages, ek).value))
      else
        var fm := Get(sc.messages, field).value;
        var inField :- if Has(sc.messages, field).value then Has(fm, rule) else Ok(false);
        if inField then Ok((field, Get(fm, rule).value))
        else if Has(sc.messages, rule).value then Ok((field, Get(sc.messages, rule).value))
        else Ok((ek, RawOf(results, ek)))
  }

  /** The `forEach` of `errors` from raw key i on, writing into `out`. */
  function ResolveFrom(sc: Scope, results: Dict, keys: seq<string>, i: nat, out: Dict): Result<Dict>
    requires i <= |keys|
    decreases |keys| - i
  {
    if i == |keys| then Ok(out)
    else
      var entry :- ResolveKey(sc, results, keys[i]);
      ResolveFrom(sc, results, keys, i + 1, Put(out, entry.0, entry.1))
  }

  /** The error object `errors` returns for the recorded raw keys. */
  function Resolve(sc: Scope, results: Dict): Result<Dict> {
    ResolveFrom(sc, results, KeysOf(results), 0, [])
  }
}
