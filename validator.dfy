/** The objects of src/validator.js: the shared rule registry that `custom`
    extends, and the result object `build` returns, whose `alright` clears and
    refills its two dictionaries step by step. Every method is proved to leave
    the dictionaries exactly where the functions of the Engine module say. */
module Validator {

  import opened Wrappers
  import opened Text
  import opened JsValues
  import Utils
  import opened Engine
  import Registries

  /** The module-level `rule_validators` table. */
  class RuleRegistry {
    var templates: Registry

    /** The table as loaded: the template list, plus the `object` guard. */
    constructor ()
      ensures templates == Registries.BuiltinRegistry()
    {
      templates := Registries.BuiltinRegistry();
    }

    /** `custom(rule, validator)`: registers a template, replacing any
        template of the same name; every other name keeps its template. */
    method Custom(rule: string, validator: Template)
      modifies this
      ensures rule in templates && templates[rule] == validator
      ensures forall name :: name != rule ==> (name in templates <==> name in old(templates))
      ensures forall name :: name != rule && name in templates ==> templates[name] == old(templates)[name]
    {
      templates := templates[rule := validator];
    }
  }

  /** The method ended where the specification says: with the same fault,
      or with no fault and the specified dictionaries. */
  predicate Reached(run: Result<State>, thrown: Option<Fault>, results: Dict, accepted: Dict) {
    match run
    case Ok(st) => thrown == None && results == st.results && accepted == st.accepted
    case Err(f) => thrown == Some(f)
  }

  /** `build`: the argument check, then a fresh result object with empty
      dictionaries over the shared registry. */
  method Build(values: JValue, rules: JValue, messages: JValue, registry: RuleRegistry) returns (r: Result<Validation>)
    ensures Shape(values, rules, messages).Err? ==> r == Err(Shape(values, rules, messages).error)
    ensures Shape(values, rules, messages).Ok? ==>
      r.Ok? && fresh(r.value) && r.value.Arguments() == Shape(values, rules, messages).value
      && r.value.registry == registry && r.value.results == [] && r.value.accepted == []
  {
    var shaped := Shape(values, rules, messages);
    if shaped.Err? {
      return Err(shaped.error);
    }
    var v := new Validation(shaped.value, registry);
    return Ok(v);
  }

  /** The object `build` returns, with `validation_results` and
      `validation_alright` as its two dictionaries. */
  class Validation {
    const values: JValue
    const rules: JValue
    const messages: JValue
    const registry: RuleRegistry
    var results: Dict
    var accepted: Dict

    function Arguments(): Scope {
      Scope(values, rules, messages)
    }

    constructor (sc: Scope, registry: RuleRegistry)
      ensures Arguments() == sc && this.registry == registry
      ensures results == [] && accepted == []
    {
      values, rules, messages := sc.values, sc.rules, sc.messages;
      this.registry := registry;
      results, accepted := [], [];
    }

    /** `alright()`: clears both dictionaries, walks the rule keys, and
        reports whether no raw key was recorded. */
    method Alright() returns (passed: Result<bool>)
      modifies this
      decreases Size(rules), 4
      ensures match Run(Arguments(), registry.templates)
        case Ok(st) => passed == Ok(st.results == []) && results == st.results && accepted == st.accepted
        case Err(f) => passed == Err(f)
    {
      results := [];
      accepted := [];
      var reg := registry.templates;
      match rules {
        case Obj(ps) =>
          var keys := KeysOf(ps);
          var i := 0;
          while i < |keys|
            invariant i <= |keys|
            invariant Walk(Arguments(), reg, keys, 0, State([], [])) == Walk(Arguments(), reg, keys, i, State(results, accepted))
          {
            var thrown := Step(keys[i]);
            if thrown.Some? {
              return Err(thrown.value);
            }
            i := i + 1;
          }
          passed := Ok(results == []);
        case Null =>
          passed := Err(TypeError);
        case _ =>
          passed := Ok(true);
      }
    }

    /** The body of the `forEach` over the rule keys, for one key. */
    method Step(key: string) returns (thrown: Option<Fault>)
      requires rules.Obj?
      modifies this
      decreases Size(rules), 3
      ensures Reached(Field(Arguments(), registry.templates, key, old(State(results, accepted))), thrown, results, accepted)
    {
      match Lookup(rules.props, key) {
        case None =>
          thrown := None;
        case Some(spec) =>
          LookupSmaller(rules, rules.props, key);
          match spec {
            case Str(s) => thrown := StringStep(key, s);
            case Arr(specs) => thrown := ArrayStep(key, specs);
            case Obj(_) => thrown := ObjectStep(key, spec);
            case Null => thrown := ObjectStep(key, spec);
            case _ => thrown := None;
          }
      }
    }

    /** A string declaration: every token of `s.split('|')`, left to right. */
    method StringStep(key: string, s: string) returns (thrown: Option<Fault>)
      modifies this
      ensures Reached(StringField(Arguments(), registry.templates, key, s, old(State(results, accepted))), thrown, results, accepted)
    {
      var reg := registry.templates;
      var tokens := Split(s, '|');
      var j := 0;
      while j < |tokens|
        invariant j <= |tokens|
        invariant Tokens(Arguments(), reg, key, s, tokens, 0, old(State(results, accepted)))
          == Tokens(Arguments(), reg, key, s, tokens, j, State(results, accepted))
      {
        var parts := Split(tokens[j], ':');
        var rule := parts[0];
        var param := if |parts| > 1 then Str(parts[1]) else Undefined;
        if rule !in reg {
          return Some(UnknownRule(s, key, rule));
        }
        if values.Undefined? || values.Null? {
          return Some(TypeError);
        }
        var value := Get(values, key).value;
        var result := reg[rule](Str(key), value, param, Str(rule), TokenList(tokens));
        if Truthy(result) {
          results := Put(results, key + "." + rule, result);
        } else {
          accepted := Put(accepted, key, value);
        }
        j := j + 1;
      }
      thrown := None;
    }

    /** An array declaration: the `array` guard, then one nested result
        object per element, whose accepted value or errors are collected. */
    method ArrayStep(key: string, specs: seq<JValue>) returns (thrown: Option<Fault>)
      requires Size(Arr(specs)) < Size(rules)
      modifies this
      decreases Size(rules), 2
      ensures Reached(ArrayField(Arguments(), registry.templates, key, specs, old(State(results, accepted))), thrown, results, accepted)
    {
      var reg := registry.templates;
      if values.Undefined? || values.Null? {
        return Some(TypeError);
      }
      var value := Get(values, key).value;
      if "array" !in reg {
        return Some(TypeError);
      }
      var guard := reg["array"](Str(key), value, Undefined, Undefined, Undefined);
      if Truthy(guard) {
        results := Put(results, key + ".array", guard);
        return None;
      }
      if |specs| == 0 {
        return None;
      }
      if messages.Undefined? || messages.Null? {
        return Some(TypeError);
      }
      var globals := Utils.GetGlobalFields(messages).value;
      var wild := Wildcard(messages, key).value;
      var fm := Get(messages, key).value;
      var items: seq<JValue>;
      match Items(value) {
        case Err(f) => return Some(f);
        case Ok(xs) => items := xs;
      }
      var kept: seq<JValue>, errs: Dict;
      thrown, kept, errs := Collect(specs, items, globals, wild, fm);
      if thrown.Some? {
        return;
      }
      results := if errs == [] then Delete(results, key) else Put(results, key, Obj(errs));
      accepted := if kept == [] then Delete(accepted, key) else Put(accepted, key, Arr(kept));
    }

    /** The `forEach` over the elements of an array value: a nested result
        object per element; an accepted element is stored at its index, the
        errors of a failed one are merged into `errs`. */
    method Collect(specs: seq<JValue>, items: seq<JValue>, globals: Dict, wild: JValue, fm: JValue)
      returns (thrown: Option<Fault>, kept: seq<JValue>, errs: Dict)
      requires |specs| > 0 && Size(Arr(specs)) < Size(rules)
      decreases Size(rules), 1
      ensures match Elements(Arguments(), registry.templates, specs, items, globals, wild, fm, 0, [], [])
        case Ok(acc) => thrown == None && kept == acc.0 && errs == acc.1
        case Err(f) => thrown == Some(f)
    {
      var reg := registry.templates;
      ghost var args := Arguments();
      ghost var target := Elements(args, reg, specs, items, globals, wild, fm, 0, [], []);
      thrown, kept, errs := None, [], [];
      var i := 0;
      while i < |items| && thrown == None
        invariant i <= |items| && |kept| <= i
        invariant registry.templates == reg
        invariant match thrown
          case None => target == Elements(args, reg, specs, items, globals, wild, fm, i, kept, errs)
          case Some(f) => target == Err(f)
      {
        var k, e;
        thrown, k, e := CollectOne(specs, items, globals, wild, fm, i, kept, errs, args, reg);
        if thrown == None {
          kept, errs := k, e;
        }
        i := i + 1;
      }
    }

    /** One turn of the `forEach`: the nested result object of element `i`. */
    method CollectOne(specs: seq<JValue>, items: seq<JValue>, globals: Dict, wild: JValue, fm: JValue,
                      i: nat, kept: seq<JValue>, errs: Dict, ghost args: Scope, ghost reg: Registry)
      returns (thrown: Option<Fault>, kept': seq<JValue>, errs': Dict)
      requires |specs| > 0 && Size(Arr(specs)) < Size(rules) && i < |items| && |kept| <= i
      requires args == Arguments() && registry.templates == reg
      decreases Size(rules), 0
      ensures |kept'| <= i + 1
      ensures var rest := Elements(args, reg, specs, items, globals, wild, fm, i, kept, errs);
        match thrown
        case None => rest == Elements(args, reg, specs, items, globals, wild, fm, i + 1, kept', errs')
        case Some(f) => rest == Err(f)
    {
      var sc := ElementScope(specs, items, globals, wild, fm, i);
      ElementScopeSmaller(specs, items, globals, wild, fm, i);
      var nested := new Validation(sc, registry);
      var passed := nested.Alright();
      if passed.Err? {
        return Some(passed.error), kept, errs;
      }
      ghost var run := Run(sc, reg).value;
      kept', errs' := kept, errs;
      if passed.value {
        ElementsPassStep(Arguments(), reg, specs, items, globals, wild, fm, i, kept, errs, run);
        var index := NatToString(i);
        if index in KeysOf(nested.accepted) {
          kept' := SetIndex(kept, i, Lookup(nested.accepted, index).value);
        }
        return None, kept', errs';
      }
      ElementsFailStep(Arguments(), reg, specs, items, globals, wild, fm, i, kept, errs, run);
      var failed := nested.Failed();
      if failed.Err? {
        return Some(failed.error), kept, errs;
      }
      if failed.value.Some? {
        errs' := PutAll(errs, failed.value.value);
      }
      thrown := None;
    }

    /** An object (or null) declaration: the `object` guard, then one nested
        result object over `values[key]`. */
    method ObjectStep(key: string, spec: JValue) returns (thrown: Option<Fault>)
      requires (spec.Obj? || spec.Null?) && Size(spec) < Size(rules)
      modifies this
      decreases Size(rules), 2
      ensures Reached(ObjectField(Arguments(), registry.templates, key, spec, old(State(results, accepted))), thrown, results, accepted)
    {
      var reg := registry.templates;
      if values.Undefined? || values.Null? {
        return Some(TypeError);
      }
      var value := Get(values, key).value;
      if "object" !in reg {
        return Some(TypeError);
      }
      var guard := reg["object"](Str(key), value, Undefined, Undefined, Undefined);
      if Truthy(guard) {
        results := Put(results, key + ".object", guard);
        return None;
      }
      if messages.Undefined? || messages.Null? {
        return Some(TypeError);
      }
      var globals := Utils.GetGlobalFields(messages).value;
      var fm := Get(messages, key).value;
      var built := Build(value, spec, Obj(PutAll(globals, Spread(fm))), registry);
      if built.Err? {
        return Some(built.error);
      }
      var nested := built.value;
      var passed := nested.Alright();
      if passed.Err? {
        return Some(passed.error);
      }
      if passed.value {
        accepted := Put(accepted, key, Obj(nested.accepted));
      }
      var failed := nested.Failed();
      if failed.Err? {
        return Some(failed.error);
      }
      if failed.value.Some? {
        results := Put(results, key, Obj(failed.value.value));
      }
      thrown := None;
    }

    /** `failed()`: the resolved errors when a raw key is recorded, nothing
        otherwise; the dictionaries are left as they are. */
    method Failed() returns (r: Result<Option<Dict>>)
      modifies this
      decreases Size(rules), 6
      ensures results == old(results) && accepted == old(accepted)
      ensures old(results) == [] ==> r == Ok(None)
      ensures old(results) != [] ==> r == match Resolve(Arguments(), old(results))
        case Ok(e) => Ok(Some(e))
        case Err(f) => Err(f)
    {
      if results == [] {
        return Ok(None);
      }
      var e := Errors();
      match e {
        case Ok(d) => r := Ok(Some(d));
        case Err(f) => r := Err(f);
      }
    }

    /** `errors()`: runs `alright` first when nothing is recorded, then maps
        every raw key through the precedence chain, later writes winning. */
    method Errors() returns (r: Result<Dict>)
      modifies this
      decreases Size(rules), 5
      ensures old(results) != [] ==> r == Resolve(Arguments(), old(results)) && results == old(results) && accepted == old(accepted)
      ensures old(results) == [] ==> match Run(Arguments(), registry.templates)
        case Ok(st) => results == st.results && accepted == st.accepted && r == Resolve(Arguments(), st.results)
        case Err(f) => r == Err(f)
    {
      if results == [] {
        var passed := Alright();
        if passed.Err? {
          return Err(passed.error);
        }
      }
      r := ResolveAll(results);
    }

    /** The `forEach` of `errors` over the raw keys of `recorded`, writing
        each resolved entry into a fresh error object. */
    method ResolveAll(recorded: Dict) returns (r: Result<Dict>)
      ensures r == Resolve(Arguments(), recorded)
    {
      var keys := KeysOf(recorded);
      var out: Dict := [];
      var i := 0;
      while i < |keys|
        invariant i <= |keys|
        invariant Resolve(Arguments(), recorded) == ResolveFrom(Arguments(), recorded, keys, i, out)
      {
        var entry := ResolveKey(Arguments(), recorded, keys[i]);
        if entry.Err? {
          return Err(entry.error);
        }
        out := Put(out, entry.value.0, entry.value.1);
        i := i + 1;
      }
      r := Ok(out);
    }
  }

  /** `builder()`: collects the three arguments in any order, then builds. */
  class Builder {
    var values: JValue
    var rules: JValue
    var messages: JValue
    const registry: RuleRegistry

    constructor (registry: RuleRegistry)
      ensures values == Undefined && rules == Undefined && messages == Undefined
      ensures this.registry == registry
    {
      values, rules, messages := Undefined, Undefined, Undefined;
      this.registry := registry;
    }

    method Values(v: JValue)
      modifies this
      ensures values == v && rules == old(rules) && messages == old(messages)
    {
      values := v;
    }

    method Rules(v: JValue)
      modifies this
      ensures rules == v && values == old(values) && messages == old(messages)
    {
      rules := v;
    }

    method Messages(v: JValue)
      modifies this
      ensures messages == v && values == old(values) && rules == old(rules)
    {
      messages := v;
    }

    /** `build()`: the last value set for each argument, absent ones left to
        the defaults of `build`. */
    method HandleBuild() returns (r: Result<Validation>)
      ensures Shape(values, rules, messages).Err? ==> r == Err(Shape(values, rules, messages).error)
      ensures Shape(values, rules, messages).Ok? ==>
        r.Ok? && fresh(r.value) && r.value.Arguments() == Shape(values, rules, messages).value
        && r.value.registry == registry && r.value.results == [] && r.value.accepted == []
    {
      r := Build(values, rules, messages, registry);
    }
  }

  /** Two runs of `alright` on the same result object give identical
      verdicts and dictionaries, since each run starts from cleared ones. */
  method AlrightTwice(v: Validation) returns (first: Result<bool>, second: Result<bool>)
    modifies v
    ensures first == second
    ensures first.Ok? ==>
      Run(v.Arguments(), v.registry.templates).Ok?
      && v.results == Run(v.Arguments(), v.registry.templates).value.results
      && v.accepted == Run(v.Arguments(), v.registry.templates).value.accepted
  {
    first := v.Alright();
    second := v.Alright();
  }
}
