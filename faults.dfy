/** What can be thrown by a validation of src/validator.js, and how a throw
    inside a nested validation reaches the caller. Nothing catches: the
    nested `build` and its `alright`/`failed` callbacks run inside the
    parent's `forEach`, so their first throw ends the parent too. */
module Faults {

  import opened Wrappers
  import opened Text
  import opened JsValues
  import opened Engine
  import Utils

  /** The errors a validation can raise: the argument-shape SyntaxError of
      `build`, the SyntaxError of an unregistered rule name, and the
      TypeError of a property read, an `in` test or an `Object.keys` on a
      value that does not allow it. */
  ghost predicate KnownFault(f: Fault) {
    f == TypeError || f == SyntaxError(ShapeMessage)
    || exists s: string, key: string, rule: string :: f == UnknownRule(s, key, rule)
  }

  lemma GlobalFieldsFault(v: JValue)
    ensures Utils.GetGlobalFields(v).Err? ==> Utils.GetGlobalFields(v).error == TypeError
  {
  }

  /** Resolving messages can only throw a TypeError. */
  lemma {:induction false} ResolveFromFault(sc: Scope, results: Dict, keys: seq<string>, i: nat, out: Dict)
    requires i <= |keys|
    ensures ResolveFrom(sc, results, keys, i, out).Err? ==> ResolveFrom(sc, results, keys, i, out).error == TypeError
    decreases |keys| - i
  {
    if i < |keys| && ResolveKey(sc, results, keys[i]).Ok? {
      var entry := ResolveKey(sc, results, keys[i]).value;
      ResolveFromFault(sc, results, keys, i + 1, Put(out, entry.0, entry.1));
    }
  }

  lemma ResolveFault(sc: Scope, results: Dict)
    ensures Resolve(sc, results).Err? ==> Resolve(sc, results).error == TypeError
  {
    ResolveFromFault(sc, results, KeysOf(results), 0, []);
  }

  /** A token throws a TypeError on unreadable values or the unknown-rule
      SyntaxError. */
  lemma TokenFault(sc: Scope, reg: Registry, key: string, s: string, tokens: seq<string>, j: nat, st: State)
    requires j < |tokens|
    ensures Token(sc, reg, key, s, tokens, j, st).Err? ==> KnownFault(Token(sc, reg, key, s, tokens, j, st).error)
  {
    var rule := RuleName(tokens[j]);
    if rule !in reg {
      assert Token(sc, reg, key, s, tokens, j, st).error == UnknownRule(s, key, rule);
    }
  }

  /** A `forEach` whose every step throws only faults of a kind throws
      only faults of that kind. */
  lemma {:induction false} SequenceFault(step: (nat, State) -> Result<State>, n: nat, j: nat, st: State)
    requires forall i, st' :: j <= i < n && step(i, st').Err? ==> KnownFault(step(i, st').error)
    ensures Sequence(step, n, j, st).Err? ==> KnownFault(Sequence(step, n, j, st).error)
    decreases n - j
  {
    if j < n && step(j, st).Ok? {
      SequenceFault(step, n, j + 1, step(j, st).value);
    }
  }

  lemma TokensFault(sc: Scope, reg: Registry, key: string, s: string, tokens: seq<string>, j: nat, st: State)
    requires j <= |tokens|
    ensures Tokens(sc, reg, key, s, tokens, j, st).Err? ==> KnownFault(Tokens(sc, reg, key, s, tokens, j, st).error)
  {
    var step := TokenAt(sc, reg, key, s, tokens);
    forall i, st' | j <= i < |tokens| && step(i, st').Err?
      ensures KnownFault(step(i, st').error)
    {
      TokenFault(sc, reg, key, s, tokens, i, st');
    }
    SequenceFault(step, |tokens|, j, st);
  }

  /** Every fault of a run is one of the known ones. */
  lemma RunFault(sc: Scope, reg: Registry)
    ensures Run(sc, reg).Err? ==> KnownFault(Run(sc, reg).error)
    decreases Size(sc.rules), 4
  {
    if sc.rules.Obj? {
      WalkFault(sc, reg, KeysOf(sc.rules.props), 0, State([], []));
    }
  }

  lemma {:induction false} WalkFault(sc: Scope, reg: Registry, keys: seq<string>, i: nat, st: State)
    requires sc.rules.Obj? && i <= |keys|
    ensures Walk(sc, reg, keys, i, st).Err? ==> KnownFault(Walk(sc, reg, keys, i, st).error)
    decreases Size(sc.rules), 3, |keys| - i
  {
    if i < |keys| {
      FieldFault(sc, reg, keys[i], st);
      if Field(sc, reg, keys[i], st).Ok? {
        WalkFault(sc, reg, keys, i + 1, Field(sc, reg, keys[i], st).value);
      }
    }
  }

  lemma FieldFault(sc: Scope, reg: Registry, key: string, st: State)
    requires sc.rules.Obj?
    ensures Field(sc, reg, key, st).Err? ==> KnownFault(Field(sc, reg, key, st).error)
    decreases Size(sc.rules), 2
  {
    match Lookup(sc.rules.props, key)
    case None =>
    case Some(spec) =>
      LookupSmaller(sc.rules, sc.rules.props, key);
      match spec
      case Str(s) => TokensFault(sc, reg, key, s, Split(s, '|'), 0, st);
      case Arr(specs) => ArrayFieldFault(sc, reg, key, specs, st);
      case Obj(_) => ObjectFieldFault(sc, reg, key, spec, st);
      case Null => ObjectFieldFault(sc, reg, key, spec, st);
      case _ =>
  }

  lemma ArrayFieldFault(sc: Scope, reg: Registry, key: string, specs: seq<JValue>, st: State)
    requires Size(Arr(specs)) < Size(sc.rules)
    ensures ArrayField(sc, reg, key, specs, st).Err? ==> KnownFault(ArrayField(sc, reg, key, specs, st).error)
    decreases Size(sc.rules), 1
  {
    if !(sc.values.Undefined? || sc.values.Null?) && "array" in reg && specs != []
       && !(sc.messages.Undefined? || sc.messages.Null?) {
      var value := Get(sc.values, key).value;
      var items := Items(value);
      if items.Ok? {
        var globals := Utils.GetGlobalFields(sc.messages).value;
        ElementsFault(sc, reg, specs, items.value, globals, Wildcard(sc.messages, key).value,
                      Get(sc.messages, key).value, 0, [], []);
      }
    }
    GlobalFieldsFault(sc.messages);
  }

  lemma ObjectFieldFault(sc: Scope, reg: Registry, key: string, spec: JValue, st: State)
    requires (spec.Obj? || spec.Null?) && Size(spec) < Size(sc.rules)
    ensures ObjectField(sc, reg, key, spec, st).Err? ==> KnownFault(ObjectField(sc, reg, key, spec, st).error)
    decreases Size(sc.rules), 1
  {
    var nested := ObjectScope(sc, key, spec);
    if nested.Ok? {
      assert Size(nested.value.rules) < Size(sc.rules);
      RunFault(nested.value, reg);
      if Run(nested.value, reg).Ok? {
        ResolveFault(nested.value, Run(nested.value, reg).value.results);
      }
    }
  }

  lemma {:induction false} ElementsFault(sc: Scope, reg: Registry, specs: seq<JValue>, items: seq<JValue>,
                                        globals: Dict, wild: JValue, fm: JValue, i: nat, kept: seq<JValue>, errs: Dict)
    requires |specs| > 0 && Size(Arr(specs)) < Size(sc.rules) && i <= |items| && |kept| <= i
    ensures Elements(sc, reg, specs, items, globals, wild, fm, i, kept, errs).Err?
      ==> KnownFault(Elements(sc, reg, specs, items, globals, wild, fm, i, kept, errs).error)
    decreases Size(sc.rules), 0, |items| - i
  {
    if i < |items| {
      var nested := ElementScope(specs, items, globals, wild, fm, i);
      ElementScopeSmaller(specs, items, globals, wild, fm, i);
      RunFault(nested, reg);
      var run := Run(nested, reg);
      if run.Ok? && run.value.results == [] {
        ElementsPassStep(sc, reg, specs, items, globals, wild, fm, i, kept, errs, run.value);
        var kept1 := if NatToString(i) in KeysOf(run.value.accepted)
          then SetIndex(kept, i, Lookup(run.value.accepted, NatToString(i)).value) else kept;
        ElementsFault(sc, reg, specs, items, globals, wild, fm, i + 1, kept1, errs);
      } else if run.Ok? {
        ElementsFailStep(sc, reg, specs, items, globals, wild, fm, i, kept, errs, run.value);
        ResolveFault(nested, run.value.results);
        var e := Resolve(nested, run.value.results);
        if e.Ok? {
          ElementsFault(sc, reg, specs, items, globals, wild, fm, i + 1, kept, PutAll(errs, e.value));
        }
      }
    }
  }

  // ------------------------------------------- a nested throw reaches the caller

  /** The fault of one nested validation: its `build` throws, or it records
      results and resolving their messages (in its `failed` callback) throws. */
  ghost function NestedFault(nested: Scope, reg: Registry): Option<Fault> {
    match Run(nested, reg)
    case Err(f) => Some(f)
    case Ok(run) =>
      if run.results == [] then None
      else match Resolve(nested, run.results)
        case Err(f) => Some(f)
        case Ok(_) => None
  }

  /** No element in i..m-1 throws. */
  ghost predicate NoFaultBetween(reg: Registry, specs: seq<JValue>, items: seq<JValue>,
                                 globals: Dict, wild: JValue, fm: JValue, i: nat, m: nat)
    requires |specs| > 0 && m <= |items|
  {
    forall l :: i <= l < m ==> NestedFault(ElementScope(specs, items, globals, wild, fm, l), reg).None?
  }

  /** The element loop stands at i, and element m is the first from i on
      whose nested validation throws, with f. */
  ghost predicate FaultAhead(sc: Scope, reg: Registry, specs: seq<JValue>, items: seq<JValue>,
                             globals: Dict, wild: JValue, fm: JValue, i: nat, kept: seq<JValue>, m: nat, f: Fault)
  {
    |specs| > 0 && Size(Arr(specs)) < Size(sc.rules) && i <= m < |items| && |kept| <= i
    && NoFaultBetween(reg, specs, items, globals, wild, fm, i, m)
    && NestedFault(ElementScope(specs, items, globals, wild, fm, m), reg) == Some(f)
  }

  /** An element before the throwing one hands the loop on to the next. */
  lemma ElementNoFault(sc: Scope, reg: Registry, specs: seq<JValue>, items: seq<JValue>,
                       globals: Dict, wild: JValue, fm: JValue, i: nat, kept: seq<JValue>, errs: Dict, m: nat, f: Fault)
    returns (kept1: seq<JValue>, errs1: Dict)
    requires FaultAhead(sc, reg, specs, items, globals, wild, fm, i, kept, m, f) && i < m
    ensures FaultAhead(sc, reg, specs, items, globals, wild, fm, i + 1, kept1, m, f)
    ensures Elements(sc, reg, specs, items, globals, wild, fm, i, kept, errs)
         == Elements(sc, reg, specs, items, globals, wild, fm, i + 1, kept1, errs1)
  {
    var nested := ElementScope(specs, items, globals, wild, fm, i);
    assert NestedFault(nested, reg).None?;
    var run := Run(nested, reg).value;
    if run.results == [] {
      ElementsPassStep(sc, reg, specs, items, globals, wild, fm, i, kept, errs, run);
      kept1 := if NatToString(i) in KeysOf(run.accepted)
        then SetIndex(kept, i, Lookup(run.accepted, NatToString(i)).value) else kept;
      errs1 := errs;
    } else {
      ElementsFailStep(sc, reg, specs, items, globals, wild, fm, i, kept, errs, run);
      kept1, errs1 := kept, PutAll(errs, Resolve(nested, run.results).value);
    }
  }

  /** The throwing element ends the loop with its fault. */
  lemma ElementFaultHere(sc: Scope, reg: Registry, specs: seq<JValue>, items: seq<JValue>,
                         globals: Dict, wild: JValue, fm: JValue, i: nat, kept: seq<JValue>, errs: Dict, f: Fault)
    requires FaultAhead(sc, reg, specs, items, globals, wild, fm, i, kept, i, f)
    ensures Elements(sc, reg, specs, items, globals, wild, fm, i, kept, errs) == Err(f)
  {
    var nested := ElementScope(specs, items, globals, wild, fm, i);
    if Run(nested, reg).Ok? {
      ElementsFailStep(sc, reg, specs, items, globals, wild, fm, i, kept, errs, Run(nested, reg).value);
    }
  }

  /** The first element whose nested validation throws ends the element
      loop with that fault. */
  lemma {:induction false} ElementFaultReported(sc: Scope, reg: Registry, specs: seq<JValue>, items: seq<JValue>,
                                                globals: Dict, wild: JValue, fm: JValue, i: nat, kept: seq<JValue>, errs: Dict,
                                                m: nat, f: Fault)
    requires FaultAhead(sc, reg, specs, items, globals, wild, fm, i, kept, m, f)
    ensures Elements(sc, reg, specs, items, globals, wild, fm, i, kept, errs) == Err(f)
    decreases m - i
  {
    if i < m {
      var kept1, errs1 := ElementNoFault(sc, reg, specs, items, globals, wild, fm, i, kept, errs, m, f);
      ElementFaultReported(sc, reg, specs, items, globals, wild, fm, i + 1, kept1, errs1, m, f);
    } else {
      ElementFaultHere(sc, reg, specs, items, globals, wild, fm, i, kept, errs, f);
    }
  }

  /** Past a falsy `array` guard, the first element whose nested validation
      throws makes the whole array declaration throw the same fault. */
  lemma ArrayElementFault(sc: Scope, reg: Registry, key: string, specs: seq<JValue>, st: State, items: seq<JValue>,
                          m: nat, f: Fault)
    requires specs != [] && Size(Arr(specs)) < Size(sc.rules)
    requires !(sc.values.Undefined? || sc.values.Null?) && Get(sc.values, key).value == Arr(items)
    requires !(sc.messages.Undefined? || sc.messages.Null?) && "array" in reg
    requires !Truthy(reg["array"](Str(key), Arr(items), Undefined, Undefined, Undefined))
    requires m < |items|
    requires var globals := Utils.GetGlobalFields(sc.messages).value;
      var wild := Wildcard(sc.messages, key).value;
      var fm := Get(sc.messages, key).value;
      NoFaultBetween(reg, specs, items, globals, wild, fm, 0, m)
      && NestedFault(ElementScope(specs, items, globals, wild, fm, m), reg) == Some(f)
    ensures ArrayField(sc, reg, key, specs, st) == Err(f)
  {
    var globals := Utils.GetGlobalFields(sc.messages).value;
    var wild := Wildcard(sc.messages, key).value;
    var fm := Get(sc.messages, key).value;
    ElementFaultReported(sc, reg, specs, items, globals, wild, fm, 0, [], [], m, f);
  }

  /** Past a falsy `object` guard, a throw of the nested validation (or of
      resolving its messages) is the object declaration's own fault. */
  lemma ObjectNestedFault(sc: Scope, reg: Registry, key: string, spec: JValue, st: State, f: Fault)
    requires (spec.Obj? || spec.Null?) && Size(spec) < Size(sc.rules)
    requires Get(sc.values, key).Ok? && "object" in reg
    requires !Truthy(reg["object"](Str(key), Get(sc.values, key).value, Undefined, Undefined, Undefined))
    requires ObjectScope(sc, key, spec).Ok? && NestedFault(ObjectScope(sc, key, spec).value, reg) == Some(f)
    ensures ObjectField(sc, reg, key, spec, st) == Err(f)
  {
  }
}
