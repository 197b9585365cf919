/** Properties of the array and object declarations of src/validator.js:
    what a failing type guard records, when a field is skipped, which
    messages an element is resolved against, and how a nested validation's
    outcome lands in the parent's two dictionaries. */
module NestedRules {

  import opened Wrappers
  import opened Text
  import opened JsValues
  import opened Engine
  import Utils
  import Resolution

  /** The entry `Put` writes is the only one that changes. */
  ghost predicate PutOnly(before: Dict, after: Dict, k: string, v: JValue) {
    Lookup(after, k) == Some(v) && forall k' :: k' != k ==> Lookup(after, k') == Lookup(before, k')
  }

  // ------------------------------------------------------------- arrays

  /** A failing `array` guard records its message under `key.array` and
      nothing else: no element is visited and nothing is accepted. */
  lemma ArrayGuardFailure(sc: Scope, reg: Registry, key: string, specs: seq<JValue>, st: State)
    requires Size(Arr(specs)) < Size(sc.rules)
    requires !(sc.values.Undefined? || sc.values.Null?) && "array" in reg
    requires Truthy(reg["array"](Str(key), Get(sc.values, key).value, Undefined, Undefined, Undefined))
    ensures ArrayField(sc, reg, key, specs, st).Ok?
    ensures var out := ArrayField(sc, reg, key, specs, st).value;
      PutOnly(st.results, out.results, key + ".array", reg["array"](Str(key), Get(sc.values, key).value, Undefined, Undefined, Undefined))
      && out.accepted == st.accepted
  {
  }

  /** An empty list of element declarations skips the field: no fault,
      nothing recorded, nothing accepted. */
  lemma ArrayEmptyListSkips(sc: Scope, reg: Registry, key: string, st: State)
    requires Size(Arr([])) < Size(sc.rules)
    requires !(sc.values.Undefined? || sc.values.Null?) && "array" in reg
    requires !Truthy(reg["array"](Str(key), Get(sc.values, key).value, Undefined, Undefined, Undefined))
    ensures ArrayField(sc, reg, key, [], st) == Ok(st)
  {
  }

  /** An absent (or otherwise falsy) array value visits no element, and the
      closing deletes leave the field in neither dictionary. */
  lemma ArrayFalsyValueVisitsNothing(sc: Scope, reg: Registry, key: string, specs: seq<JValue>, st: State)
    requires specs != [] && Size(Arr(specs)) < Size(sc.rules)
    requires !(sc.values.Undefined? || sc.values.Null?) && !Truthy(Get(sc.values, key).value)
    requires !(sc.messages.Undefined? || sc.messages.Null?) && "array" in reg
    requires !Truthy(reg["array"](Str(key), Get(sc.values, key).value, Undefined, Undefined, Undefined))
    ensures ArrayField(sc, reg, key, specs, st).Ok?
    ensures key !in KeysOf(ArrayField(sc, reg, key, specs, st).value.results)
    ensures key !in KeysOf(ArrayField(sc, reg, key, specs, st).value.accepted)
  {
    var globals := Utils.GetGlobalFields(sc.messages).value;
    var wild := Wildcard(sc.messages, key).value;
    var fm := Get(sc.messages, key).value;
    assert Elements(sc, reg, specs, [], globals, wild, fm, 0, [], []) == Ok(([], []));
    FinishEntries(st, key, [], []);
  }

  /** The closing deletes: the field keeps an error entry exactly when the
      gathered error object is non-empty, and an accepted entry exactly when
      the gathered array is; every other field is left alone. */
  lemma FinishEntries(st: State, key: string, kept: seq<JValue>, errs: Dict)
    ensures key in KeysOf(Finish(st, key, kept, errs).results) <==> errs != []
    ensures key in KeysOf(Finish(st, key, kept, errs).accepted) <==> kept != []
    ensures forall k :: k != key ==> Lookup(Finish(st, key, kept, errs).results, k) == Lookup(st.results, k)
    ensures forall k :: k != key ==> Lookup(Finish(st, key, kept, errs).accepted, k) == Lookup(st.accepted, k)
  {
  }

  /** The nested validation of element m runs and records something. */
  ghost predicate ElementFails(reg: Registry, specs: seq<JValue>, items: seq<JValue>, globals: Dict, wild: JValue, fm: JValue, m: nat)
    requires |specs| > 0 && m < |items|
  {
    var run := Run(ElementScope(specs, items, globals, wild, fm, m), reg);
    run.Ok? && run.value.results != []
  }

  /** What element m leaves in the field's accepted array: the value its
      nested run accepted under its index when that run records nothing. */
  ghost function ElementKept(reg: Registry, specs: seq<JValue>, items: seq<JValue>, globals: Dict, wild: JValue, fm: JValue, m: nat): Option<JValue>
    requires |specs| > 0 && m < |items|
  {
    var run := Run(ElementScope(specs, items, globals, wild, fm, m), reg);
    if run.Ok? && run.value.results == [] && NatToString(m) in KeysOf(run.value.accepted)
    then Some(Lookup(run.value.accepted, NatToString(m)).value)
    else None
  }

  /** The element loop from i on runs without a fault. */
  ghost predicate ElementsOk(sc: Scope, reg: Registry, specs: seq<JValue>, items: seq<JValue>,
                             globals: Dict, wild: JValue, fm: JValue, i: nat, kept: seq<JValue>, errs: Dict)
  {
    |specs| > 0 && Size(Arr(specs)) < Size(sc.rules) && i <= |items| && |kept| <= i
    && Elements(sc, reg, specs, items, globals, wild, fm, i, kept, errs).Ok?
  }

  /** Element i whose nested run records nothing: its accepted value, if
      any, is kept and the errors stay as they are. */
  lemma ElementPassNext(sc: Scope, reg: Registry, specs: seq<JValue>, items: seq<JValue>,
                        globals: Dict, wild: JValue, fm: JValue, i: nat, kept: seq<JValue>, errs: Dict, run: State)
    returns (kept1: seq<JValue>)
    requires ElementsOk(sc, reg, specs, items, globals, wild, fm, i, kept, errs) && i < |items|
    requires Run(ElementScope(specs, items, globals, wild, fm, i), reg) == Ok(run) && run.results == []
    ensures ElementsOk(sc, reg, specs, items, globals, wild, fm, i + 1, kept1, errs)
    ensures Elements(sc, reg, specs, items, globals, wild, fm, i, kept, errs).value
      == Elements(sc, reg, specs, items, globals, wild, fm, i + 1, kept1, errs).value
    ensures kept1 == if NatToString(i) in KeysOf(run.accepted)
      then SetIndex(kept, i, Lookup(run.accepted, NatToString(i)).value) else kept
  {
    ElementsPassStep(sc, reg, specs, items, globals, wild, fm, i, kept, errs, run);
    kept1 := if NatToString(i) in KeysOf(run.accepted) then SetIndex(kept, i, Lookup(run.accepted, NatToString(i)).value) else kept;
  }

  /** Element i whose nested run records something: nothing is kept and its
      resolved errors make the error object non-empty. */
  lemma ElementFailNext(sc: Scope, reg: Registry, specs: seq<JValue>, items: seq<JValue>,
                        globals: Dict, wild: JValue, fm: JValue, i: nat, kept: seq<JValue>, errs: Dict, run: State)
    returns (errs1: Dict)
    requires ElementsOk(sc, reg, specs, items, globals, wild, fm, i, kept, errs) && i < |items|
    requires Run(ElementScope(specs, items, globals, wild, fm, i), reg) == Ok(run) && run.results != []
    ensures ElementsOk(sc, reg, specs, items, globals, wild, fm, i + 1, kept, errs1)
    ensures Elements(sc, reg, specs, items, globals, wild, fm, i, kept, errs).value
      == Elements(sc, reg, specs, items, globals, wild, fm, i + 1, kept, errs1).value
    ensures errs1 != []
  {
    var nested := ElementScope(specs, items, globals, wild, fm, i);
    ElementsFailStep(sc, reg, specs, items, globals, wild, fm, i, kept, errs, run);
    MergedErrorsNonEmpty(nested, run.results, errs);
    errs1 := PutAll(errs, Resolve(nested, run.results).value);
  }

  /** Merging the resolved errors of a run that recorded something leaves a
      non-empty error object. */
  lemma MergedErrorsNonEmpty(nested: Scope, results: Dict, errs: Dict)
    requires results != [] && Resolve(nested, results).Ok?
    ensures PutAll(errs, Resolve(nested, results).value) != []
  {
    var e := Resolve(nested, results).value;
    Resolution.ResolveEmptyIff(nested, results);
    assert e[0].0 in KeysOf(PutAll(errs, e));
  }

  /** One element: the accumulators after it. The errors grow exactly when
      the element's nested run records something, and the kept values gain
      the element's accepted value at its index. */
  lemma ElementsNext(sc: Scope, reg: Registry, specs: seq<JValue>, items: seq<JValue>,
                     globals: Dict, wild: JValue, fm: JValue, i: nat, kept: seq<JValue>, errs: Dict)
    returns (kept1: seq<JValue>, errs1: Dict)
    requires ElementsOk(sc, reg, specs, items, globals, wild, fm, i, kept, errs) && i < |items|
    ensures ElementsOk(sc, reg, specs, items, globals, wild, fm, i + 1, kept1, errs1)
    ensures Elements(sc, reg, specs, items, globals, wild, fm, i, kept, errs).value
      == Elements(sc, reg, specs, items, globals, wild, fm, i + 1, kept1, errs1).value
    ensures errs != [] ==> errs1 != []
    ensures ElementFails(reg, specs, items, globals, wild, fm, i) ==> errs1 != []
    ensures !ElementFails(reg, specs, items, globals, wild, fm, i) ==> errs1 == errs
    ensures var o := ElementKept(reg, specs, items, globals, wild, fm, i);
      kept1 == if o.Some? then SetIndex(kept, i, o.value) else kept
  {
    ElementScopeSmaller(specs, items, globals, wild, fm, i);
    var run := Run(ElementScope(specs, items, globals, wild, fm, i), reg).value;
    if run.results == [] {
      kept1 := ElementPassNext(sc, reg, specs, items, globals, wild, fm, i, kept, errs, run);
      errs1 := errs;
    } else {
      errs1 := ElementFailNext(sc, reg, specs, items, globals, wild, fm, i, kept, errs, run);
      kept1 := kept;
    }
  }

  /** Element errors only accumulate: once something is in the field's
      error object, it stays non-empty. */
  lemma {:induction false} ElementsErrorsStay(sc: Scope, reg: Registry, specs: seq<JValue>, items: seq<JValue>,
                                             globals: Dict, wild: JValue, fm: JValue, i: nat, kept: seq<JValue>, errs: Dict)
    requires ElementsOk(sc, reg, specs, items, globals, wild, fm, i, kept, errs) && errs != []
    ensures Elements(sc, reg, specs, items, globals, wild, fm, i, kept, errs).value.1 != []
    decreases |items| - i
  {
    if i < |items| {
      var kept1, errs1 := ElementsNext(sc, reg, specs, items, globals, wild, fm, i, kept, errs);
      ElementsErrorsStay(sc, reg, specs, items, globals, wild, fm, i + 1, kept1, errs1);
    }
  }

  /** A failing element i is reported whatever the later elements do. */
  lemma ElementFailureHere(sc: Scope, reg: Registry, specs: seq<JValue>, items: seq<JValue>,
                           globals: Dict, wild: JValue, fm: JValue, i: nat, kept: seq<JValue>, errs: Dict)
    requires ElementsOk(sc, reg, specs, items, globals, wild, fm, i, kept, errs) && i < |items|
    requires ElementFails(reg, specs, items, globals, wild, fm, i)
    ensures Elements(sc, reg, specs, items, globals, wild, fm, i, kept, errs).value.1 != []
  {
    var kept1, errs1 := ElementsNext(sc, reg, specs, items, globals, wild, fm, i, kept, errs);
    ElementsErrorsStay(sc, reg, specs, items, globals, wild, fm, i + 1, kept1, errs1);
  }

  /** The element loop from i reaches element m with some accumulators and
      the same outcome. */
  lemma {:induction false} ElementsSkipTo(sc: Scope, reg: Registry, specs: seq<JValue>, items: seq<JValue>,
                                         globals: Dict, wild: JValue, fm: JValue, i: nat, kept: seq<JValue>, errs: Dict, m: nat)
    returns (keptM: seq<JValue>, errsM: Dict)
    requires ElementsOk(sc, reg, specs, items, globals, wild, fm, i, kept, errs) && i <= m <= |items|
    ensures ElementsOk(sc, reg, specs, items, globals, wild, fm, m, keptM, errsM)
    ensures Elements(sc, reg, specs, items, globals, wild, fm, i, kept, errs).value
      == Elements(sc, reg, specs, items, globals, wild, fm, m, keptM, errsM).value
    decreases m - i
  {
    if i < m {
      var kept1, errs1 := ElementsNext(sc, reg, specs, items, globals, wild, fm, i, kept, errs);
      keptM, errsM := ElementsSkipTo(sc, reg, specs, items, globals, wild, fm, i + 1, kept1, errs1, m);
    } else {
      keptM, errsM := kept, errs;
    }
  }

  /** An element whose nested validation records anything leaves the
      field's error object non-empty: a failure at any depth of an array
      makes the field fail. */
  lemma ElementFailureReported(sc: Scope, reg: Registry, specs: seq<JValue>, items: seq<JValue>,
                               globals: Dict, wild: JValue, fm: JValue, i: nat, kept: seq<JValue>, errs: Dict, m: nat)
    requires ElementsOk(sc, reg, specs, items, globals, wild, fm, i, kept, errs)
    requires i <= m < |items| && ElementFails(reg, specs, items, globals, wild, fm, m)
    ensures Elements(sc, reg, specs, items, globals, wild, fm, i, kept, errs).value.1 != []
  {
    var keptM, errsM := ElementsSkipTo(sc, reg, specs, items, globals, wild, fm, i, kept, errs, m);
    ElementFailureHere(sc, reg, specs, items, globals, wild, fm, m, keptM, errsM);
  }

  // ------------------------------------------- the field's two entries

  /** Element positions that kept nothing read as holes (undefined). */
  function Slot(o: Option<JValue>): JValue {
    if o.Some? then o.value else Undefined
  }

  /** The array built by `accepted[key][index] = value` for the kept values
      `outs` (None where an element kept nothing), starting from []: its
      length is one past the last kept index, kept values sit at their
      index, and the gaps are holes. */
  function Gathered(outs: seq<Option<JValue>>): (r: seq<JValue>)
    ensures |r| <= |outs|
    ensures forall m :: 0 <= m < |r| ==> r[m] == Slot(outs[m])
    ensures forall m :: |r| <= m < |outs| ==> outs[m].None?
    ensures r == [] || outs[|r| - 1].Some?
  {
    if outs == [] then []
    else
      var n := |outs| - 1;
      if outs[n].Some? then Slots(outs[..n]) + [outs[n].value]
      else Gathered(outs[..n])
  }

  /** Every position read as a slot. */
  function Slots(outs: seq<Option<JValue>>): (r: seq<JValue>)
    ensures |r| == |outs| && forall m :: 0 <= m < |outs| ==> r[m] == Slot(outs[m])
  {
    seq(|outs|, m requires 0 <= m < |outs| => Slot(outs[m]))
  }

  /** One more element extends the gathered array as one index assignment
      does. */
  lemma GatheredStep(outs: seq<Option<JValue>>, o: Option<JValue>)
    ensures Gathered(outs + [o]) == if o.Some? then SetIndex(Gathered(outs), |outs|, o.value) else Gathered(outs)
  {
    if o.Some? {
      GatheredKeep(outs, o.value);
    } else {
      assert (outs + [o])[..|outs|] == outs;
    }
  }

  lemma GatheredKeep(outs: seq<Option<JValue>>, v: JValue)
    ensures Gathered(outs + [Some(v)]) == SetIndex(Gathered(outs), |outs|, v)
  {
    assert (outs + [Some(v)])[..|outs|] == outs;
    SlotsPadded(outs, Gathered(outs), v);
  }

  /** Slots that follow an array of the same slots are all holes, so the
      slots are that array padded with holes. */
  lemma SlotsPadded(outs: seq<Option<JValue>>, g: seq<JValue>, v: JValue)
    requires |g| <= |outs| && forall m :: 0 <= m < |g| ==> g[m] == Slot(outs[m])
    requires forall m :: |g| <= m < |outs| ==> outs[m].None?
    ensures SetIndex(g, |outs|, v) == Slots(outs) + [v]
  {
    var r, filled := SetIndex(g, |outs|, v), Slots(outs);
    forall m | 0 <= m < |outs| ensures r[m] == filled[m] {
      if m < |g| {
        assert r[m] == r[..|g|][m];
      }
    }
  }

  /** The value each element keeps, position by position. */
  ghost function ElementOutcomes(reg: Registry, specs: seq<JValue>, items: seq<JValue>, globals: Dict, wild: JValue, fm: JValue)
    : (r: seq<Option<JValue>>)
    requires |specs| > 0
    ensures |r| == |items|
    ensures forall m :: 0 <= m < |items| ==> r[m] == ElementKept(reg, specs, items, globals, wild, fm, m)
  {
    seq(|items|, m requires 0 <= m < |items| => ElementKept(reg, specs, items, globals, wild, fm, m))
  }

  /** One more position of the gathered prefix. */
  lemma GatheredPrefixStep(outs: seq<Option<JValue>>, i: nat, kept: seq<JValue>)
    requires i < |outs| && kept == Gathered(outs[..i])
    ensures Gathered(outs[..i + 1]) == if outs[i].Some? then SetIndex(kept, i, outs[i].value) else kept
  {
    assert outs[..i + 1] == outs[..i] + [outs[i]];
    GatheredStep(outs[..i], outs[i]);
  }

  /** The element loop gathers every element's kept value at its index. */
  lemma {:induction false} ElementsGather(sc: Scope, reg: Registry, specs: seq<JValue>, items: seq<JValue>,
                                         globals: Dict, wild: JValue, fm: JValue, i: nat, kept: seq<JValue>, errs: Dict,
                                         outs: seq<Option<JValue>>)
    requires ElementsOk(sc, reg, specs, items, globals, wild, fm, i, kept, errs)
    requires outs == ElementOutcomes(reg, specs, items, globals, wild, fm) && kept == Gathered(outs[..i])
    ensures Elements(sc, reg, specs, items, globals, wild, fm, i, kept, errs).value.0 == Gathered(outs)
    decreases |items| - i
  {
    if i < |items| {
      var kept1, errs1 := ElementsNext(sc, reg, specs, items, globals, wild, fm, i, kept, errs);
      GatheredPrefixStep(outs, i, kept);
      ElementsGather(sc, reg, specs, items, globals, wild, fm, i + 1, kept1, errs1, outs);
    } else {
      assert outs[..i] == outs;
    }
  }

  /** When no element from i on records anything, the loop adds no error. */
  lemma {:induction false} ElementsClean(sc: Scope, reg: Registry, specs: seq<JValue>, items: seq<JValue>,
                                        globals: Dict, wild: JValue, fm: JValue, i: nat, kept: seq<JValue>, errs: Dict)
    requires ElementsOk(sc, reg, specs, items, globals, wild, fm, i, kept, errs)
    requires forall m :: i <= m < |items| ==> !ElementFails(reg, specs, items, globals, wild, fm, m)
    ensures Elements(sc, reg, specs, items, globals, wild, fm, i, kept, errs).value.1 == errs
    decreases |items| - i
  {
    if i < |items| {
      var kept1, errs1 := ElementsNext(sc, reg, specs, items, globals, wild, fm, i, kept, errs);
      ElementsClean(sc, reg, specs, items, globals, wild, fm, i + 1, kept1, errs1);
    }
  }

  /** A list value whose element loop runs without a fault leaves an error
      entry under the field's own key exactly when some element's nested
      validation records anything, at any depth. */
  lemma ArrayErrorEntry(sc: Scope, reg: Registry, key: string, specs: seq<JValue>, st: State, items: seq<JValue>)
    requires specs != [] && Size(Arr(specs)) < Size(sc.rules)
    requires !(sc.values.Undefined? || sc.values.Null?) && Get(sc.values, key).value == Arr(items)
    requires !(sc.messages.Undefined? || sc.messages.Null?) && "array" in reg
    requires !Truthy(reg["array"](Str(key), Arr(items), Undefined, Undefined, Undefined))
    requires ArrayField(sc, reg, key, specs, st).Ok?
    ensures key in KeysOf(ArrayField(sc, reg, key, specs, st).value.results)
      <==> exists m :: 0 <= m < |items| && ElementFails(reg, specs, items, Utils.GetGlobalFields(sc.messages).value,
                                                        Wildcard(sc.messages, key).value, Get(sc.messages, key).value, m)
  {
    var globals := Utils.GetGlobalFields(sc.messages).value;
    var wild := Wildcard(sc.messages, key).value;
    var fm := Get(sc.messages, key).value;
    var acc := Elements(sc, reg, specs, items, globals, wild, fm, 0, [], []);
    assert acc.Ok? && ArrayField(sc, reg, key, specs, st).value == Finish(st, key, acc.value.0, acc.value.1);
    FinishEntries(st, key, acc.value.0, acc.value.1);
    if m :| 0 <= m < |items| && ElementFails(reg, specs, items, globals, wild, fm, m) {
      ElementFailureReported(sc, reg, specs, items, globals, wild, fm, 0, [], [], m);
    } else {
      ElementsClean(sc, reg, specs, items, globals, wild, fm, 0, [], []);
    }
  }

  /** ... and an accepted entry holding the gathered array exactly when
      some element kept a value: each kept value at its element's index,
      holes elsewhere. */
  lemma ArrayAcceptedEntry(sc: Scope, reg: Registry, key: string, specs: seq<JValue>, st: State, items: seq<JValue>)
    requires specs != [] && Size(Arr(specs)) < Size(sc.rules)
    requires !(sc.values.Undefined? || sc.values.Null?) && Get(sc.values, key).value == Arr(items)
    requires !(sc.messages.Undefined? || sc.messages.Null?) && "array" in reg
    requires !Truthy(reg["array"](Str(key), Arr(items), Undefined, Undefined, Undefined))
    requires ArrayField(sc, reg, key, specs, st).Ok?
    ensures var g := Gathered(ElementOutcomes(reg, specs, items, Utils.GetGlobalFields(sc.messages).value,
                                              Wildcard(sc.messages, key).value, Get(sc.messages, key).value));
      Lookup(ArrayField(sc, reg, key, specs, st).value.accepted, key) == if g == [] then None else Some(Arr(g))
  {
    var globals := Utils.GetGlobalFields(sc.messages).value;
    var wild := Wildcard(sc.messages, key).value;
    var fm := Get(sc.messages, key).value;
    var outs := ElementOutcomes(reg, specs, items, globals, wild, fm);
    var acc := Elements(sc, reg, specs, items, globals, wild, fm, 0, [], []);
    assert acc.Ok? && ArrayField(sc, reg, key, specs, st).value == Finish(st, key, acc.value.0, acc.value.1);
    assert outs[..0] == [];
    ElementsGather(sc, reg, specs, items, globals, wild, fm, 0, [], [], outs);
  }

  /** The messages element i is validated with: `messages[key]` first, then
      the wildcard under the element's index, then the global messages. */
  lemma ElementMessages(specs: seq<JValue>, items: seq<JValue>, globals: Dict, wild: JValue, fm: JValue, i: nat, k: string)
    requires |specs| > 0 && i < |items|
    ensures ElementScope(specs, items, globals, wild, fm, i).messages.Obj?
    ensures Lookup(ElementScope(specs, items, globals, wild, fm, i).messages.props, k)
      == if k in KeysOf(Spread(fm)) then LastValue(Spread(fm), k)
         else if k == NatToString(i) then Some(wild)
         else Lookup(globals, k)
  {
    var index := NatToString(i);
    assert LastValue([(index, wild)], index) == Some(wild);
  }

  /** The rules element i is validated with: its index against the
      declaration of the same position, or the last one. */
  lemma ElementRules(specs: seq<JValue>, items: seq<JValue>, globals: Dict, wild: JValue, fm: JValue, i: nat)
    requires |specs| > 0 && i < |items|
    ensures var sc := ElementScope(specs, items, globals, wild, fm, i);
      sc.rules.Obj? && KeysOf(sc.rules.props) == [NatToString(i)]
      && Lookup(sc.rules.props, NatToString(i)) == Some(if i < |specs| then specs[i] else specs[|specs| - 1])
      && Lookup(sc.values.props, NatToString(i)) == Some(items[i])
  {
  }

  // ------------------------------------------------------------ objects

  /** A failing `object` guard records its message under `key.object` and
      does not descend into the value. */
  lemma ObjectGuardFailure(sc: Scope, reg: Registry, key: string, spec: JValue, st: State)
    requires (spec.Obj? || spec.Null?) && Size(spec) < Size(sc.rules)
    requires !(sc.values.Undefined? || sc.values.Null?) && "object" in reg
    requires Truthy(reg["object"](Str(key), Get(sc.values, key).value, Undefined, Undefined, Undefined))
    ensures ObjectField(sc, reg, key, spec, st).Ok?
    ensures var out := ObjectField(sc, reg, key, spec, st).value;
      PutOnly(st.results, out.results, key + ".object", reg["object"](Str(key), Get(sc.values, key).value, Undefined, Undefined, Undefined))
      && out.accepted == st.accepted
  {
  }

  /** The messages a nested object is validated with: `messages[key]`
      first, then the global messages. */
  lemma ObjectMessages(sc: Scope, key: string, spec: JValue, k: string)
    requires ObjectScope(sc, key, spec).Ok?
    ensures ObjectScope(sc, key, spec).value.messages.Obj?
    ensures var fm := Spread(Get(sc.messages, key).value);
      Lookup(ObjectScope(sc, key, spec).value.messages.props, k)
      == if k in KeysOf(fm) then LastValue(fm, k) else Lookup(Utils.GetGlobalFields(sc.messages).value, k)
  {
  }

  /** A nested object validation that records nothing accepts the nested
      accepted values under the field and records nothing in the parent. */
  lemma ObjectNestedPass(sc: Scope, reg: Registry, key: string, spec: JValue, st: State)
    requires (spec.Obj? || spec.Null?) && Size(spec) < Size(sc.rules)
    requires "object" in reg && ObjectScope(sc, key, spec).Ok?
    requires !Truthy(reg["object"](Str(key), Get(sc.values, key).value, Undefined, Undefined, Undefined))
    requires Run(ObjectScope(sc, key, spec).value, reg).Ok?
    requires Run(ObjectScope(sc, key, spec).value, reg).value.results == []
    ensures ObjectField(sc, reg, key, spec, st).Ok?
    ensures var out := ObjectField(sc, reg, key, spec, st).value;
      out.results == st.results
      && PutOnly(st.accepted, out.accepted, key, Obj(Run(ObjectScope(sc, key, spec).value, reg).value.accepted))
  {
  }

  /** A nested object validation that records anything leaves, under the
      field, its resolved errors verbatim, and that error object is never
      empty: a failure at any depth makes the parent fail too. */
  lemma ObjectNestedFail(sc: Scope, reg: Registry, key: string, spec: JValue, st: State)
    requires (spec.Obj? || spec.Null?) && Size(spec) < Size(sc.rules)
    requires "object" in reg && ObjectScope(sc, key, spec).Ok?
    requires !Truthy(reg["object"](Str(key), Get(sc.values, key).value, Undefined, Undefined, Undefined))
    requires Run(ObjectScope(sc, key, spec).value, reg).Ok?
    requires Run(ObjectScope(sc, key, spec).value, reg).value.results != []
    requires Resolve(ObjectScope(sc, key, spec).value, Run(ObjectScope(sc, key, spec).value, reg).value.results).Ok?
    ensures ObjectField(sc, reg, key, spec, st).Ok?
    ensures var nested := ObjectScope(sc, key, spec).value;
      var errs := Resolve(nested, Run(nested, reg).value.results).value;
      var out := ObjectField(sc, reg, key, spec, st).value;
      errs != [] && PutOnly(st.results, out.results, key, Obj(errs)) && out.accepted == st.accepted
  {
    var nested := ObjectScope(sc, key, spec).value;
    Resolution.ResolveEmptyIff(nested, Run(nested, reg).value.results);
  }
}
