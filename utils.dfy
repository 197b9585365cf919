/** The helpers of src/utils.js: the global-message filter the engine uses
    when it builds the message scope of a nested validation, and the two
    field classifiers. */
module Utils {

  import opened Wrappers
  import opened JsValues

  /** Keys of `v` that contain no dot and hold a string, in key order. */
  function KeepGlobal(v: JValue, ks: seq<string>): (kept: Dict)
    requires !(v.Undefined? || v.Null?)
    ensures forall k :: k in KeysOf(kept) <==> k in ks && '.' !in k && Get(v, k).value.Str?
    ensures forall i :: 0 <= i < |kept| ==> kept[i].1 == Get(v, kept[i].0).value
  {
    if ks == [] then []
    else
      var x := Get(v, ks[0]).value;
      var head := if '.' !in ks[0] && x.Str? then [(ks[0], x)] else [];
      var kept := head + KeepGlobal(v, ks[1..]);
      assert forall k :: k in ks <==> k == ks[0] || k in ks[1..];
      KeysAppend(head, KeepGlobal(v, ks[1..]));
      kept
  }

  /** `getGlobalFields(object)`: `Object.fromEntries` of the entries whose key
      has no '.' and whose value is a string; a TypeError on undefined/null. */
  function GetGlobalFields(v: JValue): (r: Result<Dict>)
    ensures r.Err? <==> v.Undefined? || v.Null?
  {
    var keys :- Keys(v);
    Ok(PutAll([], KeepGlobal(v, keys)))
  }

  /** Exactly the dot-free keys with string values are kept, with their values. */
  lemma GlobalFieldsExact(ps: Dict, k: string)
    ensures GetGlobalFields(Obj(ps)).Ok?
    ensures var g := GetGlobalFields(Obj(ps)).value;
      (k in KeysOf(g) <==> k in KeysOf(ps) && '.' !in k && Lookup(ps, k).Some? && Lookup(ps, k).value.Str?)
      && (k in KeysOf(g) ==> Lookup(g, k) == Lookup(ps, k))
  {
    var v := Obj(ps);
    var kept := KeepGlobal(v, KeysOf(ps));
    var g := PutAll([], kept);
    assert GetGlobalFields(v) == Ok(g);
    assert k in KeysOf(g) <==> k in KeysOf(kept);
    assert Lookup(ps, k).Some? <==> k in KeysOf(ps);
    if k in KeysOf(ps) {
      GetOwn(ps, k);
    }
    if k in KeysOf(kept) {
      LastValueOfKept(v, kept, k);
    }
  }

  /** When every kept entry carries its key's value in `v`, so does the last
      entry named k. */
  lemma {:induction false} LastValueOfKept(v: JValue, kept: Dict, k: string)
    requires !(v.Undefined? || v.Null?) && k in KeysOf(kept)
    requires forall i :: 0 <= i < |kept| ==> kept[i].1 == Get(v, kept[i].0).value
    ensures LastValue(kept, k) == Some(Get(v, k).value)
  {
    if k in KeysOf(kept[1..]) {
      assert forall i :: 0 <= i < |kept[1..]| ==> kept[1..][i] == kept[i + 1];
      LastValueOfKept(v, kept[1..], k);
    } else {
      assert KeysOf(kept)[0] == kept[0].0;
    }
  }

  /** Filtering an already filtered scope again changes nothing. */
  lemma GlobalFieldsIdempotent(ps: Dict)
    ensures GetGlobalFields(Obj(ps)).Ok?
    ensures GetGlobalFields(Obj(GetGlobalFields(Obj(ps)).value)) == GetGlobalFields(Obj(ps))
  {
    var g := GetGlobalFields(Obj(ps)).value;
    PutAllFreshUnique([], KeepGlobal(Obj(ps), KeysOf(ps)));
    assert UniqueKeys(g);
    forall k | k in KeysOf(g) ensures '.' !in k && Lookup(g, k).value.Str? {
      GlobalFieldsExact(ps, k);
    }
    KeepAllOfUnique(g, 0);
    PutAllOntoEmpty(g);
  }

  /** A unique-keyed dictionary whose every entry is global passes the filter whole. */
  lemma {:induction false} KeepAllOfUnique(g: Dict, from: nat)
    requires UniqueKeys(g) && from <= |g|
    requires forall k :: k in KeysOf(g) ==> '.' !in k && Lookup(g, k).value.Str?
    ensures KeepGlobal(Obj(g), KeysOf(g)[from..]) == g[from..]
    decreases |g| - from
  {
    KeysIndex(g);
    if from < |g| {
      KeepAllOfUnique(g, from + 1);
      var ks := KeysOf(g)[from..];
      assert ks[1..] == KeysOf(g)[from + 1..];
      UniqueLookup(g, from);
      assert g[from..] == [g[from]] + g[from + 1..];
    }
  }

  /** `xs.indexOf(x)`: the first position holding x, or -1. */
  function IndexOfValue(xs: seq<JValue>, x: JValue): (i: int)
    ensures -1 <= i < |xs|
    ensures i >= 0 ==> xs[i] == x && forall j :: 0 <= j < i ==> xs[j] != x
    ensures i == -1 <==> x !in xs
  {
    if xs == [] then -1
    else if xs[0] == x then 0
    else
      var i := IndexOfValue(xs[1..], x);
      if i == -1 then -1 else i + 1
  }

  /** `names.some(t => all_rules.indexOf(t) >= 0)`. */
  function SomeIndexed(names: seq<JValue>, allRules: seq<JValue>): (r: bool)
    ensures r <==> exists t :: t in names && t in allRules
  {
    if names == [] then false
    else IndexOfValue(allRules, names[0]) >= 0 || SomeIndexed(names[1..], allRules)
  }

  /** `isStringField(value, all_rules)`: 'string' is among the rules, or the
      value is a string. */
  function IsStringField(value: JValue, allRules: seq<JValue>): (r: bool)
    ensures r <==> Str("string") in allRules || value.Str?
  {
    SomeIndexed([Str("string")], allRules) || value.Str?
  }

  /** `isNumericField(value, all_rules)`: one of 'integer', 'float', 'number'
      is among the rules, or the value is a number. */
  function IsNumericField(value: JValue, allRules: seq<JValue>): (r: bool)
    ensures r <==> Str("integer") in allRules || Str("float") in allRules || Str("number") in allRules || value.Num?
  {
    SomeIndexed([Str("integer"), Str("float"), Str("number")], allRules) || value.Num?
  }

  /** With the default empty rule list both helpers are a plain typeof test. */
  lemma DefaultRulesAreTypeof(value: JValue)
    ensures IsStringField(value, []) <==> value.Str?
    ensures IsNumericField(value, []) <==> value.Num?
  {
  }
}
