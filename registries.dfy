/** The rule registry `rule_validators` of src/validator.js, built from the
    template list of src/templates.js, under two calling conventions: the one
    the source uses (its call sites pass `(key, value, param, ...)` to
    templates declared `(value, key, param)`) and the intended one, which
    also supplies the `object` guard the list lacks. */
module Registries {

  import opened Wrappers
  import opened Text
  import opened JsValues
  import opened Templates
  import opened Engine

  /** The call `rule_validators[rule](key, value, param, rule, field_rules)`
      as written: the key lands in the template's `value` slot and the value
      in its `key` slot. */
  function AsCalled(d: Declared): (t: Template)
    ensures forall k, v, p, r, f :: t(k, v, p, r, f) == d(k, v, p)
  {
    (k, v, p, r, f) => d(k, v, p)
  }

  /** The call as the template declarations expect it. */
  function AsDeclared(d: Declared): (t: Template)
    ensures forall k, v, p, r, f :: t(k, v, p, r, f) == d(v, k, p)
  {
    (k, v, p, r, f) => d(v, k, p)
  }

  /** `Object.fromEntries(list)`: a later entry with the same name wins. */
  function FromCatalog(cat: seq<(string, Declared)>, adapt: Declared -> Template): (reg: Registry)
    ensures forall name :: name in reg <==> exists i :: 0 <= i < |cat| && cat[i].0 == name
  {
    if cat == [] then map[]
    else
      var last := cat[|cat| - 1];
      var reg := FromCatalog(cat[..|cat| - 1], adapt)[last.0 := adapt(last.1)];
      assert forall i :: 0 <= i < |cat| - 1 ==> cat[..|cat| - 1][i] == cat[i];
      reg
  }

  /** With distinct names every entry of the list is found under its name. */
  lemma {:induction false} FromCatalogAt(cat: seq<(string, Declared)>, adapt: Declared -> Template, i: nat)
    requires i < |cat|
    requires forall m, n :: 0 <= m < n < |cat| ==> cat[m].0 != cat[n].0
    ensures cat[i].0 in FromCatalog(cat, adapt)
    ensures FromCatalog(cat, adapt)[cat[i].0] == adapt(cat[i].1)
  {
    if i < |cat| - 1 {
      var init := cat[..|cat| - 1];
      assert init[i] == cat[i];
      assert forall m, n :: 0 <= m < n < |init| ==> init[m].0 != init[n].0 by {
        forall m, n | 0 <= m < n < |init| ensures init[m].0 != init[n].0 {
          assert init[m] == cat[m] && init[n] == cat[n];
        }
      }
      FromCatalogAt(init, adapt, i);
      assert cat[i].0 != cat[|cat| - 1].0;
    }
  }

  /** The registry exactly as src/validator.js builds and calls it. */
  function AsWrittenRegistry(): Registry {
    FromCatalog(Catalog, AsCalled)
  }

  /** The `object` type guard the engine calls and the list does not hold:
      like the other guards, absence passes and any defined value that is
      not of type 'object' fails. */
  function ObjectGuard(value: JValue, key: JValue, param: JValue): (r: JValue)
    ensures Fails(r) <==> !value.Undefined? && !IsObjectType(value)
  {
    if !value.Undefined? && !IsObjectType(value) then Str(FieldMessage(key, "is not a valid 'object' value"))
    else Undefined
  }

  /** The registry the rest of the model uses: every template called with its
      arguments in declared order, and an `object` guard. */
  function BuiltinRegistry(): Registry {
    FromCatalog(Catalog, AsDeclared)["object" := AsDeclared(ObjectGuard)]
  }

  /** Neither registry built from the list alone has an `object` template. */
  lemma NoObjectInList(adapt: Declared -> Template)
    ensures "object" !in FromCatalog(Catalog, adapt)
  {
    CatalogLacksObject();
  }

  /** The built-in registry holds template i of the list, called with the value first. */
  lemma BuiltinAt(i: nat)
    requires i < |Catalog|
    ensures Catalog[i].0 in BuiltinRegistry()
    ensures BuiltinRegistry()[Catalog[i].0] == AsDeclared(Catalog[i].1)
  {
    CatalogNamesDistinct();
    CatalogLacksObject();
    FromCatalogAt(Catalog, AsDeclared, i);
  }

  /** The as-written registry holds template i of the list, called with the key first. */
  lemma AsWrittenAt(i: nat)
    requires i < |Catalog|
    ensures Catalog[i].0 in AsWrittenRegistry()
    ensures AsWrittenRegistry()[Catalog[i].0] == AsCalled(Catalog[i].1)
  {
    CatalogNamesDistinct();
    FromCatalogAt(Catalog, AsCalled, i);
  }

  // ------------------------------------------------------------ findings

  /** As written, `required` never fails: the key, always a defined string,
      is what the template tests for absence. */
  lemma AsWrittenRequiredNeverFails(key: string, value: JValue, param: JValue, rule: JValue, tokens: JValue)
    ensures "required" in AsWrittenRegistry()
    ensures !Truthy(AsWrittenRegistry()["required"](Str(key), value, param, rule, tokens))
  {
    AsWrittenAt(0);
  }

  /** As written, the type guards test the key instead of the value: `string`
      never fails, while `integer`, `number`, `boolean` and `array` fail on
      every call, whatever the value. */
  lemma AsWrittenTypeGuards(key: string, value: JValue, param: JValue, rule: JValue, tokens: JValue)
    ensures "string" in AsWrittenRegistry() && "integer" in AsWrittenRegistry() && "number" in AsWrittenRegistry()
    ensures "boolean" in AsWrittenRegistry() && "array" in AsWrittenRegistry()
    ensures !Truthy(AsWrittenRegistry()["string"](Str(key), value, param, rule, tokens))
    ensures Truthy(AsWrittenRegistry()["integer"](Str(key), value, param, rule, tokens))
    ensures Truthy(AsWrittenRegistry()["number"](Str(key), value, param, rule, tokens))
    ensures Truthy(AsWrittenRegistry()["boolean"](Str(key), value, param, rule, tokens))
    ensures Truthy(AsWrittenRegistry()["array"](Str(key), value, Undefined, Undefined, Undefined))
  {
    AsWrittenAt(1);
    AsWrittenAt(3);
    AsWrittenAt(4);
    AsWrittenAt(5);
    AsWrittenAt(6);
  }

  /** With the value passed first, `required` fails exactly on an absent value. */
  lemma BuiltinRequiredFailsIffAbsent(key: string, value: JValue, param: JValue, rule: JValue, tokens: JValue)
    ensures "required" in BuiltinRegistry()
    ensures Truthy(BuiltinRegistry()["required"](Str(key), value, param, rule, tokens)) <==> value.Undefined?
  {
    BuiltinAt(0);
  }

  /** As written, an object rule declaration always throws: there is no
      `object` template to call. */
  lemma AsWrittenObjectRulesThrow(sc: Scope, key: string, spec: JValue, st: State)
    requires (spec.Obj? || spec.Null?) && Size(spec) < Size(sc.rules)
    requires !(sc.values.Undefined? || sc.values.Null?)
    ensures ObjectField(sc, AsWrittenRegistry(), key, spec, st) == Err(TypeError)
  {
    NoObjectInList(AsCalled);
  }

  /** With the `object` guard registered, an object rule declaration never
      throws for want of a template: a value of the wrong type is reported
      under `key.object`. */
  lemma BuiltinObjectGuardReports(sc: Scope, key: string, spec: JValue, st: State)
    requires (spec.Obj? || spec.Null?) && Size(spec) < Size(sc.rules)
    requires !(sc.values.Undefined? || sc.values.Null?)
    requires var v := Get(sc.values, key).value; !v.Undefined? && !IsObjectType(v)
    ensures ObjectField(sc, BuiltinRegistry(), key, spec, st)
      == Ok(State(Put(st.results, key + ".object", Str(FieldMessage(Str(key), "is not a valid 'object' value"))), st.accepted))
  {
  }

  /** The arguments `({}, {name: 'required'}, {})`. */
  function NameRequired(): Scope {
    Scope(Obj([]), Obj([("name", Str("required"))]), Obj([]))
  }

  /** A walk over a single key is the step for that key. */
  lemma WalkSingle(sc: Scope, reg: Registry, key: string, st: State)
    requires sc.rules.Obj?
    ensures Walk(sc, reg, [key], 0, st) == Field(sc, reg, key, st)
  {
  }

  /** A field declared by a string runs the string declaration. */
  lemma StringDeclared(sc: Scope, reg: Registry, key: string, s: string, st: State)
    requires sc.rules.Obj? && Lookup(sc.rules.props, key) == Some(Str(s))
    ensures Field(sc, reg, key, st) == StringField(sc, reg, key, s, st)
  {
  }

  /** Rules declaring a single field by a string run that declaration alone. */
  lemma SingleStringRule(sc: Scope, reg: Registry, key: string, s: string)
    requires sc.rules == Obj([(key, Str(s))])
    ensures Run(sc, reg) == StringField(sc, reg, key, s, State([], []))
  {
    assert KeysOf(sc.rules.props) == [key];
    WalkSingle(sc, reg, key, State([], []));
    StringDeclared(sc, reg, key, s, State([], []));
  }

  /** A single token is the whole loop. */
  lemma SingleToken(sc: Scope, reg: Registry, key: string, s: string, t: string, st: State)
    ensures Tokens(sc, reg, key, s, [t], 0, st) == Token(sc, reg, key, s, [t], 0, st)
  {
    assert Sequence(TokenAt(sc, reg, key, s, [t]), 1, 0, st) == TokenAt(sc, reg, key, s, [t])(0, st) by {
      if TokenAt(sc, reg, key, s, [t])(0, st).Ok? {
        assert Sequence(TokenAt(sc, reg, key, s, [t]), 1, 1, TokenAt(sc, reg, key, s, [t])(0, st).value)
          == TokenAt(sc, reg, key, s, [t])(0, st);
      }
    }
  }

  /** The texts the token `required` of field `name` gives rise to. */
  lemma RequiredTexts()
    ensures Split("required", '|') == ["required"]
    ensures RuleName("required") == "required" && ParamOf("required") == Undefined
  {
    SplitFree("required", '|');
    SplitFree("required", ':');
  }

  /** The token `required` of field `name` with no values, with whatever the
      registered template answers for the absent value: a failure records
      `name.required` (`"name" + "." + "required"`), a pass accepts `name` as undefined. */
  lemma NameRequiredToken(reg: Registry, answer: JValue)
    requires "required" in reg
    requires reg["required"](Str("name"), Undefined, Undefined, Str("required"), TokenList(["required"])) == answer
    ensures Token(NameRequired(), reg, "name", "required", ["required"], 0, State([], []))
      == if Truthy(answer) then Ok(State([("name" + "." + "required", answer)], [])) else Ok(State([], [("name", Undefined)]))
  {
    RequiredTexts();
    assert Get(NameRequired().values, "name") == Ok(Undefined);
    assert Put([], "name" + "." + "required", answer) == [("name" + "." + "required", answer)];
    assert Put([], "name", Undefined) == [("name", Undefined)];
  }

  /** The whole run on `NameRequired()`, for any registry holding `required`. */
  lemma NameRequiredRun(reg: Registry, answer: JValue)
    requires "required" in reg
    requires reg["required"](Str("name"), Undefined, Undefined, Str("required"), TokenList(["required"])) == answer
    ensures Run(NameRequired(), reg)
      == if Truthy(answer) then Ok(State([("name" + "." + "required", answer)], [])) else Ok(State([], [("name", Undefined)]))
  {
    RequiredTexts();
    SingleStringRule(NameRequired(), reg, "name", "required");
    SingleToken(NameRequired(), reg, "name", "required", "required", State([], []));
    NameRequiredToken(reg, answer);
  }

  /** The whole run on `rules = {name: 'required'}` with no values, as
      written: it passes, and accepts the missing field as undefined. */
  lemma AsWrittenMissingRequiredPasses()
    ensures Run(NameRequired(), AsWrittenRegistry()) == Ok(State([], [("name", Undefined)]))
  {
    var reg := AsWrittenRegistry();
    AsWrittenRequiredNeverFails("name", Undefined, Undefined, Str("required"), TokenList(["required"]));
    NameRequiredRun(reg, reg["required"](Str("name"), Undefined, Undefined, Str("required"), TokenList(["required"])));
  }

  /** The same run with the built-in registry reports the missing field. */
  lemma BuiltinMissingRequiredFails()
    ensures Run(NameRequired(), BuiltinRegistry()) == Ok(State([("name" + "." + "required", Str("Field 'name' is required"))], []))
  {
    BuiltinAt(0);
    assert FieldMessage(Str("name"), "is required") == "Field 'name' is required";
    NameRequiredRun(BuiltinRegistry(), Str("Field 'name' is required"));
  }
}
