/** Properties of the message resolution of `errors()` in src/validator.js:
    which output keys it writes, that the last write to a key wins, that it
    is empty exactly when nothing was recorded, and that without custom
    messages it hands back the recorded template messages unchanged. */
module Resolution {

  import opened Wrappers
  import Text
  import opened JsValues
  import opened Engine

  /** Raw key `ek` resolves without a fault and writes its entry under `k`. */
  predicate Writes(sc: Scope, results: Dict, ek: string, k: string) {
    ResolveKey(sc, results, ek).Ok? && ResolveKey(sc, results, ek).value.0 == k
  }

  /** A non-empty dictionary stays non-empty under `Put`. */
  lemma PutNonEmpty(d: Dict, k: string, v: JValue)
    ensures Put(d, k, v) != []
  {
    assert k in KeysOf(Put(d, k, v));
  }

  /** The resolved object from raw key i on is empty exactly when nothing is
      left to resolve and nothing was written yet. */
  lemma {:induction false} ResolveFromEmpty(sc: Scope, results: Dict, keys: seq<string>, i: nat, out: Dict)
    requires i <= |keys| && ResolveFrom(sc, results, keys, i, out).Ok?
    ensures ResolveFrom(sc, results, keys, i, out).value == [] <==> i == |keys| && out == []
    decreases |keys| - i
  {
    if i < |keys| {
      var entry := ResolveKey(sc, results, keys[i]).value;
      PutNonEmpty(out, entry.0, entry.1);
      ResolveFromEmpty(sc, results, keys, i + 1, Put(out, entry.0, entry.1));
    }
  }

  /** `errors()` is empty exactly when no raw key was recorded. */
  lemma ResolveEmptyIff(sc: Scope, results: Dict)
    requires Resolve(sc, results).Ok?
    ensures Resolve(sc, results).value == [] <==> results == []
  {
    ResolveFromEmpty(sc, results, KeysOf(results), 0, []);
  }

  /** Some raw key from i on writes output key `k`. */
  ghost predicate WrittenFrom(sc: Scope, results: Dict, keys: seq<string>, i: nat, k: string) {
    exists j :: i <= j < |keys| && Writes(sc, results, keys[j], k)
  }

  lemma WrittenFromStep(sc: Scope, results: Dict, keys: seq<string>, i: nat, k: string)
    requires i < |keys|
    ensures WrittenFrom(sc, results, keys, i, k)
      <==> Writes(sc, results, keys[i], k) || WrittenFrom(sc, results, keys, i + 1, k)
  {
    if WrittenFrom(sc, results, keys, i, k) && !Writes(sc, results, keys[i], k) {
      var j :| i <= j < |keys| && Writes(sc, results, keys[j], k);
      assert i + 1 <= j;
    }
    if Writes(sc, results, keys[i], k) {
      assert i <= i < |keys|;
    }
  }

  /** The keys of the resolved object: those already written, and the output
      key of every raw key from i on. */
  lemma {:induction false} ResolveFromKeys(sc: Scope, results: Dict, keys: seq<string>, i: nat, out: Dict)
    requires i <= |keys| && ResolveFrom(sc, results, keys, i, out).Ok?
    ensures forall k :: (k in KeysOf(ResolveFrom(sc, results, keys, i, out).value)
      <==> k in KeysOf(out) || WrittenFrom(sc, results, keys, i, k))
    decreases |keys| - i
  {
    if i < |keys| {
      var entry := ResolveKey(sc, results, keys[i]).value;
      var out1 := Put(out, entry.0, entry.1);
      assert ResolveFrom(sc, results, keys, i, out) == ResolveFrom(sc, results, keys, i + 1, out1);
      ResolveFromKeys(sc, results, keys, i + 1, out1);
      forall k ensures k in KeysOf(out1) <==> k in KeysOf(out) || Writes(sc, results, keys[i], k) {
      }
      forall k ensures WrittenFrom(sc, results, keys, i, k)
        <==> Writes(sc, results, keys[i], k) || WrittenFrom(sc, results, keys, i + 1, k)
      {
        WrittenFromStep(sc, results, keys, i, k);
      }
    }
  }

  /** An output key that no raw key from i on writes keeps what it held. */
  lemma {:induction false} ResolveFromUntouched(sc: Scope, results: Dict, keys: seq<string>, i: nat, out: Dict, k: string)
    requires i <= |keys| && ResolveFrom(sc, results, keys, i, out).Ok?
    requires forall j :: i <= j < |keys| ==> !Writes(sc, results, keys[j], k)
    ensures Lookup(ResolveFrom(sc, results, keys, i, out).value, k) == Lookup(out, k)
    decreases |keys| - i
  {
    if i < |keys| {
      var entry := ResolveKey(sc, results, keys[i]).value;
      assert !Writes(sc, results, keys[i], k);
      ResolveFromUntouched(sc, results, keys, i + 1, Put(out, entry.0, entry.1), k);
    }
  }

  /** Later writes win: an output key holds the entry of the last raw key
      that writes it. */
  lemma {:induction false} ResolveFromLastWrite(sc: Scope, results: Dict, keys: seq<string>, i: nat, out: Dict, j: nat, k: string)
    requires i <= j < |keys| && ResolveFrom(sc, results, keys, i, out).Ok?
    requires Writes(sc, results, keys[j], k)
    requires forall l :: j < l < |keys| ==> !Writes(sc, results, keys[l], k)
    ensures Lookup(ResolveFrom(sc, results, keys, i, out).value, k) == Some(ResolveKey(sc, results, keys[j]).value.1)
    decreases |keys| - i
  {
    var entry := ResolveKey(sc, results, keys[i]).value;
    if i < j {
      ResolveFromLastWrite(sc, results, keys, i + 1, Put(out, entry.0, entry.1), j, k);
    } else {
      ResolveFromUntouched(sc, results, keys, i + 1, Put(out, entry.0, entry.1), k);
    }
  }

  // The precedence chain of `errors()`, one step per lemma; each step
  // applies only when the steps before it do not.

  /** Step 1: a key declared as a nested object keeps the nested errors
      verbatim under its own name. */
  lemma ResolveNested(sc: Scope, results: Dict, ek: string)
    requires Get(sc.rules, ek).Ok? && IsObjectType(Get(sc.rules, ek).value)
    ensures ResolveKey(sc, results, ek) == Ok((ek, RawOf(results, ek)))
  {
  }

  /** Step 2: a message under the exact raw key `field.rule` is reported
      under the field. */
  lemma ResolveExactMessage(sc: Scope, results: Dict, ek: string)
    requires Get(sc.rules, ek).Ok? && !IsObjectType(Get(sc.rules, ek).value)
    requires Has(sc.messages, ek) == Ok(true)
    ensures ResolveKey(sc, results, ek) == Ok((FieldOf(ek), Get(sc.messages, ek).value))
  {
  }

  /** Step 3: otherwise the rule's entry in `messages[field]`, under the
      field. */
  lemma ResolveFieldMessage(sc: Scope, results: Dict, ek: string)
    requires Get(sc.rules, ek).Ok? && !IsObjectType(Get(sc.rules, ek).value)
    requires Has(sc.messages, ek) == Ok(false) && Has(sc.messages, FieldOf(ek)) == Ok(true)
    requires Has(Get(sc.messages, FieldOf(ek)).value, RuleOf(ek)) == Ok(true)
    ensures ResolveKey(sc, results, ek)
      == Ok((FieldOf(ek), Get(Get(sc.messages, FieldOf(ek)).value, RuleOf(ek)).value))
  {
  }

  /** ... where `rule in messages[field]` throws when `messages[field]` is a
      primitive. */
  lemma ResolveFieldMessageThrows(sc: Scope, results: Dict, ek: string)
    requires Get(sc.rules, ek).Ok? && !IsObjectType(Get(sc.rules, ek).value)
    requires Has(sc.messages, ek) == Ok(false) && Has(sc.messages, FieldOf(ek)) == Ok(true)
    requires Has(Get(sc.messages, FieldOf(ek)).value, RuleOf(ek)).Err?
    ensures ResolveKey(sc, results, ek) == Err(TypeError)
  {
  }

  /** No entry for the rule under `messages[field]`. */
  predicate NoFieldMessage(sc: Scope, ek: string)
    requires Has(sc.messages, ek).Ok?
  {
    Has(sc.messages, FieldOf(ek)) == Ok(false)
    || Has(Get(sc.messages, FieldOf(ek)).value, RuleOf(ek)) == Ok(false)
  }

  /** Step 4: otherwise a global message for the rule, under the field. */
  lemma ResolveGlobalMessage(sc: Scope, results: Dict, ek: string)
    requires Get(sc.rules, ek).Ok? && !IsObjectType(Get(sc.rules, ek).value)
    requires Has(sc.messages, ek) == Ok(false) && NoFieldMessage(sc, ek)
    requires Has(sc.messages, RuleOf(ek)) == Ok(true)
    ensures ResolveKey(sc, results, ek) == Ok((FieldOf(ek), Get(sc.messages, RuleOf(ek)).value))
  {
  }

  /** Step 5: otherwise the raw key with the template's own message. */
  lemma ResolveTemplateMessage(sc: Scope, results: Dict, ek: string)
    requires Get(sc.rules, ek).Ok? && !IsObjectType(Get(sc.rules, ek).value)
    requires Has(sc.messages, ek) == Ok(false) && NoFieldMessage(sc, ek)
    requires Has(sc.messages, RuleOf(ek)) == Ok(false)
    ensures ResolveKey(sc, results, ek) == Ok((ek, RawOf(results, ek)))
  {
  }

  /** A custom message for a raw key at any of steps 2 to 4. */
  predicate CustomMessage(sc: Scope, ek: string) {
    Get(sc.rules, ek).Ok? && !IsObjectType(Get(sc.rules, ek).value)
    && (Has(sc.messages, ek) == Ok(true)
        || (Has(sc.messages, ek) == Ok(false) && Has(sc.messages, FieldOf(ek)) == Ok(true)
            && Has(Get(sc.messages, FieldOf(ek)).value, RuleOf(ek)) == Ok(true))
        || (Has(sc.messages, ek) == Ok(false) && NoFieldMessage(sc, ek) && Has(sc.messages, RuleOf(ek)) == Ok(true)))
  }

  /** A raw key with a custom message writes under its field. */
  lemma CustomMessageWritesField(sc: Scope, results: Dict, ek: string)
    requires CustomMessage(sc, ek)
    ensures Writes(sc, results, ek, FieldOf(ek))
  {
    if Has(sc.messages, ek) == Ok(true) {
      ResolveExactMessage(sc, results, ek);
    } else if Has(sc.messages, FieldOf(ek)) == Ok(true) && Has(Get(sc.messages, FieldOf(ek)).value, RuleOf(ek)) == Ok(true) {
      ResolveFieldMessage(sc, results, ek);
    } else {
      ResolveGlobalMessage(sc, results, ek);
    }
  }

  /** With custom messages, a field reports the message of its last raw key
      to write under it: among failing rules with custom messages, the last
      one recorded wins. */
  lemma ResolveLastCustomMessage(sc: Scope, results: Dict, j: nat)
    requires Resolve(sc, results).Ok? && j < |results|
    requires CustomMessage(sc, KeysOf(results)[j])
    requires forall l :: j < l < |results| ==> !Writes(sc, results, KeysOf(results)[l], FieldOf(KeysOf(results)[j]))
    ensures Lookup(Resolve(sc, results).value, FieldOf(KeysOf(results)[j]))
      == Some(ResolveKey(sc, results, KeysOf(results)[j]).value.1)
  {
    var keys := KeysOf(results);
    CustomMessageWritesField(sc, results, keys[j]);
    ResolveFromLastWrite(sc, results, keys, 0, [], j, FieldOf(keys[j]));
  }

  /** The raw key `field.rule` of dot-free names splits back into them. */
  lemma RawKeyParts(field: string, rule: string)
    requires '.' !in field && '.' !in rule
    ensures FieldOf(field + "." + rule) == field && RuleOf(field + "." + rule) == rule
  {
    assert Text.Join([field, rule], '.') == field + "." + rule;
    Text.SplitJoin([field, rule], '.');
  }

  /** The documented order: a message under `field.rule` beats the rule's
      entry under `messages[field]`, which beats a global message for the
      rule. */
  lemma ResolvePrecedence(field: string, rule: string, results: Dict, exact: JValue, own: JValue, global: JValue)
    requires '.' !in field && '.' !in rule && field != rule
    ensures var ek := field + "." + rule;
      ResolveKey(Scope(Obj([]), Obj([]), Obj([(ek, exact), (field, Obj([(rule, own)])), (rule, global)])), results, ek)
        == Ok((field, exact))
      && ResolveKey(Scope(Obj([]), Obj([]), Obj([(field, Obj([(rule, own)])), (rule, global)])), results, ek)
        == Ok((field, own))
      && ResolveKey(Scope(Obj([]), Obj([]), Obj([(rule, global)])), results, ek)
        == Ok((field, global))
  {
    var ek := field + "." + rule;
    RawKeyParts(field, rule);
    assert |ek| > |field| && |ek| > |rule|;
    assert ek != field && ek != rule;
  }

  /** With no custom message anywhere and no nested declaration among the
      recorded keys, every raw key resolves to itself and its template
      message. */
  lemma PlainResolveKey(sc: Scope, results: Dict, ek: string)
    requires sc.rules.Obj? && sc.messages == Obj([])
    requires !IsObjectType(Get(sc.rules, ek).value)
    ensures ResolveKey(sc, results, ek) == Ok((ek, RawOf(results, ek)))
  {
  }

  /** Writing entry i of a unique-keyed dictionary onto its prefix extends
      the prefix by that entry. */
  lemma PutPrefix(d: Dict, i: nat)
    requires UniqueKeys(d) && i < |d|
    ensures Put(d[..i], d[i].0, d[i].1) == d[..i + 1]
  {
    assert d[i].0 !in KeysOf(d[..i]) by {
      KeysIndex(d[..i]);
      forall m | 0 <= m < i ensures KeysOf(d[..i])[m] != d[i].0 {
        assert d[..i][m] == d[m];
      }
    }
    PutAppends(d[..i], d[i].0, d[i].1);
    assert d[..i + 1] == d[..i] + [d[i]];
  }

  /** One step of the plain resolution: raw key i resolves to entry i. */
  lemma PlainStep(sc: Scope, results: Dict, i: nat)
    requires sc.rules.Obj? && sc.messages == Obj([]) && UniqueKeys(results) && i < |results|
    requires forall ek :: ek in KeysOf(results) ==> !IsObjectType(Get(sc.rules, ek).value)
    ensures ResolveKey(sc, results, KeysOf(results)[i]) == Ok(results[i])
  {
    KeysIndex(results);
    PlainResolveKey(sc, results, results[i].0);
    UniqueLookup(results, i);
  }

  /** ... and so `errors()` returns exactly the recorded dictionary. */
  lemma {:induction false} ResolvePlainFrom(sc: Scope, results: Dict, i: nat)
    requires sc.rules.Obj? && sc.messages == Obj([]) && UniqueKeys(results) && i <= |results|
    requires forall ek :: ek in KeysOf(results) ==> !IsObjectType(Get(sc.rules, ek).value)
    ensures ResolveFrom(sc, results, KeysOf(results), i, results[..i]) == Ok(results)
    decreases |results| - i
  {
    if i < |results| {
      PlainStep(sc, results, i);
      PutPrefix(results, i);
      ResolvePlainFrom(sc, results, i + 1);
    } else {
      assert results[..i] == results;
    }
  }

  lemma ResolvePlain(sc: Scope, results: Dict)
    requires sc.rules.Obj? && sc.messages == Obj([]) && UniqueKeys(results)
    requires forall ek :: ek in KeysOf(results) ==> !IsObjectType(Get(sc.rules, ek).value)
    ensures Resolve(sc, results) == Ok(results)
  {
    ResolvePlainFrom(sc, results, 0);
    assert results[..0] == [];
  }
}
