/** Properties of a string rule declaration in src/validator.js: the
    `|`-separated tokens are all evaluated, left to right, with no
    short-circuit; every failing token records its raw key `field.rule`, a
    later failure of the same rule overwriting an earlier one; a passing
    token accepts the field's value; an unregistered rule name throws.

    The properties are first proved for the `forEach` of any body
    (`Sequence`), then specialised to the body `TokenAt`. */
module StringRules {

  import opened Wrappers
  import opened JsValues
  import opened Engine

  // ------------------------------------------------ the forEach, any body

  /** The induction principle of the `forEach`: an invariant that holds at
      position j and that every step carries from position i to i + 1 holds
      when the loop ends, and the loop ends without a fault. */
  lemma {:induction false} SequenceInvariant(step: (nat, State) -> Result<State>, n: nat, j: nat, st: State,
                                             inv: (nat, State) -> bool)
    requires j <= n && inv(j, st)
    requires forall i, st' :: j <= i < n && inv(i, st') ==> step(i, st').Ok? && inv(i + 1, step(i, st').value)
    ensures Sequence(step, n, j, st).Ok? && inv(n, Sequence(step, n, j, st).value)
    decreases n - j
  {
    if j < n {
      SequenceInvariant(step, n, j + 1, step(j, st).value, inv);
    }
  }

  /** A loop that ends without a fault ran every step without one, when
      whether a step throws depends on its position only. */
  lemma {:induction false} SequenceOkSteps(step: (nat, State) -> Result<State>, n: nat, j: nat, st: State, ok: nat -> bool)
    requires forall i, st' :: j <= i < n ==> (step(i, st').Ok? <==> ok(i))
    ensures Sequence(step, n, j, st).Ok? ==> forall i :: j <= i < n ==> ok(i)
    decreases n - j
  {
    if j < n && Sequence(step, n, j, st).Ok? {
      assert step(j, st).Ok?;
      SequenceOkSteps(step, n, j + 1, step(j, st).value, ok);
    }
  }

  /** The first step that throws ends the loop with its fault. */
  lemma {:induction false} SequenceFirstFault(step: (nat, State) -> Result<State>, n: nat, j: nat, st: State,
                                              m: nat, f: Fault)
    requires j <= m < n
    requires forall i, st' :: j <= i < m ==> step(i, st').Ok?
    requires forall st' :: step(m, st') == Err(f)
    ensures Sequence(step, n, j, st) == Err(f)
    decreases m - j
  {
    if j < m {
      SequenceFirstFault(step, n, j + 1, step(j, st).value, m, f);
    }
  }

  // ------------------------------------------------------------ one token

  /** Every token names a registered rule. */
  predicate Registered(reg: Registry, tokens: seq<string>) {
    forall j :: 0 <= j < |tokens| ==> RuleName(tokens[j]) in reg
  }

  /** The raw key token j records when it fails. */
  function RawKey(key: string, tokens: seq<string>, j: nat): string
    requires j < |tokens|
  {
    key + "." + RuleName(tokens[j])
  }

  /** Token j runs (its rule is registered and the values can be read) and
      its template returns a failure message. */
  predicate TokenFails(sc: Scope, reg: Registry, key: string, tokens: seq<string>, j: nat) {
    j < |tokens| && RuleName(tokens[j]) in reg && Get(sc.values, key).Ok? && Truthy(Outcome(sc, reg, key, tokens, j))
  }

  /** One token: it runs when its rule is registered and the values can be
      read; a failure records its raw key, a pass accepts the value. */
  lemma TokenCases(sc: Scope, reg: Registry, key: string, s: string, tokens: seq<string>, j: nat, st: State)
    requires j < |tokens|
    ensures Token(sc, reg, key, s, tokens, j, st).Ok? <==> RuleName(tokens[j]) in reg && Get(sc.values, key).Ok?
    ensures RuleName(tokens[j]) !in reg ==> Token(sc, reg, key, s, tokens, j, st) == Err(UnknownRule(s, key, RuleName(tokens[j])))
    ensures Token(sc, reg, key, s, tokens, j, st).Ok? ==>
      Token(sc, reg, key, s, tokens, j, st).value
        == if TokenFails(sc, reg, key, tokens, j)
           then State(Put(st.results, RawKey(key, tokens, j), Outcome(sc, reg, key, tokens, j)), st.accepted)
           else State(st.results, Put(st.accepted, key, Get(sc.values, key).value))
  {
  }

  /** A running token adds its raw key to the recorded ones when it fails,
      and no other key. */
  lemma StepKeys(sc: Scope, reg: Registry, key: string, s: string, tokens: seq<string>, i: nat, st: State)
    requires i < |tokens| && RuleName(tokens[i]) in reg && Get(sc.values, key).Ok?
    ensures TokenAt(sc, reg, key, s, tokens)(i, st).Ok?
    ensures forall rk :: rk in KeysOf(TokenAt(sc, reg, key, s, tokens)(i, st).value.results) <==>
      rk in KeysOf(st.results) || (TokenFails(sc, reg, key, tokens, i) && rk == RawKey(key, tokens, i))
  {
    TokenCases(sc, reg, key, s, tokens, i, st);
  }

  /** A running token writes the message of its failure under its raw key
      and leaves every other recorded message as it was. */
  lemma StepResults(sc: Scope, reg: Registry, key: string, s: string, tokens: seq<string>, i: nat, st: State, rk: string)
    requires i < |tokens| && RuleName(tokens[i]) in reg && Get(sc.values, key).Ok?
    ensures TokenAt(sc, reg, key, s, tokens)(i, st).Ok?
    ensures Lookup(TokenAt(sc, reg, key, s, tokens)(i, st).value.results, rk)
      == if TokenFails(sc, reg, key, tokens, i) && rk == RawKey(key, tokens, i)
         then Some(Outcome(sc, reg, key, tokens, i)) else Lookup(st.results, rk)
  {
    TokenCases(sc, reg, key, s, tokens, i, st);
  }

  /** A running token that passes accepts the field's value; one that fails
      leaves the accepted dictionary as it was. */
  lemma StepAccepted(sc: Scope, reg: Registry, key: string, s: string, tokens: seq<string>, i: nat, st: State, k: string)
    requires i < |tokens| && RuleName(tokens[i]) in reg && Get(sc.values, key).Ok?
    ensures TokenAt(sc, reg, key, s, tokens)(i, st).Ok?
    ensures TokenFails(sc, reg, key, tokens, i) ==> TokenAt(sc, reg, key, s, tokens)(i, st).value.accepted == st.accepted
    ensures Lookup(TokenAt(sc, reg, key, s, tokens)(i, st).value.accepted, k)
      == if !TokenFails(sc, reg, key, tokens, i) && k == key
         then Some(Get(sc.values, key).value) else Lookup(st.accepted, k)
  {
    TokenCases(sc, reg, key, s, tokens, i, st);
  }

  // ---------------------------------------------------------- all tokens

  /** The tokens from j on run to the end exactly when every remaining rule
      name is registered and, if any token remains, the values can be read. */
  lemma TokensOkIff(sc: Scope, reg: Registry, key: string, s: string, tokens: seq<string>, j: nat, st: State)
    requires j <= |tokens|
    ensures Tokens(sc, reg, key, s, tokens, j, st).Ok?
      <==> j == |tokens| || (Get(sc.values, key).Ok? && forall m :: j <= m < |tokens| ==> RuleName(tokens[m]) in reg)
  {
    var step := TokenAt(sc, reg, key, s, tokens);
    var ok := (i: nat) => i < |tokens| && RuleName(tokens[i]) in reg && Get(sc.values, key).Ok?;
    forall i, st' | j <= i < |tokens| ensures step(i, st').Ok? <==> ok(i) {
      TokenCases(sc, reg, key, s, tokens, i, st');
    }
    SequenceOkSteps(step, |tokens|, j, st, ok);
    if j == |tokens| || (Get(sc.values, key).Ok? && forall m :: j <= m < |tokens| ==> RuleName(tokens[m]) in reg) {
      SequenceInvariant(step, |tokens|, j, st, (i: nat, st': State) => true);
    } else if Get(sc.values, key).Err? {
      assert !ok(j);
    } else {
      var m :| j <= m < |tokens| && RuleName(tokens[m]) !in reg;
      assert !ok(m);
    }
  }

  /** The first unregistered name throws: a syntax error naming the
      declaration and the field for an empty name, "Validator '...' not
      found" otherwise. */
  lemma TokensFirstUnknown(sc: Scope, reg: Registry, key: string, s: string, tokens: seq<string>,
                           j: nat, m: nat, st: State)
    requires j <= m < |tokens| && Get(sc.values, key).Ok?
    requires forall l :: j <= l < m ==> RuleName(tokens[l]) in reg
    requires RuleName(tokens[m]) !in reg
    ensures Tokens(sc, reg, key, s, tokens, j, st) == Err(UnknownRule(s, key, RuleName(tokens[m])))
  {
    var step := TokenAt(sc, reg, key, s, tokens);
    forall i, st' | j <= i < m ensures step(i, st').Ok? {
      TokenCases(sc, reg, key, s, tokens, i, st');
    }
    forall st' ensures step(m, st') == Err(UnknownRule(s, key, RuleName(tokens[m]))) {
      TokenCases(sc, reg, key, s, tokens, m, st');
    }
    SequenceFirstFault(step, |tokens|, j, st, m, UnknownRule(s, key, RuleName(tokens[m])));
  }

  /** The raw keys recorded by the time the loop reaches position i: those
      of `st0` and those of the failing tokens in j..i-1. */
  ghost predicate RecordedUpTo(sc: Scope, reg: Registry, key: string, tokens: seq<string>, j: nat, st0: State, i: nat, st: State) {
    forall rk :: rk in KeysOf(st.results) <==>
      rk in KeysOf(st0.results) || exists m :: j <= m < i && TokenFails(sc, reg, key, tokens, m) && rk == RawKey(key, tokens, m)
  }

  /** Adding at most the raw key of token i to keys recorded up to position
      i gives the keys recorded up to i + 1. */
  lemma RecordsExtend(sc: Scope, reg: Registry, key: string, tokens: seq<string>, j: nat, st0: State,
                      i: nat, st: State, st1: State)
    requires j <= i < |tokens| && RecordedUpTo(sc, reg, key, tokens, j, st0, i, st)
    requires forall rk :: rk in KeysOf(st1.results) <==>
      rk in KeysOf(st.results) || (TokenFails(sc, reg, key, tokens, i) && rk == RawKey(key, tokens, i))
    ensures RecordedUpTo(sc, reg, key, tokens, j, st0, i + 1, st1)
  {
    forall rk ensures rk in KeysOf(st1.results) <==>
      rk in KeysOf(st0.results) || exists m :: j <= m < i + 1 && TokenFails(sc, reg, key, tokens, m) && rk == RawKey(key, tokens, m)
    {
      if exists m :: j <= m < i + 1 && TokenFails(sc, reg, key, tokens, m) && rk == RawKey(key, tokens, m) {
        var m :| j <= m < i + 1 && TokenFails(sc, reg, key, tokens, m) && rk == RawKey(key, tokens, m);
        if m < i {
          assert exists m' :: j <= m' < i && TokenFails(sc, reg, key, tokens, m') && rk == RawKey(key, tokens, m');
        }
      }
    }
  }

  /** One token carries `RecordedUpTo` from position i to i + 1. */
  lemma RecordsStep(sc: Scope, reg: Registry, key: string, s: string, tokens: seq<string>, j: nat, st0: State, i: nat, st: State)
    requires j <= i < |tokens| && RuleName(tokens[i]) in reg && Get(sc.values, key).Ok?
    requires RecordedUpTo(sc, reg, key, tokens, j, st0, i, st)
    ensures TokenAt(sc, reg, key, s, tokens)(i, st).Ok?
    ensures RecordedUpTo(sc, reg, key, tokens, j, st0, i + 1, TokenAt(sc, reg, key, s, tokens)(i, st).value)
  {
    StepKeys(sc, reg, key, s, tokens, i, st);
    RecordsExtend(sc, reg, key, tokens, j, st0, i, st, TokenAt(sc, reg, key, s, tokens)(i, st).value);
  }

  /** No short-circuit: after the tokens from j on, the recorded raw keys are
      the earlier ones plus the raw key of every failing token. */
  lemma TokensRecordsFailures(sc: Scope, reg: Registry, key: string, s: string, tokens: seq<string>, j: nat, st: State)
    requires j <= |tokens| && Registered(reg, tokens) && Get(sc.values, key).Ok?
    ensures Tokens(sc, reg, key, s, tokens, j, st).Ok?
    ensures forall rk :: (rk in KeysOf(Tokens(sc, reg, key, s, tokens, j, st).value.results) <==>
      rk in KeysOf(st.results) || exists m :: j <= m < |tokens| && TokenFails(sc, reg, key, tokens, m) && rk == RawKey(key, tokens, m))
  {
    var step := TokenAt(sc, reg, key, s, tokens);
    var inv := (i: nat, st': State) => RecordedUpTo(sc, reg, key, tokens, j, st, i, st');
    forall i, st' | j <= i < |tokens| && inv(i, st') ensures step(i, st').Ok? && inv(i + 1, step(i, st').value) {
      RecordsStep(sc, reg, key, s, tokens, j, st, i, st');
    }
    SequenceInvariant(step, |tokens|, j, st, inv);
  }

  /** A raw key no failing token from j on records keeps its message. */
  lemma TokensUntouched(sc: Scope, reg: Registry, key: string, s: string, tokens: seq<string>,
                        j: nat, st: State, rk: string)
    requires j <= |tokens| && Registered(reg, tokens) && Get(sc.values, key).Ok?
    requires forall m :: j <= m < |tokens| && TokenFails(sc, reg, key, tokens, m) ==> rk != RawKey(key, tokens, m)
    ensures Tokens(sc, reg, key, s, tokens, j, st).Ok?
    ensures Lookup(Tokens(sc, reg, key, s, tokens, j, st).value.results, rk) == Lookup(st.results, rk)
  {
    var step := TokenAt(sc, reg, key, s, tokens);
    var inv := (i: nat, st': State) => Lookup(st'.results, rk) == Lookup(st.results, rk);
    forall i, st' | j <= i < |tokens| && inv(i, st') ensures step(i, st').Ok? && inv(i + 1, step(i, st').value) {
      StepResults(sc, reg, key, s, tokens, i, st', rk);
    }
    SequenceInvariant(step, |tokens|, j, st, inv);
  }

  /** The message kept under a raw key is that of the last token recording it. */
  lemma TokensLastFailure(sc: Scope, reg: Registry, key: string, s: string, tokens: seq<string>,
                          j: nat, m: nat, st: State)
    requires j <= m < |tokens| && Registered(reg, tokens) && Get(sc.values, key).Ok?
    requires TokenFails(sc, reg, key, tokens, m)
    requires forall l :: m < l < |tokens| && TokenFails(sc, reg, key, tokens, l) ==> RawKey(key, tokens, l) != RawKey(key, tokens, m)
    ensures Tokens(sc, reg, key, s, tokens, j, st).Ok?
    ensures Lookup(Tokens(sc, reg, key, s, tokens, j, st).value.results, RawKey(key, tokens, m))
      == Some(Outcome(sc, reg, key, tokens, m))
  {
    var step := TokenAt(sc, reg, key, s, tokens);
    var rk, message := RawKey(key, tokens, m), Outcome(sc, reg, key, tokens, m);
    var inv := (i: nat, st': State) => i <= m || Lookup(st'.results, rk) == Some(message);
    forall i, st' | j <= i < |tokens| && inv(i, st') ensures step(i, st').Ok? && inv(i + 1, step(i, st').value) {
      LastFailureStep(sc, reg, key, s, tokens, m, i, st');
    }
    SequenceInvariant(step, |tokens|, j, st, inv);
  }

  /** One token keeps the message of token m under its raw key from
      position m + 1 on, unless it records the same raw key. */
  lemma LastFailureStep(sc: Scope, reg: Registry, key: string, s: string, tokens: seq<string>, m: nat, i: nat, st: State)
    requires m < |tokens| && i < |tokens| && RuleName(tokens[i]) in reg && Get(sc.values, key).Ok?
    requires TokenFails(sc, reg, key, tokens, m)
    requires m < i && TokenFails(sc, reg, key, tokens, i) ==> RawKey(key, tokens, i) != RawKey(key, tokens, m)
    requires i <= m || Lookup(st.results, RawKey(key, tokens, m)) == Some(Outcome(sc, reg, key, tokens, m))
    ensures TokenAt(sc, reg, key, s, tokens)(i, st).Ok?
    ensures i + 1 <= m
      || Lookup(TokenAt(sc, reg, key, s, tokens)(i, st).value.results, RawKey(key, tokens, m)) == Some(Outcome(sc, reg, key, tokens, m))
  {
    StepResults(sc, reg, key, s, tokens, i, st, RawKey(key, tokens, m));
  }

  /** A passing token accepts only the field's own entry: every other entry
      of the accepted dictionary is left as it was. */
  lemma TokensAcceptOnlyField(sc: Scope, reg: Registry, key: string, s: string, tokens: seq<string>,
                              j: nat, st: State, k: string)
    requires j <= |tokens| && Registered(reg, tokens) && Get(sc.values, key).Ok? && k != key
    ensures Tokens(sc, reg, key, s, tokens, j, st).Ok?
    ensures Lookup(Tokens(sc, reg, key, s, tokens, j, st).value.accepted, k) == Lookup(st.accepted, k)
  {
    var step := TokenAt(sc, reg, key, s, tokens);
    var inv := (i: nat, st': State) => Lookup(st'.accepted, k) == Lookup(st.accepted, k);
    forall i, st' | j <= i < |tokens| && inv(i, st') ensures step(i, st').Ok? && inv(i + 1, step(i, st').value) {
      StepAccepted(sc, reg, key, s, tokens, i, st', k);
    }
    SequenceInvariant(step, |tokens|, j, st, inv);
  }

  /** When some token from j on passes, the field's value is accepted, and
      it stays so through the later tokens. */
  lemma TokensAcceptOnPass(sc: Scope, reg: Registry, key: string, s: string, tokens: seq<string>,
                           j: nat, m: nat, st: State)
    requires j <= m < |tokens| && Registered(reg, tokens) && Get(sc.values, key).Ok?
    requires !TokenFails(sc, reg, key, tokens, m)
    ensures Tokens(sc, reg, key, s, tokens, j, st).Ok?
    ensures Lookup(Tokens(sc, reg, key, s, tokens, j, st).value.accepted, key) == Some(Get(sc.values, key).value)
  {
    var step := TokenAt(sc, reg, key, s, tokens);
    var value := Get(sc.values, key).value;
    var inv := (i: nat, st': State) => i <= m || Lookup(st'.accepted, key) == Some(value);
    forall i, st' | j <= i < |tokens| && inv(i, st') ensures step(i, st').Ok? && inv(i + 1, step(i, st').value) {
      AcceptOnPassStep(sc, reg, key, s, tokens, m, i, st');
    }
    SequenceInvariant(step, |tokens|, j, st, inv);
  }

  /** One token keeps the field accepted from position m + 1 on. */
  lemma AcceptOnPassStep(sc: Scope, reg: Registry, key: string, s: string, tokens: seq<string>, m: nat, i: nat, st: State)
    requires m < |tokens| && i < |tokens| && RuleName(tokens[i]) in reg && Get(sc.values, key).Ok?
    requires !TokenFails(sc, reg, key, tokens, m)
    requires i <= m || Lookup(st.accepted, key) == Some(Get(sc.values, key).value)
    ensures TokenAt(sc, reg, key, s, tokens)(i, st).Ok?
    ensures i + 1 <= m || Lookup(TokenAt(sc, reg, key, s, tokens)(i, st).value.accepted, key) == Some(Get(sc.values, key).value)
  {
    StepAccepted(sc, reg, key, s, tokens, i, st, key);
  }

  /** When every token from j on fails, nothing is accepted. */
  lemma TokensAllFail(sc: Scope, reg: Registry, key: string, s: string, tokens: seq<string>, j: nat, st: State)
    requires j <= |tokens| && Registered(reg, tokens) && Get(sc.values, key).Ok?
    requires forall m :: j <= m < |tokens| ==> TokenFails(sc, reg, key, tokens, m)
    ensures Tokens(sc, reg, key, s, tokens, j, st).Ok?
    ensures Tokens(sc, reg, key, s, tokens, j, st).value.accepted == st.accepted
  {
    var step := TokenAt(sc, reg, key, s, tokens);
    var inv := (i: nat, st': State) => st'.accepted == st.accepted;
    forall i, st' | j <= i < |tokens| && inv(i, st') ensures step(i, st').Ok? && inv(i + 1, step(i, st').value) {
      StepAccepted(sc, reg, key, s, tokens, i, st', key);
    }
    SequenceInvariant(step, |tokens|, j, st, inv);
  }
}
