/** The JavaScript values the validator handles (its payloads, rule
    declarations, message trees and error maps are all plain JS values) and
    the few host operations it performs on them: property read, the `in`
    operator, `Object.keys`, object spread, truthiness and `String(v)`.
    Objects are insertion-ordered association lists. */
module JsValues {

  import opened Wrappers
  import opened Text

  datatype JValue =
    | Undefined
    | Null
    | Bool(b: bool)
    | Num(n: real)
    | Str(s: string)
    | Arr(items: seq<JValue>)
    | Obj(props: seq<(string, JValue)>)

  /** An insertion-ordered dictionary: a plain JS object's own properties. */
  type Dict = seq<(string, JValue)>

  /** The two ways a call can abort: the library's own syntax error, and a
      TypeError raised by the host (reading a property of null, `in` on a
      primitive, calling something that is not a function, ...). */
  datatype Fault = SyntaxError(message: string) | TypeError

  datatype Result<+T> = Ok(value: T) | Err(error: Fault) {
    predicate IsFailure() {
      Err?
    }

    function PropagateFailure<U>(): Result<U>
      requires Err?
    {
      Err(error)
    }

    function Extract(): T
      requires Ok?
    {
      value
    }
  }

  // ---------------------------------------------------------------- Dicts

  function KeysOf(d: Dict): (ks: seq<string>)
    ensures |ks| == |d|
  {
    if d == [] then [] else [d[0].0] + KeysOf(d[1..])
  }

  /** The value of the first entry named k. */
  function Lookup(d: Dict, k: string): (r: Option<JValue>)
    ensures r.Some? <==> k in KeysOf(d)
  {
    if d == [] then None else if d[0].0 == k then Some(d[0].1) else Lookup(d[1..], k)
  }

  /** `d[k] = v`: overwrite in place, or append a new key at the end. */
  function Put(d: Dict, k: string, v: JValue): (r: Dict)
    ensures Lookup(r, k) == Some(v)
    ensures forall k' :: k' != k ==> Lookup(r, k') == Lookup(d, k')
    ensures KeysOf(r) == if k in KeysOf(d) then KeysOf(d) else KeysOf(d) + [k]
  {
    if d == [] then [(k, v)]
    else if d[0].0 == k then [(k, v)] + d[1..]
    else
      var r := [d[0]] + Put(d[1..], k, v);
      assert r[1..] == Put(d[1..], k, v);
      r
  }

  /** `delete d[k]`: the key disappears, every other entry keeps its place. */
  function Delete(d: Dict, k: string): (r: Dict)
    ensures Lookup(r, k) == None
    ensures forall k' :: k' != k ==> Lookup(r, k') == Lookup(d, k')
    ensures forall k' :: k' in KeysOf(r) <==> k' in KeysOf(d) && k' != k
  {
    if d == [] then []
    else if d[0].0 == k then Delete(d[1..], k)
    else
      var r := [d[0]] + Delete(d[1..], k);
      assert r[1..] == Delete(d[1..], k);
      r
  }

  /** `Object.assign(d, ps)`, or the object spread `{...d, ...ps}`: later
      entries overwrite earlier ones. */
  function PutAll(d: Dict, ps: Dict): (r: Dict)
    ensures forall k :: k in KeysOf(r) <==> k in KeysOf(d) || k in KeysOf(ps)
    ensures forall k :: k in KeysOf(ps) ==> Lookup(r, k) == LastValue(ps, k)
    ensures forall k :: k !in KeysOf(ps) ==> Lookup(r, k) == Lookup(d, k)
    decreases |ps|
  {
    if ps == [] then d
    else
      var r := PutAll(Put(d, ps[0].0, ps[0].1), ps[1..]);
      assert forall k :: k in KeysOf(ps) <==> k == ps[0].0 || k in KeysOf(ps[1..]);
      r
  }

  /** The value of the last entry named k. */
  function LastValue(ps: Dict, k: string): (r: Option<JValue>)
    ensures r.Some? <==> k in KeysOf(ps)
  {
    if ps == [] then None
    else if k in KeysOf(ps[1..]) then LastValue(ps[1..], k)
    else if ps[0].0 == k then Some(ps[0].1)
    else None
  }

  lemma {:induction false} KeysAppend(a: Dict, b: Dict)
    ensures KeysOf(a + b) == KeysOf(a) + KeysOf(b)
  {
    if a == [] {
      assert a + b == b;
    } else {
      assert (a + b)[1..] == a[1..] + b;
      KeysAppend(a[1..], b);
    }
  }

  function IndexOfKey(d: Dict, k: string): (i: nat)
    requires k in KeysOf(d)
    ensures i < |d| && d[i].0 == k && Lookup(d, k) == Some(d[i].1)
  {
    if d[0].0 == k then 0 else 1 + IndexOfKey(d[1..], k)
  }

  lemma LookupFound(d: Dict, k: string)
    requires k in KeysOf(d)
    ensures Lookup(d, k) == Some(d[IndexOfKey(d, k)].1)
  {
  }

  predicate UniqueKeys(d: Dict) {
    forall i, j :: 0 <= i < j < |d| ==> d[i].0 != d[j].0
  }

  /** Putting pairs into a dictionary never repeats a key. */
  lemma {:induction false} PutAllFreshUnique(d: Dict, ps: Dict)
    requires UniqueKeys(d)
    ensures UniqueKeys(PutAll(d, ps))
    decreases |ps|
  {
    if ps != [] {
      PutUnique(d, ps[0].0, ps[0].1);
      PutAllFreshUnique(Put(d, ps[0].0, ps[0].1), ps[1..]);
    }
  }

  lemma {:induction false} PutUnique(d: Dict, k: string, v: JValue)
    requires UniqueKeys(d)
    ensures UniqueKeys(Put(d, k, v))
  {
    var r := Put(d, k, v);
    KeysIndex(d);
    KeysIndex(r);
    forall i, j | 0 <= i < j < |r| ensures r[i].0 != r[j].0 {
      if k in KeysOf(d) {
        assert KeysOf(r) == KeysOf(d);
      } else {
        assert KeysOf(r) == KeysOf(d) + [k];
        if j == |d| {
          assert r[j].0 == k;
          assert r[i].0 == KeysOf(d)[i];
        }
      }
    }
  }

  lemma {:induction false} KeysIndex(d: Dict)
    ensures forall i :: 0 <= i < |d| ==> KeysOf(d)[i] == d[i].0
  {
    if d != [] {
      KeysIndex(d[1..]);
    }
  }

  lemma {:induction false} UniqueLookup(g: Dict, i: nat)
    requires UniqueKeys(g) && i < |g|
    ensures Lookup(g, g[i].0) == Some(g[i].1)
  {
    if i > 0 {
      assert UniqueKeys(g[1..]);
      UniqueLookup(g[1..], i - 1);
    }
  }

  /** Object.fromEntries of a unique-keyed list is that list. */
  lemma {:induction false} PutAllOntoEmpty(g: Dict)
    requires UniqueKeys(g)
    ensures PutAll([], g) == g
  {
    PutAllAppends([], g);
  }

  lemma {:induction false} PutAllAppends(d: Dict, g: Dict)
    requires UniqueKeys(d + g)
    ensures PutAll(d, g) == d + g
    decreases |g|
  {
    if g != [] {
      KeysIndex(d);
      assert g[0].0 !in KeysOf(d) by {
        forall i | 0 <= i < |d| ensures d[i].0 != g[0].0 {
          assert (d + g)[i] == d[i] && (d + g)[|d|] == g[0];
        }
      }
      PutAppends(d, g[0].0, g[0].1);
      assert d + g == (d + [g[0]]) + g[1..];
      PutAllAppends(d + [g[0]], g[1..]);
    }
  }

  lemma {:induction false} PutAppends(d: Dict, k: string, v: JValue)
    requires k !in KeysOf(d)
    ensures Put(d, k, v) == d + [(k, v)]
  {
    if d != [] {
      PutAppends(d[1..], k, v);
      assert [d[0]] + (d[1..] + [(k, v)]) == d + [(k, v)];
    }
  }

  // ------------------------------------------------------------- Size

  /** A size that strictly shrinks from a rule declaration to each nested
      declaration the engine recurses into. */
  function Size(v: JValue): nat
    decreases v, 1
  {
    match v
    case Arr(xs) => 2 + SizeItems(xs)
    case Obj(ps) => 1 + SizeProps(v, ps)
    case _ => 1
  }

  function SizeItems(xs: seq<JValue>): nat
  {
    if xs == [] then 0 else Size(xs[0]) + SizeItems(xs[1..])
  }

  function SizeProps(ghost parent: JValue, ps: seq<(string, JValue)>): nat
    requires forall i :: 0 <= i < |ps| ==> ps[i].1 < parent
    decreases parent, 0, |ps|
  {
    if ps == [] then 0 else Size(ps[0].1) + SizeProps(parent, ps[1..])
  }

  lemma {:induction false} SizeItemsBound(xs: seq<JValue>, i: nat)
    requires i < |xs|
    ensures Size(xs[i]) <= SizeItems(xs)
  {
    if i > 0 {
      SizeItemsBound(xs[1..], i - 1);
    }
  }

  /** Every value found under a key of an object is smaller than the object. */
  lemma {:induction false} LookupSmaller(parent: JValue, ps: Dict, k: string)
    requires forall i :: 0 <= i < |ps| ==> ps[i].1 < parent
    ensures Lookup(ps, k).Some? ==> Size(Lookup(ps, k).value) <= SizeProps(parent, ps)
  {
    if ps != [] && ps[0].0 != k {
      LookupSmaller(parent, ps[1..], k);
    }
  }

  // ------------------------------------------------------ host operations

  /** Truthiness, as `if (v)` and `v || w` decide it. */
  predicate Truthy(v: JValue) {
    match v
    case Undefined => false
    case Null => false
    case Bool(b) => b
    case Num(n) => n != 0.0
    case Str(s) => s != ""
    case _ => true
  }

  /** `typeof v === 'object'`: objects, arrays and null. */
  predicate IsObjectType(v: JValue) {
    v.Null? || v.Arr? || v.Obj?
  }

  /** The position i < n whose decimal text is k, if there is one. */
  function IndexKey(k: string, n: nat): (r: Option<nat>)
    ensures r.Some? ==> r.value < n && NatToString(r.value) == k
  {
    if k != [] && AllDigits(k) && DigitsValue(k) < n && NatToString(DigitsValue(k)) == k
    then Some(DigitsValue(k)) else None
  }

  lemma IndexKeyOfIndex(i: nat, n: nat)
    requires i < n
    ensures IndexKey(NatToString(i), n) == Some(i)
  {
    NatToStringRoundTrip(i);
  }

  /** The own property keys `Object.keys` lists for an array or a string. */
  function IndexKeys(n: nat): (ks: seq<string>)
    ensures |ks| == n
    ensures forall i :: 0 <= i < n ==> ks[i] == NatToString(i)
  {
    seq(n, i requires 0 <= i => NatToString(i))
  }

  /** `v[k]`: a TypeError on undefined and null; own properties of objects,
      indices and `length` of arrays and strings; undefined otherwise. */
  function Get(v: JValue, k: string): (r: Result<JValue>)
    ensures r.Err? <==> v.Undefined? || v.Null?
  {
    match v
    case Undefined => Err(TypeError)
    case Null => Err(TypeError)
    case Obj(ps) => Ok(match Lookup(ps, k) case Some(x) => x case None => Undefined)
    case Arr(xs) =>
      if k == "length" then Ok(Num(|xs| as real))
      else Ok(match IndexKey(k, |xs|) case Some(i) => xs[i] case None => Undefined)
    case Str(s) =>
      if k == "length" then Ok(Num(|s| as real))
      else Ok(match IndexKey(k, |s|) case Some(i) => Str([s[i]]) case None => Undefined)
    case _ => Ok(Undefined)
  }

  /** An own property of an object reads as its entry. */
  lemma GetOwn(ps: Dict, k: string)
    requires k in KeysOf(ps)
    ensures Get(Obj(ps), k) == Ok(Lookup(ps, k).value)
  {
  }

  /** `k in v`: a TypeError unless v is an object or an array. */
  function Has(v: JValue, k: string): (r: Result<bool>)
    ensures r.Err? <==> !(v.Obj? || v.Arr?)
    ensures v.Obj? ==> r == Ok(k in KeysOf(v.props))
  {
    match v
    case Obj(ps) => Ok(k in KeysOf(ps))
    case Arr(xs) => Ok(k == "length" || IndexKey(k, |xs|).Some?)
    case _ => Err(TypeError)
  }

  /** `Object.keys(v)`: a TypeError on undefined and null. */
  function Keys(v: JValue): (r: Result<seq<string>>)
    ensures r.Err? <==> v.Undefined? || v.Null?
    ensures v.Obj? ==> r == Ok(KeysOf(v.props))
  {
    match v
    case Undefined => Err(TypeError)
    case Null => Err(TypeError)
    case Obj(ps) => Ok(KeysOf(ps))
    case Arr(xs) => Ok(IndexKeys(|xs|))
    case Str(s) => Ok(IndexKeys(|s|))
    case _ => Ok([])
  }

  /** The entries `{...v}` contributes to an object literal. */
  function Spread(v: JValue): (r: Dict)
    ensures v.Obj? ==> r == v.props
    ensures !(v.Obj? || v.Arr? || v.Str?) ==> r == []
  {
    match v
    case Obj(ps) => ps
    case Arr(xs) => seq(|xs|, i requires 0 <= i < |xs| => (NatToString(i), xs[i]))
    case Str(s) => seq(|s|, i requires 0 <= i < |s| => (NatToString(i), Str([s[i]])))
    case _ => []
  }

  /** `String(v)`, as a template literal renders it. */
  function Display(v: JValue): string
  {
    match v
    case Undefined => "undefined"
    case Null => "null"
    case Bool(b) => if b then "true" else "false"
    case Num(n) => NumberToString(n)
    case Str(s) => s
    case Arr(xs) => JoinItems(xs)
    case Obj(_) => "[object Object]"
  }

  /** `Array.prototype.join(',')`, where undefined and null render empty. */
  function JoinItems(xs: seq<JValue>): string
  {
    if xs == [] then ""
    else
      var first := if xs[0].Undefined? || xs[0].Null? then "" else Display(xs[0]);
      if |xs| == 1 then first else first + "," + JoinItems(xs[1..])
  }

  /** `Number(v)`, None standing for NaN. */
  function ToNumber(v: JValue): Option<real>
  {
    match v
    case Undefined => None
    case Null => Some(0.0)
    case Bool(b) => Some(if b then 1.0 else 0.0)
    case Num(n) => Some(n)
    case Str(s) => StringToNumber(s)
    case Arr(_) => StringToNumber(Display(v))
    case Obj(_) => None
  }
}
