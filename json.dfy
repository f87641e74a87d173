/**
 * JavaScript values as the client sees them after JSON.parse, plus
 * `undefined`, which property reads on missing keys produce.
 */
module Json {
  import opened Wrappers
  import opened Text

  /** An object's fields are listed in its own-property enumeration order,
      which is the order Object.keys and Object.values report. */
  datatype Js =
    | Undefined
    | Null
    | Bool(b: bool)
    | Number(n: real)
    | Str(s: string)
    | Arr(items: seq<Js>)
    | Obj(fields: seq<(string, Js)>)

  /** JavaScript truthiness (the `!x`, `x || y` and `x && y` tests). */
  predicate Truthy(v: Js) {
    match v
    case Undefined => false
    case Null => false
    case Bool(b) => b
    case Number(n) => n != 0.0
    case Str(s) => s != ""
    case _ => true
  }

  /** `null` and `undefined`: reading a property of these throws a TypeError. */
  predicate Nullish(v: Js) {
    v.Undefined? || v.Null?
  }

  predicate DistinctKeys(fields: seq<(string, Js)>) {
    forall i, j :: 0 <= i < j < |fields| ==> fields[i].0 != fields[j].0
  }

  /** Value stored under `k`, or `undefined`. */
  function Lookup(fields: seq<(string, Js)>, k: string): (r: Js)
    ensures (forall i :: 0 <= i < |fields| ==> fields[i].0 != k) ==> r == Undefined
  {
    if fields == [] then Undefined
    else if fields[|fields| - 1].0 == k then fields[|fields| - 1].1
    else Lookup(fields[..|fields| - 1], k)
  }

  /** In an object with distinct keys, the i-th key reads back the i-th value. */
  lemma {:induction false} LookupAt(fields: seq<(string, Js)>, i: nat)
    requires DistinctKeys(fields) && i < |fields|
    ensures Lookup(fields, fields[i].0) == fields[i].1
    decreases |fields|
  {
    if i < |fields| - 1 {
      var init := fields[..|fields| - 1];
      assert DistinctKeys(init) by {
        forall a, b | 0 <= a < b < |init| ensures init[a].0 != init[b].0 {
          assert init[a] == fields[a] && init[b] == fields[b];
        }
      }
      assert init[i] == fields[i];
      LookupAt(init, i);
    }
  }

  /** Property read `v.k` on a value that is not an array-index access:
      None stands for the TypeError thrown on null and undefined.  The names
      the client reads (count, examples, label, …) are not built-in
      properties of primitives or arrays, so those give `undefined`. */
  function Prop(v: Js, k: string): (r: Option<Js>)
    ensures r.None? <==> Nullish(v)
  {
    match v
    case Undefined => None
    case Null => None
    case Obj(fs) => Some(Lookup(fs, k))
    case _ => Some(Undefined)
  }

  /** "0", "1", …, "n-1": the index keys of an array or a string. */
  function IndexKeys(n: nat): (r: seq<string>)
    ensures |r| == n
    ensures forall i :: 0 <= i < n ==> r[i] == NatText(i)
  {
    if n == 0 then [] else IndexKeys(n - 1) + [NatText(n - 1)]
  }

  /** Object.keys(v) for a value that is not null or undefined. */
  function Keys(v: Js): seq<string> {
    match v
    case Arr(items) => IndexKeys(|items|)
    case Str(s) => IndexKeys(|s|)
    case Obj(fs) => seq(|fs|, i requires 0 <= i < |fs| => fs[i].0)
    case _ => []
  }

  /** Object.values(v) for a value that is not null or undefined. */
  function Values(v: Js): seq<Js> {
    match v
    case Arr(items) => items
    case Str(s) => seq(|s|, i requires 0 <= i < |s| => Str([s[i]]))
    case Obj(fs) => seq(|fs|, i requires 0 <= i < |fs| => fs[i].1)
    case _ => []
  }

  /** Object.keys and Object.values walk the same properties in the same
      order, so they always have the same length. */
  lemma KeysValuesAligned(v: Js)
    ensures |Keys(v)| == |Values(v)|
  {
  }
}
