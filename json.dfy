/**
 * The values `JSON.parse` produces. An `Obj` lists the object's own properties in the
 * order a `for...in` loop enumerates them. Its keys are taken to be distinct, as in any
 * JavaScript object; nothing here checks that.
 */
module JsonTree {
  import opened Wrappers

  datatype Json =
    | Null
    | Bool(b: bool)
    | Num(n: real)
    | Str(s: string)
    | Arr(elems: seq<Json>)
    | Obj(members: seq<(string, Json)>)

  /** JavaScript truthiness: `null`, `false`, `0` and `""` are falsy. */
  predicate Truthy(j: Json) {
    match j
    case Null => false
    case Bool(b) => b
    case Num(n) => n != 0.0
    case Str(s) => s != []
    case _ => true
  }

  /** `j` passes `obj && typeof obj === 'object'`: an array or an object. */
  predicate IsObjectLike(j: Json) {
    j.Arr? || j.Obj?
  }

  /** Reads `j[key]` for the property names the scraper uses; `None` is `undefined`. */
  function Get(j: Json, key: string): (r: Option<Json>)
    ensures r.Some? ==> j.Obj? && exists i :: 0 <= i < |j.members| && j.members[i] == (key, r.value)
    ensures j.Obj? && r.None? ==> forall i :: 0 <= i < |j.members| ==> j.members[i].0 != key
    decreases if j.Obj? then |j.members| else 0
  {
    match j
    case Obj(ms) =>
      if ms == [] then None
      else if ms[0].0 == key then Some(ms[0].1)
      else
        var r := Get(Obj(ms[1..]), key);
        assert forall i :: 0 <= i < |ms| - 1 ==> ms[1..][i] == ms[i + 1];
        r
    case _ => None
  }

  /** The property values of an object, in enumeration order. */
  function Values(ms: seq<(string, Json)>): (vs: seq<Json>)
    ensures |vs| == |ms|
    ensures forall i :: 0 <= i < |ms| ==> vs[i] == ms[i].1
  {
    if ms == [] then [] else [ms[0].1] + Values(ms[1..])
  }

  /** What `for (const key in j) ... j[key]` visits: array elements or property values. */
  function Children(j: Json): (cs: seq<Json>)
    ensures forall i :: 0 <= i < |cs| ==> (j decreases to cs[i])
  {
    match j
    case Arr(es) => es
    case Obj(ms) =>
      assert forall i :: 0 <= i < |ms| ==> ms[i] in ms && ms[i].1 < ms[i];
      Values(ms)
    case _ => []
  }
}
