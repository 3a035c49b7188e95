/** The document held by the store: a JSON-like value. Objects are maps from
    property name to value; arrays are sequences whose elements are addressed
    by canonical decimal keys. `undefined` is `None` of an `Option<J>`. */
module Json {
  import opened Wrappers
  import Decimal
  import Seqs

  datatype J =
    | JObj(fields: map<string, J>)
    | JArr(elems: seq<J>)
    | JNum(n: int)
    | JStr(s: string)
    | JBool(b: bool)
    | JNull

  /** JavaScript truthiness of a defined value: 0, "", false and null are falsy. */
  predicate Truthy(v: J) {
    match v
    case JNum(n) => n != 0
    case JStr(s) => s != ""
    case JBool(b) => b
    case JNull => false
    case _ => true
  }

  /** `typeof v === "object" && v !== null`: the values property writes descend into. */
  predicate IsContainer(v: J) {
    v.JObj? || v.JArr?
  }

  /** `v[k]`. Primitive values have no own properties in this model. */
  function Child(v: J, k: string): (r: Option<J>)
    ensures r.Some? ==> IsContainer(v)
  {
    match v
    case JObj(m) => if k in m then Some(m[k]) else None
    case JArr(s) =>
      var i := Decimal.ParseIndex(k);
      if i.Some? && i.value < |s| then Some(s[i.value]) else None
    case _ => None
  }

  /** Whether `v[k] = x` creates or overwrites a property in the JSON form of
      `v`: always for an object; for an array only under a canonical index
      (`JSON.stringify` drops every other property of an array). */
  predicate CanPut(v: J, k: string) {
    match v
    case JObj(_) => true
    case JArr(_) => Decimal.ParseIndex(k).Some?
    case _ => false
  }

  /** The write grows no array by more than one element: an object, or an
      index at most the array's length. */
  predicate InPlace(v: J, k: string) {
    match v
    case JArr(s) =>
      var i := Decimal.ParseIndex(k);
      i.Some? && i.value <= |s|
    case _ => true
  }

  /** `v[k] = x` on an array with `k` past its end leaves a hole at the array
      index `k'`, which lies between the old length and the index written. */
  predicate Pads(v: J, k: string, k': string) {
    && v.JArr?
    && Decimal.ParseIndex(k).Some?
    && Decimal.ParseIndex(k').Some?
    && |v.elems| <= Decimal.ParseIndex(k').value < Decimal.ParseIndex(k).value
  }

  /** `v[k] = x` on a container. Writing past the end of an array extends it to
      the index written, and the holes in between have the JSON form `null`; a
      write into an array under any other key leaves its JSON form unchanged. */
  function Put(v: J, k: string, x: J): (r: J)
    requires IsContainer(v)
    ensures r.JObj? == v.JObj? && r.JArr? == v.JArr?
    ensures CanPut(v, k) ==> Child(r, k) == Some(x)
    ensures !CanPut(v, k) ==> r == v
    ensures v.JArr? && CanPut(v, k) ==>
      |r.elems| == if Decimal.ParseIndex(k).value < |v.elems| then |v.elems|
                   else Decimal.ParseIndex(k).value + 1
  {
    match v
    case JObj(m) => JObj(m[k := x])
    case JArr(s) =>
      var i := Decimal.ParseIndex(k);
      if i.Some? && i.value < |s| then JArr(s[i.value := x])
      else if i.Some? then JArr(s + Seqs.Repeat(i.value - |s|, JNull) + [x])
      else v
  }

  /** `delete v[k]`, which always succeeds. Deleting an array element leaves a
      hole, whose JSON form is `null`; primitives are left as they are. */
  function Remove(v: J, k: string): (r: J)
    ensures r.JObj? == v.JObj? && r.JArr? == v.JArr?
    ensures !IsContainer(v) ==> r == v
    ensures v.JObj? ==> Child(r, k) == None
    ensures v.JArr? && Child(v, k).Some? ==> Child(r, k) == Some(JNull)
    ensures v.JArr? && Child(v, k).None? ==> r == v
  {
    match v
    case JObj(m) => JObj(m - {k})
    case JArr(s) =>
      var i := Decimal.ParseIndex(k);
      if i.Some? && i.value < |s| then JArr(s[i.value := JNull]) else v
    case _ => v
  }

  /** A write under one key leaves every other key's value as it was, except
      the holes a write past an array's end leaves. */
  lemma ChildPutOther(v: J, k: string, x: J, k': string)
    requires IsContainer(v) && k' != k && !Pads(v, k, k')
    ensures Child(Put(v, k, x), k') == Child(v, k')
  {
    if v.JArr? {
      var i := Decimal.ParseIndex(k);
      var j := Decimal.ParseIndex(k');
      if i.Some? && j.Some? && i.value == j.value {
        Decimal.ParseIndexInjective(k, k');
      }
    }
  }

  /** A hole left by a write past an array's end was undefined before and is
      `null` after. */
  lemma ChildPutPad(v: J, k: string, x: J, k': string)
    requires Pads(v, k, k')
    ensures Child(v, k') == None
    ensures Child(Put(v, k, x), k') == Some(JNull)
  {
  }

  /** A delete under one key leaves every other key's value as it was. */
  lemma ChildRemoveOther(v: J, k: string, k': string)
    requires k' != k
    ensures Child(Remove(v, k), k') == Child(v, k')
  {
    if v.JArr? {
      var i := Decimal.ParseIndex(k);
      var j := Decimal.ParseIndex(k');
      if i.Some? && j.Some? && i.value == j.value {
        Decimal.ParseIndexInjective(k, k');
      }
    }
  }
}
