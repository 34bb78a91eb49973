/** The JavaScript values that flow through the ingestion server as parsed
    records: what `typeof` says of them and which keys `Object.keys` lists. */
module JsValues {
  import opened Common

  /** A JavaScript value. Numbers are taken as reals (no NaN or infinities);
      an object lists its own enumerable properties in enumeration order.
      A JavaScript object never holds a key twice; the datatype does not rule
      that out, and a key listed twice is read at its first occurrence
      (`Lookup`). */
  datatype Value =
    | Undefined
    | Null
    | Number(n: real)
    | Str(s: string)
    | Boolean(b: bool)
    | BigIntValue(i: int)
    | SymbolValue
    | FunctionValue
    | DateValue(time: int)
    | ArrayValue(elems: seq<Value>)
    | ObjectValue(props: seq<Prop>)

  datatype Prop = Prop(key: string, val: Value)

  /** The `typeof` operator. */
  function TypeOf(v: Value): (t: string)
    ensures t == "object" <==> v.Null? || v.DateValue? || v.ArrayValue? || v.ObjectValue?
  {
    match v
    case Undefined => "undefined"
    case Null => "object"
    case Number(_) => "number"
    case Str(_) => "string"
    case Boolean(_) => "boolean"
    case BigIntValue(_) => "bigint"
    case SymbolValue => "symbol"
    case FunctionValue => "function"
    case DateValue(_) => "object"
    case ArrayValue(_) => "object"
    case ObjectValue(_) => "object"
  }

  /** `typeof v === 'object' && v !== null`: arrays and dates included. */
  predicate IsNonNullObject(v: Value)
  {
    TypeOf(v) == "object" && !v.Null?
  }

  /** `Object.keys(v)` paired with `v[key]`. An array lists its indices as
      decimal strings; a date has no own enumerable keys. */
  function OwnEntries(v: Value): seq<Prop>
    requires IsNonNullObject(v)
  {
    match v
    case ObjectValue(props) => props
    case ArrayValue(elems) => seq(|elems|, i requires 0 <= i < |elems| => Prop(NatToString(i), elems[i]))
    case DateValue(_) => []
  }

  /** `obj[key]` for a key the object has: the value at its first listing. */
  function Lookup(props: seq<Prop>, key: string): (r: Option<Value>)
    ensures r.None? <==> forall i :: 0 <= i < |props| ==> props[i].key != key
    ensures r.Some? ==> exists i :: 0 <= i < |props| && props[i] == Prop(key, r.value)
  {
    if |props| == 0 then None
    else if props[0].key == key then Some(props[0].val)
    else
      var r := Lookup(props[1..], key);
      assert forall i :: 1 <= i < |props| ==> props[i] == props[1..][i - 1];
      r
  }

  /** Structural equality as a deep comparison sees it: arrays element by
      element in order, objects key by key whatever order the keys are
      listed in, and any other value by identity of its contents. */
  ghost predicate SameValue(v: Value, w: Value)
    decreases v
  {
    match v
    case ArrayValue(xs) =>
      && w.ArrayValue? && |xs| == |w.elems|
      && forall i :: 0 <= i < |xs| ==> SameValue(xs[i], w.elems[i])
    case ObjectValue(ps) =>
      && w.ObjectValue?
      && (forall k :: Lookup(ps, k).None? <==> Lookup(w.props, k).None?)
      && forall i :: 0 <= i < |ps| && Lookup(ps, ps[i].key) == Some(ps[i].val) ==>
           Lookup(w.props, ps[i].key).Some? && SameValue(ps[i].val, Lookup(w.props, ps[i].key).value)
    case _ => v == w
  }

  /** Every value is the same as itself. */
  lemma {:induction false} SameValueRefl(v: Value)
    ensures SameValue(v, v)
    decreases v
  {
    match v
    case ArrayValue(xs) =>
      forall i | 0 <= i < |xs| ensures SameValue(xs[i], xs[i]) {
        SameValueRefl(xs[i]);
      }
    case ObjectValue(ps) =>
      forall i | 0 <= i < |ps| && Lookup(ps, ps[i].key) == Some(ps[i].val)
        ensures SameValue(ps[i].val, Lookup(ps, ps[i].key).value)
      {
        SameValueRefl(ps[i].val);
      }
    case _ =>
  }

  /** Listing an object's properties in another order gives the same value. */
  lemma KeyOrderIgnored()
    ensures SameValue(ObjectValue([Prop("x", Number(1.0)), Prop("y", Number(2.0))]),
                      ObjectValue([Prop("y", Number(2.0)), Prop("x", Number(1.0))]))
    ensures ObjectValue([Prop("x", Number(1.0)), Prop("y", Number(2.0))]) !=
            ObjectValue([Prop("y", Number(2.0)), Prop("x", Number(1.0))])
  {
    var a := [Prop("x", Number(1.0)), Prop("y", Number(2.0))];
    var b := [Prop("y", Number(2.0)), Prop("x", Number(1.0))];
    assert Lookup(a, "x") == Some(Number(1.0)) && Lookup(b, "x") == Some(Number(1.0));
    assert Lookup(a, "y") == Some(Number(2.0)) && Lookup(b, "y") == Some(Number(2.0));
    SameValueRefl(Number(1.0));
    SameValueRefl(Number(2.0));
  }
}
