/** The JavaScript values that cross the hybrid envelope: what
    `JSON.parse` returns, the objects the code builds, and the
    `undefined` a missing property reads as. */
module JsValue {
  import opened Options

  datatype Value =
    | Undefined
    | Null
    | Bool(b: bool)
    | Num(n: int)
    | Str(s: string)
    | Arr(elems: seq<Value>)
    | Obj(props: map<string, Value>)

  /** A value JSON can represent: no `undefined` anywhere inside. */
  ghost predicate IsJson(v: Value) {
    match v
    case Undefined => false
    case Arr(elems) => forall i | 0 <= i < |elems| :: IsJson(elems[i])
    case Obj(props) => forall k | k in props :: IsJson(props[k])
    case _ => true
  }

  function DigitChar(d: nat): char
    requires d < 10
  {
    ('0' as int + d) as char
  }

  /** The canonical decimal text of an index, the name of an array or string
      element as a property. */
  function Decimal(n: nat): (s: string)
    ensures 1 <= |s| && (n >= 10 ==> |s| >= 2)
  {
    if n < 10 then [DigitChar(n)] else Decimal(n / 10) + [DigitChar(n % 10)]
  }

  lemma {:induction false} DecimalInjective(a: nat, b: nat)
    requires Decimal(a) == Decimal(b)
    ensures a == b
  {
    if a >= 10 && b >= 10 {
      var da, db := Decimal(a), Decimal(b);
      assert da[|da| - 1] == DigitChar(a % 10) && db[|db| - 1] == DigitChar(b % 10);
      assert da[..|da| - 1] == Decimal(a / 10) && db[..|db| - 1] == Decimal(b / 10);
      DecimalInjective(a / 10, b / 10);
    }
  }

  lemma DistinctIndexNames()
    ensures forall a: nat, b: nat :: Decimal(a) == Decimal(b) ==> a == b
  {
    forall a: nat, b: nat | Decimal(a) == Decimal(b) ensures a == b {
      DecimalInjective(a, b);
    }
  }

  /** The property names of the elements of an array or string of length n. */
  function IndexNames(n: nat): set<string> {
    set i | 0 <= i < n :: Decimal(i)
  }

  /** Elements under their index names, as an array or a string exposes
      them to object spread. */
  function IndexedProps(elems: seq<Value>): (props: map<string, Value>)
    ensures props.Keys == IndexNames(|elems|)
    ensures forall i | 0 <= i < |elems| :: Decimal(i) in props && props[Decimal(i)] == elems[i]
  {
    DistinctIndexNames();
    var props := map i | 0 <= i < |elems| :: Decimal(i) := elems[i];
    forall k | k in props ensures k in IndexNames(|elems|) {
      var i :| 0 <= i < |elems| && Decimal(i) == k;
    }
    props
  }

  /** The own enumerable properties object spread copies from a value: an
      object's entries, the elements of an array or the characters of a
      string under their index names, and nothing for `null`,
      `undefined`, booleans and numbers. */
  function OwnProps(v: Value): (props: map<string, Value>)
    ensures v.Obj? ==> props == v.props
    ensures !(v.Obj? || v.Arr? || v.Str?) ==> props == map[]
    ensures v.Arr? ==> props.Keys == IndexNames(|v.elems|)
    ensures v.Str? ==> props.Keys == IndexNames(|v.s|)
    ensures v.Arr? ==> forall i | 0 <= i < |v.elems| :: Decimal(i) in props && props[Decimal(i)] == v.elems[i]
    ensures v.Str? ==> forall i | 0 <= i < |v.s| :: Decimal(i) in props && props[Decimal(i)] == Str([v.s[i]])
  {
    match v
    case Obj(props) => props
    case Arr(elems) => IndexedProps(elems)
    case Str(text) => IndexedProps(seq(|text|, i requires 0 <= i < |text| => Str([text[i]])))
    case _ => map[]
  }

  /** Property access `v[name]` on a value that is neither `null` nor
      `undefined`: only objects have the envelope's property names. */
  function Prop(v: Value, name: string): Value {
    if v.Obj? && name in v.props then v.props[name] else Undefined
  }
}
