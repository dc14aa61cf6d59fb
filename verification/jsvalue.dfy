/** JavaScript values as far as the model needs them: numbers with their
    non-finite members, and the JSON-shaped values a parser or a remote
    response can produce. */
module JsValue {
  import JsMath

  /** An IEEE-754 double, with its finite members taken as exact reals. */
  datatype Num = Finite(v: real) | NaN | PosInf | NegInf {
    predicate IsFinite() {
      Finite?
    }

    /** `n > x` for a finite `x`: false whenever `n` is `NaN`. */
    predicate Greater(x: real) {
      match this
      case Finite(v) => v > x
      case PosInf => true
      case _ => false
    }

    /** `n < x` for a finite `x`. */
    predicate Less(x: real) {
      match this
      case Finite(v) => v < x
      case NegInf => true
      case _ => false
    }

    /** Truthiness: `0` and `NaN` are falsy. */
    predicate Truthy() {
      match this
      case Finite(v) => v != 0.0
      case NaN => false
      case _ => true
    }
  }

  /** `a - n` for a finite `a`. */
  function SubFrom(a: real, n: Num): (r: Num)
    ensures n.Finite? ==> r == Finite(a - n.v)
    ensures n.NaN? <==> r.NaN?
  {
    match n
    case Finite(v) => Finite(a - v)
    case NaN => NaN
    case PosInf => NegInf
    case NegInf => PosInf
  }

  /** `Math.ceil`, which keeps `NaN` and the infinities. */
  function CeilNum(n: Num): (r: Num)
    ensures n.Finite? ==> r.Finite? && r.v - 1.0 < n.v <= r.v && r.v == r.v.Floor as real
    ensures !n.Finite? ==> r == n
  {
    match n
    case Finite(v) => Finite(JsMath.Ceil(v) as real)
    case _ => n
  }

  /** A value as `JSON.parse` or a remote response can produce it, plus
      `undefined`. */
  datatype Value =
    | Undefined
    | Null
    | Bool(b: bool)
    | Number(n: Num)
    | Str(s: string)
    | Array(items: seq<Value>)
    | Object(fields: map<string, Value>)
  {
    /** JavaScript truthiness (ToBoolean). */
    predicate Truthy() {
      match this
      case Undefined => false
      case Null => false
      case Bool(b) => b
      case Number(n) => n.Truthy()
      case Str(s) => s != []
      case _ => true
    }

    /** `v.key` for a property no prototype defines: an own property of a
        plain object, `undefined` on anything else. */
    function Get(key: string): (r: Value)
      ensures Object? && key in fields ==> r == fields[key]
      ensures !(Object? && key in fields) ==> r == Undefined
    {
      if Object? && key in fields then fields[key] else Undefined
    }
  }
}
