/** Values shared by every part of the table: identifiers, field values and the
    JavaScript conversions (truthiness, String()) the components rely on. */
module Common {

  datatype Option<T> = None | Some(value: T)

  /** A row identifier, `string | number` in the source. Numbers are modelled as integers. */
  datatype Id = StrId(s: string) | NumId(n: int)

  /** A field value of a record: the JavaScript primitives, or any other (non-primitive)
      value, which carries the text that JavaScript's String() gives for it. */
  datatype Value = Str(s: string) | Num(n: int) | Bool(b: bool) | Null | Undefined | Other(text: string)
  {
    /** `typeof v` is string, number or boolean. */
    predicate IsPrimitive() { Str? || Num? || Bool? }
  }

  /** JavaScript truthiness of an identifier: `""` and `0` are falsy. */
  predicate IdTruthy(id: Id)
  {
    match id
    case StrId(s) => s != ""
    case NumId(n) => n != 0
  }

  /** JavaScript truthiness of a field value (objects are always truthy). */
  predicate Truthy(v: Value)
  {
    match v
    case Str(s) => s != ""
    case Num(n) => n != 0
    case Bool(b) => b
    case Null => false
    case Undefined => false
    case Other(_) => true
  }

  function IdValue(id: Id): Value
  {
    match id
    case StrId(s) => Str(s)
    case NumId(n) => Num(n)
  }

  function DigitChar(d: nat): char
    requires d < 10
  {
    "0123456789"[d]
  }

  /** Decimal notation of a natural number, most significant digit first. */
  function NatText(n: nat): (r: string)
    ensures |r| >= 1
    ensures forall i :: 0 <= i < |r| ==> '0' <= r[i] <= '9'
    ensures n < 10 <==> |r| == 1
  {
    if n < 10 then [DigitChar(n)] else NatText(n / 10) + [DigitChar(n % 10)]
  }

  function IntText(n: int): string
  {
    if n < 0 then "-" + NatText(-n) else NatText(n)
  }

  /** `String(v)`. */
  function JsString(v: Value): string
  {
    match v
    case Str(s) => s
    case Num(n) => IntText(n)
    case Bool(b) => if b then "true" else "false"
    case Null => "null"
    case Undefined => "undefined"
    case Other(text) => text
  }

  /** Copy a set and flip the membership of one element: the `has ? delete : add` step
      every toggle handler of the table performs on its copy of a `Set`. */
  function Flip<T>(s: set<T>, x: T): (r: set<T>)
    ensures x in r <==> x !in s
    ensures r - {x} == s - {x}
  {
    if x in s then s - {x} else s + {x}
  }

  /** Flipping the same element twice restores the set. */
  lemma FlipTwice<T>(s: set<T>, x: T)
    ensures Flip(Flip(s, x), x) == s
  {
  }
}
