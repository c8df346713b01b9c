/** Shared value types: JavaScript numbers that may be NaN, message payload values and
    the numbers read from messages or configuration. */
module Values {

  datatype Option<+T> = None | Some(value: T)

  /** An integer-valued JavaScript number that may also be NaN ("unknown"). */
  datatype Num = NaN | N(v: int)

  /** `a < b` on JavaScript numbers: false as soon as one side is NaN. */
  predicate Less(a: Num, b: Num)
  {
    a.N? && b.N? && a.v < b.v
  }

  /** Math.min on integers. */
  function Min(a: int, b: int): (m: int)
    ensures m <= a && m <= b && (m == a || m == b)
  {
    if a <= b then a else b
  }

  /** The result of reading a number from a message property or from configuration:
      NaN when absent or unparsable, a finite integer, or +/-Infinity. */
  datatype MsgNumber = NotNumber | Finite(v: int) | Infinite

  /** Payload values as the clock timer handles them; objects are compared by identity. */
  datatype Value =
    | Undefined
    | Null
    | Str(s: string)
    | Number(n: int)
    | Bool(b: bool)
    | Obj(id: nat, fields: map<string, Value>)

  /** JavaScript truthiness. */
  predicate Truthy(v: Value)
  {
    match v
    case Undefined => false
    case Null => false
    case Str(s) => s != ""
    case Number(n) => n != 0
    case Bool(b) => b
    case Obj(_, _) => true
  }

  /** The result of the `typeof` operator. */
  datatype JsType = TUndefined | TObject | TString | TNumber | TBoolean

  function TypeOf(v: Value): JsType
  {
    match v
    case Undefined => TUndefined
    case Null => TObject
    case Str(_) => TString
    case Number(_) => TNumber
    case Bool(_) => TBoolean
    case Obj(_, _) => TObject
  }

  /** A property of an object payload; absent properties read as undefined. */
  function Field(v: Value, name: string): Value
  {
    if v.Obj? && name in v.fields then v.fields[name] else Undefined
  }

  /** `s.includes(sub)` */
  predicate Contains(s: string, sub: string)
    decreases |s|
  {
    if |s| < |sub| then false
    else s[..|sub|] == sub || Contains(s[1..], sub)
  }

  lemma {:induction false} ContainsAt(s: string, sub: string, i: nat)
    requires i + |sub| <= |s| && s[i..i + |sub|] == sub
    ensures Contains(s, sub)
    decreases i
  {
    if i > 0 {
      assert s[1..][i - 1..i - 1 + |sub|] == s[i..i + |sub|];
      ContainsAt(s[1..], sub, i - 1);
    }
  }

}
