/**
 * The JavaScript values the gateway handles: parsed JSON bodies, route
 * parameters and the objects the gRPC client hands back. Numbers are
 * integers here; fractional numbers are not modelled.
 */
module JsValues {
  import Dates

  datatype JsValue =
    | Undefined
    | Null
    | Bool(b: bool)
    | Num(n: int)
    | Str(s: string)
    | Arr(items: seq<JsValue>)
    | Obj(fields: map<string, JsValue>)

  /** JavaScript truthiness: undefined, null, false, 0 and "" are falsy. */
  predicate Truthy(v: JsValue)
  {
    match v
    case Undefined => false
    case Null => false
    case Bool(b) => b
    case Num(n) => n != 0
    case Str(s) => s != ""
    case Arr(_) => true
    case Obj(_) => true
  }

  /** Property read `v.key` (or destructuring): a missing key reads as undefined. */
  function Get(v: JsValue, key: string): (r: JsValue)
    ensures v.Obj? && key in v.fields ==> r == v.fields[key]
    ensures !(v.Obj? && key in v.fields) ==> r == Undefined
  {
    if v.Obj? && key in v.fields then v.fields[key] else Undefined
  }

  // ---------------------------------------------------------- number text

  /** The decimal digits of a natural number, most significant first, no leading zero. */
  function NatDecimal(n: nat): (s: string)
    ensures |s| >= 1 && (forall i :: 0 <= i < |s| ==> Dates.IsDigit(s[i]))
    ensures |s| > 1 ==> s[0] != '0'
  {
    if n < 10 then [Dates.DigitChar(n)] else NatDecimal(n / 10) + [Dates.DigitChar(n % 10)]
  }

  /** The number a string of digits spells. */
  function DigitsValue(s: string): (n: nat)
    requires forall i :: 0 <= i < |s| ==> Dates.IsDigit(s[i])
  {
    if s == [] then 0 else 10 * DigitsValue(s[..|s| - 1]) + Dates.DigitValue(s[|s| - 1])
  }

  /** Reading the digits back gives the number. */
  lemma {:induction false} NatDecimalValue(n: nat)
    ensures DigitsValue(NatDecimal(n)) == n
  {
    var s := NatDecimal(n);
    if n >= 10 {
      NatDecimalValue(n / 10);
      assert s[..|s| - 1] == NatDecimal(n / 10);
    }
  }

  /** JavaScript's text of an integer. */
  function Decimal(n: int): (s: string)
    ensures n >= 0 ==> (forall i :: 0 <= i < |s| ==> Dates.IsDigit(s[i])) && DigitsValue(s) == n
    ensures n < 0 ==>
      && |s| >= 2 && s[0] == '-'
      && (forall i :: 1 <= i < |s| ==> Dates.IsDigit(s[i]))
      && DigitsValue(s[1..]) == -n
  {
    NatDecimalValue(if n < 0 then -n else n);
    if n < 0 then "-" + NatDecimal(-n) else NatDecimal(n)
  }

  // ------------------------------------------------------------ join and text

  /** `Array.prototype.join(sep)` over texts. */
  function Join(parts: seq<string>, sep: string): string
  {
    if |parts| == 0 then "" else if |parts| == 1 then parts[0] else parts[0] + sep + Join(parts[1..], sep)
  }

  /** `String(v)`: the text JavaScript gives a value. */
  function JsString(v: JsValue): string
    decreases v, 0
  {
    match v
    case Undefined => "undefined"
    case Null => "null"
    case Bool(b) => if b then "true" else "false"
    case Num(n) => Decimal(n)
    case Str(s) => s
    case Arr(items) => Join(ItemTexts(items), ",")
    case Obj(_) => "[object Object]"
  }

  /** The text `join` uses for one item: undefined and null become "". */
  function JoinText(v: JsValue): string
    decreases v, 1
  {
    if v.Undefined? || v.Null? then "" else JsString(v)
  }

  /** The texts `join` uses for array items. */
  function ItemTexts(items: seq<JsValue>): (ts: seq<string>)
    ensures |ts| == |items|
    decreases items
  {
    if items == [] then [] else [JoinText(items[0])] + ItemTexts(items[1..])
  }
}
