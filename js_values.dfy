/** JavaScript values as the handlers see them after `JSON.parse`, with the
    parts of the language the handlers rely on: truthiness (`!v`), property
    reads that throw on `null`/`undefined`, conversion by a template literal,
    and exceptions. Numbers are integers; `NaN`, `-0` and fractions are not
    modelled. */
module JsValues {
  import opened Wrappers
  import Text

  datatype JsValue =
    | Undefined
    | Null
    | Bool(b: bool)
    | Num(n: int)
    | Str(s: string)
    | Arr(items: seq<JsValue>)
    | Obj(fields: map<string, JsValue>)

  /** The exceptions the handlers can raise or catch. `Error(m)` is a
      `new Error(m)` thrown by the code itself. */
  datatype Fault =
    | TypeError
    | SyntaxError
    | FileNotFound
    | RenderError
    | ApiError
    | Error(message: string)

  /** How an expression completes: with a value or by throwing. */
  datatype Completion<+T> = Normal(value: T) | Throw(fault: Fault)

  /** `!!v` in JavaScript. */
  predicate Truthy(v: JsValue) {
    match v
    case Undefined => false
    case Null => false
    case Bool(b) => b
    case Num(n) => n != 0
    case Str(s) => s != ""
    case Arr(_) => true
    case Obj(_) => true
  }

  predicate Nullish(v: JsValue) { v.Undefined? || v.Null? }

  /** `v[key]` for a value that is not null or undefined: an object's own
      field, `undefined` when it is absent. The keys the handlers read are
      never built-in properties of strings or arrays. */
  function Get(v: JsValue, key: string): JsValue {
    if v.Obj? && key in v.fields then v.fields[key] else Undefined
  }

  /** `v[key]`, which throws a TypeError on `null` and `undefined`. */
  function Prop(v: JsValue, key: string): Completion<JsValue> {
    if Nullish(v) then Throw(TypeError) else Normal(Get(v, key))
  }

  /** `a || b`. */
  function Or(a: JsValue, b: JsValue): JsValue {
    if Truthy(a) then a else b
  }

  /** `obj[key] = value` in strict-mode code (ES modules): an object gains or
      overwrites the field, an array keeps its elements (the extra property is
      lost by `JSON.stringify`), any other value throws a TypeError. */
  function SetProp(v: JsValue, key: string, value: JsValue): (r: Completion<JsValue>)
    ensures r.Normal? <==> v.Obj? || v.Arr?
    ensures v.Obj? ==> r.Normal? && r.value.Obj? && r.value.fields == v.fields[key := value]
    ensures r.Throw? ==> r.fault == TypeError
  {
    match v
    case Obj(m) => Normal(Obj(m[key := value]))
    case Arr(_) => Normal(v)
    case _ => Throw(TypeError)
  }

  // ------------------------------------------------------ String(v)

  function DigitChar(d: nat): char
    requires d < 10
  {
    "0123456789"[d]
  }

  function NatToString(n: nat): (r: string)
    ensures |r| >= 1 && forall i :: 0 <= i < |r| ==> Text.IsDigit(r[i])
    decreases n
  {
    if n < 10 then [DigitChar(n)] else NatToString(n / 10) + [DigitChar(n % 10)]
  }

  /** Different numbers are written differently. */
  lemma {:induction false} NatToStringInjective(a: nat, b: nat)
    requires NatToString(a) == NatToString(b)
    ensures a == b
    decreases a
  {
    var s := NatToString(a);
    if a >= 10 && b >= 10 {
      assert s[..|s| - 1] == NatToString(a / 10) == NatToString(b / 10);
      NatToStringInjective(a / 10, b / 10);
      assert DigitChar(a % 10) == s[|s| - 1] == DigitChar(b % 10);
    }
  }

  function IntToString(n: int): string {
    if n < 0 then "-" + NatToString(-n) else NatToString(n)
  }

  /** `String(v)`, as a template literal `${v}` converts a value. */
  function ToStr(v: JsValue): string
    decreases v, 1
  {
    match v
    case Undefined => "undefined"
    case Null => "null"
    case Bool(b) => if b then "true" else "false"
    case Num(n) => IntToString(n)
    case Str(s) => s
    case Arr(items) => ItemsToStr(items)
    case Obj(_) => "[object Object]"
  }

  /** `Array.prototype.join(',')`, which writes null and undefined as "". */
  function ItemsToStr(items: seq<JsValue>): string
    decreases items, 0
  {
    if |items| == 0 then ""
    else
      var head := if Nullish(items[0]) then "" else ToStr(items[0]);
      if |items| == 1 then head else head + "," + ItemsToStr(items[1..])
  }

  // ------------------------------------------------------ required fields

  /** The early-return loop `for (const field of required) if (!data[field])
      return 400`: the index of the first required field whose value is
      falsy, `None` when all are truthy, and a TypeError when `data` is null
      or undefined (the first read throws). */
  function FirstMissing(data: JsValue, required: seq<string>): (r: Completion<Option<nat>>)
    ensures r.Throw? <==> |required| > 0 && Nullish(data)
    ensures r.Throw? ==> r.fault == TypeError
    ensures r == Normal(None) <==>
      |required| == 0 || (!Nullish(data) && forall k :: 0 <= k < |required| ==> Truthy(Get(data, required[k])))
    ensures r.Normal? && r.value.Some? ==>
      var k := r.value.value;
      && k < |required|
      && !Truthy(Get(data, required[k]))
      && forall j :: 0 <= j < k ==> Truthy(Get(data, required[j]))
  {
    if |required| == 0 then Normal(None)
    else if Nullish(data) then Throw(TypeError)
    else Normal(FirstFalsy(data, required))
  }

  /** The loop once `data` is known to be an object: the first required
      field whose value is falsy. */
  function FirstFalsy(data: JsValue, required: seq<string>): (r: Option<nat>)
    requires !Nullish(data)
    ensures r.None? <==> forall k :: 0 <= k < |required| ==> Truthy(Get(data, required[k]))
    ensures r.Some? ==>
      && r.value < |required|
      && !Truthy(Get(data, required[r.value]))
      && forall j :: 0 <= j < r.value ==> Truthy(Get(data, required[j]))
  {
    if |required| == 0 then None
    else if !Truthy(Get(data, required[0])) then Some(0)
    else
      match FirstFalsy(data, required[1..])
      case None => None
      case Some(k) => Some(k + 1)
  }

  /** The loop looks only at whether each required field is truthy. */
  lemma {:induction false} FirstMissingDependsOnTruthiness(d1: JsValue, d2: JsValue, required: seq<string>)
    requires Nullish(d1) == Nullish(d2)
    requires forall key :: key in required ==> Truthy(Get(d1, key)) == Truthy(Get(d2, key))
    ensures FirstMissing(d1, required) == FirstMissing(d2, required)
  {
    if |required| > 0 && !Nullish(d1) {
      FirstFalsyDependsOnTruthiness(d1, d2, required);
    }
  }

  lemma {:induction false} FirstFalsyDependsOnTruthiness(d1: JsValue, d2: JsValue, required: seq<string>)
    requires !Nullish(d1) && !Nullish(d2)
    requires forall key :: key in required ==> Truthy(Get(d1, key)) == Truthy(Get(d2, key))
    ensures FirstFalsy(d1, required) == FirstFalsy(d2, required)
    decreases |required|
  {
    if |required| > 0 && Truthy(Get(d1, required[0])) {
      assert Truthy(Get(d2, required[0]));
      FirstFalsyDependsOnTruthiness(d1, d2, required[1..]);
    }
  }

  /** The message of the 400 reply for a missing field. */
  function MissingFieldMessage(field: string): string {
    "Missing required field: " + field
  }
}
