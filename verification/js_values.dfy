/** The slice of JavaScript value semantics the client code relies on:
    primitive values, truthiness, conversion to string (which is also how a
    value becomes a property key), the string `<` comparison, and the outcome
    of a `fetch` call. */
module JsValues {
  import opened Wrappers
  import opened Decimal

  /** Primitive JavaScript values. Numbers are modelled as integers, so there
      is no NaN and `===` coincides with structural equality `==`. */
  datatype JsValue = Undefined | Null | Bool(b: bool) | Num(n: int) | Str(s: string)

  /** ToBoolean: what `||`, `?:` and `if` test. */
  predicate Truthy(v: JsValue) {
    match v
    case Undefined => false
    case Null => false
    case Bool(b) => b
    case Num(n) => n != 0
    case Str(s) => s != ""
  }

  /** Number::toString for an integer. */
  function IntToString(n: int): (s: string)
    ensures |s| >= 1
    ensures n < 0 <==> s[0] == '-'
    ensures 0 <= n ==> s == NatToDecimal(n)
  {
    if n < 0 then "-" + NatToDecimal(-n) else NatToDecimal(n)
  }

  /** ToString, as template literals use it; for these values it is also
      ToPropertyKey, the key under which `obj[v]` looks `v` up. */
  function ToJsString(v: JsValue): string {
    match v
    case Undefined => "undefined"
    case Null => "null"
    case Bool(b) => if b then "true" else "false"
    case Num(n) => IntToString(n)
    case Str(s) => s
  }

  /** The only integers whose numeral is a single digit 0-3 are 0..3. */
  lemma SmallNumeral(n: int, d: nat)
    requires d <= 3
    requires IntToString(n) == NatToDecimal(d)
    ensures n == d
  {
    if n >= 0 {
      ValueOfDecimal(n);
      ValueOfDecimal(d);
    }
  }

  /** The string `<` of JavaScript (IsLessThan on two strings): a proper
      prefix is smaller, otherwise the first differing character decides. */
  predicate StrLess(a: string, b: string)
    decreases |a|
  {
    if |b| == 0 then false
    else if |a| == 0 then true
    else if a[0] != b[0] then a[0] < b[0]
    else StrLess(a[1..], b[1..])
  }

  lemma {:induction false} StrLessIrreflexive(a: string)
    ensures !StrLess(a, a)
  {
    if |a| > 0 {
      StrLessIrreflexive(a[1..]);
    }
  }

  lemma {:induction false} StrLessTransitive(a: string, b: string, c: string)
    requires StrLess(a, b) && StrLess(b, c)
    ensures StrLess(a, c)
    decreases |a|
  {
    if |a| > 0 && a[0] == b[0] && b[0] == c[0] {
      StrLessTransitive(a[1..], b[1..], c[1..]);
    }
  }

  /** Any two distinct strings are ordered one way or the other. */
  lemma {:induction false} StrLessTotal(a: string, b: string)
    requires a != b
    ensures StrLess(a, b) || StrLess(b, a)
    decreases |a|
  {
    if |a| > 0 && |b| > 0 && a[0] == b[0] {
      assert a == [a[0]] + a[1..] && b == [b[0]] + b[1..];
      StrLessTotal(a[1..], b[1..]);
    }
  }

  lemma {:induction false} StrLessAsymmetric(a: string, b: string)
    requires StrLess(a, b)
    ensures !StrLess(b, a)
  {
    if StrLess(b, a) {
      StrLessTransitive(a, b, a);
      StrLessIrreflexive(a);
    }
  }

  /** The outcome of `fetch`: either the server answered with a status and a
      body (None when `response.json()` would throw), or the promise rejected. */
  datatype Response<T> = Response(status: int, body: Option<T>) | NetworkError {
    /** `response.ok`: a status in the range 200-299. */
    predicate IsOk() {
      Response? && 200 <= status <= 299
    }
  }
}
