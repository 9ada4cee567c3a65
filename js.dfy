/** JavaScript values as the tracker sees them in decoded JSON bodies and
    JWT payloads, with the truthiness and `||` rules the code relies on,
    plus the shape of an HTTP response as seen through `fetch`. */
module Js {

  datatype Option<+T> = None | Some(value: T)

  /** A scalar JSON/JavaScript value. Numbers are integers here: the
      tracker only reads ids and never computes with fractional numbers. */
  datatype Value = Undefined | Null | Bool(b: bool) | Num(n: int) | Str(s: string)

  /** The falsy scalars of JavaScript; every other value is truthy. */
  const FalsyValues: set<Value> := {Undefined, Null, Bool(false), Num(0), Str("")}

  /** JavaScript truthiness (`!!v`). */
  predicate Truthy(v: Value)
    ensures Truthy(v) <==> v !in FalsyValues
  {
    match v
    case Undefined => false
    case Null => false
    case Bool(b) => b
    case Num(n) => n != 0
    case Str(s) => s != ""
  }

  /** `a || b`: the first operand when it is truthy, else the second. */
  function Or(a: Value, b: Value): (r: Value)
    ensures Truthy(a) ==> r == a
    ensures !Truthy(a) ==> r == b
    ensures Truthy(r) <==> Truthy(a) || Truthy(b)
  {
    if Truthy(a) then a else b
  }

  /** The number a string of decimal digits denotes, most significant first. */
  function DigitsValue(s: string): int {
    if s == [] then 0 else 10 * DigitsValue(s[..|s| - 1]) + (s[|s| - 1] as int - '0' as int)
  }

  /** Decimal digits of a natural number, most significant first. */
  function Decimal(n: nat): (r: string)
    ensures |r| > 0
    ensures forall i :: 0 <= i < |r| ==> '0' <= r[i] <= '9'
    ensures DigitsValue(r) == n
    ensures |r| == 1 || r[0] != '0'
    decreases n
  {
    var d := ['0' + (n % 10) as char];
    if n < 10 then
      assert DigitsValue(d) == DigitsValue([]) * 10 + n % 10 by { assert d[..0] == []; }
      d
    else
      var high := Decimal(n / 10);
      assert (high + d)[..|high|] == high;
      assert |high| == 1 ==> DigitsValue(high) == high[0] as int - '0' as int by {
        if |high| == 1 { assert high[..0] == []; }
      }
      high + d
  }

  /** `String(v)`, as used by template literals and `toString()`. */
  function ToText(v: Value): string {
    match v
    case Undefined => "undefined"
    case Null => "null"
    case Bool(b) => if b then "true" else "false"
    case Num(n) => if n < 0 then "-" + Decimal(-n) else Decimal(n)
    case Str(s) => s
  }

  /** The text of a value: a string is itself, a non-negative number is its
      exact decimal text, and a negative number is a minus sign followed by
      the exact decimal text of its magnitude. */
  lemma TextOfValue(v: Value)
    ensures v.Str? ==> ToText(v) == v.s
    ensures v.Num? && v.n >= 0 ==>
              var r := ToText(v);
              && |r| > 0 && (forall i :: 0 <= i < |r| ==> '0' <= r[i] <= '9')
              && (|r| == 1 || r[0] != '0') && DigitsValue(r) == v.n
    ensures v.Num? && v.n < 0 ==>
              var r := ToText(v);
              && |r| >= 2 && r[0] == '-' && (forall i :: 1 <= i < |r| ==> '0' <= r[i] <= '9')
              && (|r| == 2 || r[1] != '0') && DigitsValue(r[1..]) == -v.n
  {
    if v.Num? && v.n < 0 {
      assert ToText(v)[1..] == Decimal(-v.n);
    }
  }


  /** What `fetch` resolves to: the HTTP status and the decoded body. */
  datatype Response<T> = Response(status: int, body: T) {
    /** `Response.ok`: the status is in the range 200-299. */
    predicate Ok() {
      200 <= status <= 299
    }
  }

  /** The outcome of a `try` block around a request: either it threw
      (network failure, a body that is not JSON, a body of the wrong shape)
      or it returned a response. */
  datatype Attempt<T> = Threw | Returned(response: Response<T>)
}
