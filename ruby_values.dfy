/** The dynamically typed values a parsed .travis.yml (or a JSON event payload)
    can hold, and the few Ruby built-ins the statistics code applies to them:
    truthiness, `to_s` and `inspect`. */
module RubyValues {

  datatype Option<+T> = None | Some(value: T)

  /** The two exceptions a wrong-typed value raises in the modelled code. */
  datatype RubyError = NoMethodError | TypeError

  datatype Result<+T> = Ok(value: T) | Err(error: RubyError)

  datatype Outcome = Pass | Fail(error: RubyError)

  /** A YAML/JSON value. A YAML `:name` loads as a `Sym`. `Other` stands for
      any remaining scalar (a float, a date) and carries the text its `to_s`
      produces and the text its `inspect` produces. */
  datatype Value =
    | Nil
    | Bool(b: bool)
    | Int(i: int)
    | Str(s: string)
    | Sym(name: string)
    | Arr(items: seq<Value>)
    | Hash(entries: map<string, Value>)
    | Other(text: string, inspected: string)

  /** Ruby truthiness: only nil and false are falsy. */
  predicate Truthy(v: Value) {
    !(v.Nil? || v == Bool(false))
  }

  function DigitChar(d: nat): (c: char)
    requires d < 10
    ensures '0' <= c <= '9' && c as int - '0' as int == d
  {
    ('0' as int + d) as char
  }

  /** The number a string of decimal digits denotes, read most significant first. */
  function DigitsValue(s: string): int
    decreases |s|
  {
    if s == [] then 0 else 10 * DigitsValue(s[..|s| - 1]) + (s[|s| - 1] as int - '0' as int)
  }

  /** Decimal digits of a natural number, most significant first, without
      leading zeros. */
  function NatToString(n: nat): (s: string)
    ensures |s| > 0
    ensures forall i :: 0 <= i < |s| ==> '0' <= s[i] <= '9'
    ensures DigitsValue(s) == n
    ensures s[0] == '0' <==> n == 0
    ensures |s| > 1 ==> s[0] != '0'
    decreases n
  {
    if n < 10 then [DigitChar(n)]
    else
      var prefix := NatToString(n / 10);
      var s := prefix + [DigitChar(n % 10)];
      assert s[..|s| - 1] == prefix && s[0] == prefix[0];
      assert DigitsValue(s) == 10 * (n / 10) + n % 10;
      s
  }

  /** `Integer#to_s`: a minus sign for a negative number, then the digits of its magnitude. */
  function IntToString(i: int): (s: string)
    ensures i < 0 ==> |s| > 1 && s[0] == '-' && DigitsValue(s[1..]) == -i
    ensures i >= 0 ==> DigitsValue(s) == i
    ensures var d := if i < 0 then s[1..] else s;
      |d| > 0 && (forall k :: 0 <= k < |d| ==> '0' <= d[k] <= '9') && (|d| > 1 ==> d[0] != '0')
  {
    if i < 0 then
      var s := "-" + NatToString(-i);
      assert s[1..] == NatToString(-i);
      s
    else NatToString(i)
  }

  /** `to_s` as `Array#map(&:to_s)` applies it to each element. */
  function ToS(v: Value): string {
    match v
    case Nil => ""
    case Bool(b) => if b then "true" else "false"
    case Int(i) => IntToString(i)
    case Str(s) => s
    case Sym(name) => name
    case Other(text, _) => text
    case Arr(_) => Inspect(v)
    case Hash(_) => "{...}"
  }

  /** `inspect`, used by `Array#to_s` for the elements of a nested array. */
  function Inspect(v: Value): string
    decreases v, 1, 0
  {
    match v
    case Nil => "nil"
    case Bool(b) => if b then "true" else "false"
    case Int(i) => IntToString(i)
    case Str(s) => "\"" + s + "\""
    case Sym(name) => ":" + name
    case Other(_, inspected) => inspected
    case Arr(items) => "[" + InspectItems(v, 0) + "]"
    case Hash(_) => "{...}"
  }

  /** The elements of array `v` from index `i` on, inspected and joined by ", ". */
  function InspectItems(v: Value, i: nat): string
    requires v.Arr? && i <= |v.items|
    decreases v, 0, |v.items| - i
  {
    if i == |v.items| then ""
    else Inspect(v.items[i]) + (if i + 1 == |v.items| then "" else ", " + InspectItems(v, i + 1))
  }
}
