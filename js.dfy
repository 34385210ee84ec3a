/**
 * The part of JavaScript's value model that the decoders rely on: a JSON-like
 * value (with `undefined` for a missing property), the `Number(v)` and
 * `String(v)` coercions, `??` and property access.
 *
 * Numbers are integers here: a finite JavaScript number is `Finite(n)` and
 * NaN or an infinity is `NonFinite`.
 */
module Js {
  import opened Wrappers

  datatype Json =
    | JUndefined
    | JNull
    | JBool(b: bool)
    | JNum(n: int)
    | JStr(s: string)
    | JArr(items: seq<Json>)
    | JObj(fields: map<string, Json>)

  /** The result of `Number(v)`: finite, or NaN / an infinity. */
  datatype Num = Finite(value: int) | NonFinite

  /** `JSON.parse` of a text: `None` when it throws. */
  type Parser = string -> Option<Json>

  /** `v == null` in JavaScript: null or undefined. */
  predicate Nullish(v: Json) {
    v.JNull? || v.JUndefined?
  }

  /** Some element of `xs` is `null` or `undefined`. */
  predicate HasNullish(xs: seq<Json>) {
    exists i :: 0 <= i < |xs| && Nullish(xs[i])
  }

  lemma HasNullishCons(xs: seq<Json>)
    requires xs != []
    ensures HasNullish(xs) <==> Nullish(xs[0]) || HasNullish(xs[1..])
  {
    if HasNullish(xs) && !Nullish(xs[0]) {
      var i :| 0 <= i < |xs| && Nullish(xs[i]);
      assert xs[1..][i - 1] == xs[i];
    }
    if HasNullish(xs[1..]) {
      var i :| 0 <= i < |xs[1..]| && Nullish(xs[1..][i]);
      assert xs[i + 1] == xs[1..][i];
    }
  }

  /** `a ?? b`. */
  function Coalesce(a: Json, b: Json): (r: Json)
    ensures !Nullish(a) ==> r == a
    ensures Nullish(a) ==> r == b
  {
    if Nullish(a) then b else a
  }

  /** `v.name` (or `v?.name`) on a value that is not null/undefined. */
  function Field(v: Json, name: string): (r: Json)
    ensures v.JObj? && name in v.fields ==> r == v.fields[name]
    ensures !(v.JObj? && name in v.fields) ==> r == JUndefined
  {
    match v
    case JObj(m) => if name in m then m[name] else JUndefined
    case _ => JUndefined
  }

  /** The characters matched by `\s` in a JavaScript regular expression (also the ones `trim` removes). */
  predicate IsSpace(c: char) {
    c == '\U{9}' || c == '\U{A}' || c == '\U{B}' || c == '\U{C}' || c == '\U{D}' || c == ' ' ||
    c == '\U{A0}' || c == '\U{1680}' || ('\U{2000}' <= c <= '\U{200A}') ||
    c == '\U{2028}' || c == '\U{2029}' || c == '\U{202F}' || c == '\U{205F}' ||
    c == '\U{3000}' || c == '\U{FEFF}'
  }

  function TrimStart(s: string): (r: string)
    ensures |r| <= |s| && r == s[|s| - |r|..]
    ensures r == [] || !IsSpace(r[0])
  {
    if s != [] && IsSpace(s[0]) then TrimStart(s[1..]) else s
  }

  function TrimEnd(s: string): (r: string)
    ensures |r| <= |s| && r == s[..|r|]
    ensures r == [] || !IsSpace(r[|r| - 1])
  {
    if s != [] && IsSpace(s[|s| - 1]) then TrimEnd(s[..|s| - 1]) else s
  }

  function Trim(s: string): (r: string)
    ensures |r| <= |s|
    ensures r == [] || (!IsSpace(r[0]) && !IsSpace(r[|r| - 1]))
    ensures s == [] || (!IsSpace(s[0]) && !IsSpace(s[|s| - 1])) ==> r == s
  {
    TrimEnd(TrimStart(s))
  }

  predicate IsDigit(c: char) {
    '0' <= c <= '9'
  }

  predicate AllDigits(s: string) {
    forall i :: 0 <= i < |s| ==> IsDigit(s[i])
  }

  function DigitsValue(s: string): (n: nat)
    requires AllDigits(s)
  {
    if s == [] then 0 else 10 * DigitsValue(s[..|s| - 1]) + (s[|s| - 1] - '0') as int
  }

  /** A sign followed by at least one decimal digit. */
  predicate SignedDigits(t: string) {
    |t| > 1 && (t[0] == '+' || t[0] == '-') && AllDigits(t[1..])
  }

  /**
   * `Number(text)`: surrounding white space is ignored, the empty text is 0,
   * an optionally signed run of decimal digits is its value, anything else NaN.
   */
  function StringToNumber(s: string): (r: Num)
    ensures Trim(s) == [] ==> r == Finite(0)
    ensures Trim(s) != [] && AllDigits(Trim(s)) ==> r == Finite(DigitsValue(Trim(s)))
    ensures SignedDigits(Trim(s)) && Trim(s)[0] == '-' ==> r == Finite(0 - DigitsValue(Trim(s)[1..]) as int)
    ensures SignedDigits(Trim(s)) && Trim(s)[0] == '+' ==> r == Finite(DigitsValue(Trim(s)[1..]) as int)
    ensures Trim(s) != [] && !AllDigits(Trim(s)) && !SignedDigits(Trim(s)) ==> r == NonFinite
  {
    var t := Trim(s);
    if t == [] then Finite(0)
    else if AllDigits(t) then Finite(DigitsValue(t))
    else if SignedDigits(t) then
      Finite(if t[0] == '-' then 0 - DigitsValue(t[1..]) as int else DigitsValue(t[1..]))
    else NonFinite
  }

  function NatToString(n: nat): (s: string)
    ensures s != [] && AllDigits(s) && DigitsValue(s) == n
  {
    var d := ['0' + (n % 10) as char];
    if n < 10 then d else NatToString(n / 10) + d
  }

  function IntToString(n: int): (s: string)
    ensures n >= 0 ==> s != [] && AllDigits(s) && DigitsValue(s) == n
    ensures n < 0 ==> |s| > 1 && s[0] == '-' && AllDigits(s[1..]) && DigitsValue(s[1..]) == -n
  {
    if n < 0 then "-" + NatToString(-n) else NatToString(n)
  }

  /** `Number(String(n))` is `n`: the text of an integer reads back as that integer. */
  lemma StringToNumberOfIntToString(n: int)
    ensures StringToNumber(IntToString(n)) == Finite(n)
  {
    var t := IntToString(n);
    var digits := NatToString(if n < 0 then -n else n);
    assert t != [] && !IsSpace(t[0]) && !IsSpace(t[|t| - 1]);
    assert TrimStart(t) == t;
    assert TrimEnd(t) == t;
    if n < 0 {
      assert t[1..] == digits;
      assert !IsDigit(t[0]);
    }
  }

  /** `String(v)`. */
  function ToStr(v: Json): (r: string)
    ensures v.JStr? ==> r == v.s
    ensures v.JNum? ==> StringToNumber(r) == Finite(v.n)
    decreases v, 1, 0
  {
    match v
    case JUndefined => "undefined"
    case JNull => "null"
    case JBool(b) => if b then "true" else "false"
    case JNum(n) => StringToNumberOfIntToString(n); IntToString(n)
    case JStr(s) => s
    case JArr(xs) => JoinFrom(xs, 0)
    case JObj(_) => "[object Object]"
  }

  /** `xs.slice(i).join(",")`, where null and undefined elements print as the empty text. */
  function JoinFrom(xs: seq<Json>, i: nat): string
    requires i <= |xs|
    decreases JArr(xs), 0, |xs| - i
  {
    if i == |xs| then ""
    else
      var item := if Nullish(xs[i]) then "" else ToStr(xs[i]);
      if i + 1 == |xs| then item else item + "," + JoinFrom(xs, i + 1)
  }

  /** `Number(v)`. An array or object is first turned into its text, as JavaScript does. */
  function ToNumber(v: Json): (r: Num)
    ensures v.JNum? ==> r == Finite(v.n)
    ensures v.JNull? ==> r == Finite(0)
    ensures v.JUndefined? ==> r == NonFinite
  {
    match v
    case JUndefined => NonFinite
    case JNull => Finite(0)
    case JBool(b) => Finite(if b then 1 else 0)
    case JNum(n) => Finite(n)
    case JStr(s) => StringToNumber(s)
    case _ => StringToNumber(ToStr(v))
  }

  /** `toNumber(v, fallback)` / `toNum(v, fallback)`: `Number(v)` when finite, else the fallback. */
  function ToNumberOr(v: Json, fallback: int): (r: int)
    ensures ToNumber(v).Finite? ==> r == ToNumber(v).value
    ensures ToNumber(v).NonFinite? ==> r == fallback
  {
    match ToNumber(v)
    case Finite(n) => n
    case NonFinite => fallback
  }

  /** `safeJsonArray(v)`: an array, or a text that parses to an array, as texts; otherwise empty. */
  function SafeJsonArray(v: Json, parse: Parser): (r: seq<string>)
    ensures v.JArr? ==> |r| == |v.items| && forall i :: 0 <= i < |r| ==> r[i] == ToStr(v.items[i])
    ensures v.JStr? && parse(v.s).Some? && parse(v.s).value.JArr? ==>
      var xs := parse(v.s).value.items; |r| == |xs| && forall i :: 0 <= i < |r| ==> r[i] == ToStr(xs[i])
    ensures !v.JArr? && !(v.JStr? && parse(v.s).Some? && parse(v.s).value.JArr?) ==> r == []
  {
    match v
    case JArr(xs) => seq(|xs|, i requires 0 <= i < |xs| => ToStr(xs[i]))
    case JStr(s) =>
      (match parse(s)
       case Some(JArr(xs)) => seq(|xs|, i requires 0 <= i < |xs| => ToStr(xs[i]))
       case _ => [])
    case _ => []
  }
}
