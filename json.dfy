/**
 * The parsed configuration value as the route resolver sees it.
 *
 * `JSON.parse` is not modelled: the resolver receives its outcome as an
 * oracle, either an error or one of the values below. Only the parts of
 * JavaScript's semantics that the resolver relies on are defined here:
 * truthiness, the `typeof` tag, and the canonical decimal property keys
 * under which an array's elements can be looked up.
 */
module Json {

  /** A value that `JSON.parse` can produce. */
  datatype JsonValue =
    | JNull
    | JBool(b: bool)
    | JNumber(n: real)
    | JString(s: string)
    | JArray(items: seq<JsonValue>)
    | JObject(fields: map<string, JsonValue>)

  /** What `JSON.parse(raw)` does: throw, or return a value. */
  datatype ParseResult = ParseError | Parsed(value: JsonValue)

  /** JavaScript's ToBoolean, restricted to the values JSON can denote. */
  predicate Truthy(v: JsonValue)
    ensures !Truthy(v) <==> v == JNull || v == JBool(false) || v == JNumber(0.0) || v == JString("")
  {
    match v
    case JNull => false
    case JBool(b) => b
    case JNumber(n) => n != 0.0
    case JString(s) => s != ""
    case JArray(_) => true
    case JObject(_) => true
  }

  /** The tags `typeof` gives to JSON values. */
  datatype TypeTag = TObject | TBoolean | TNumber | TString

  /** JavaScript's `typeof`; note that `typeof null` is "object", as are arrays. */
  function TypeOf(v: JsonValue): (t: TypeTag)
    ensures t == TObject <==> v.JNull? || v.JArray? || v.JObject?
  {
    match v
    case JNull => TObject
    case JBool(_) => TBoolean
    case JNumber(_) => TNumber
    case JString(_) => TString
    case JArray(_) => TObject
    case JObject(_) => TObject
  }

  /** The character of a decimal digit. */
  function Digit(d: nat): (c: char)
    requires d < 10
    ensures '0' <= c <= '9'
    ensures c as int - '0' as int == d
  {
    "0123456789"[d]
  }

  predicate AllDigits(s: string) {
    forall i :: 0 <= i < |s| ==> '0' <= s[i] <= '9'
  }

  /** A digit string without a redundant leading zero: the form JavaScript gives array indices. */
  predicate IsCanonicalDigits(s: string) {
    |s| >= 1 && AllDigits(s) && (s[0] == '0' ==> |s| == 1)
  }

  /** The number a string of decimal digits spells. */
  function DigitsValue(s: string): nat
    requires AllDigits(s)
  {
    if s == "" then 0 else 10 * DigitsValue(s[..|s| - 1]) + (s[|s| - 1] as int - '0' as int)
  }

  /** A digit string that does not start with '0' spells a positive number. */
  lemma {:induction false} DigitsValuePositive(s: string)
    requires |s| >= 1 && AllDigits(s) && s[0] != '0'
    ensures DigitsValue(s) >= 1
  {
    if |s| > 1 {
      DigitsValuePositive(s[..|s| - 1]);
    }
  }

  /**
   * The canonical decimal string of `n`, which is the property key under
   * which an array's n-th element is found.
   */
  function DecimalString(n: nat): (r: string)
    ensures |r| >= 1 && AllDigits(r)
    ensures n >= 10 ==> |r| >= 2
    ensures IsCanonicalDigits(r)
  {
    if n < 10 then [Digit(n)] else DecimalString(n / 10) + [Digit(n % 10)]
  }

  /** The property key of index `n` spells `n`. */
  lemma {:induction false} DecimalStringValue(n: nat)
    ensures DigitsValue(DecimalString(n)) == n
  {
    var r := DecimalString(n);
    if n >= 10 {
      assert r[..|r| - 1] == DecimalString(n / 10);
      assert r[|r| - 1] == Digit(n % 10);
      DecimalStringValue(n / 10);
    }
  }

  /** Every canonical digit string is the property key of the index it spells. */
  lemma {:induction false} DecimalStringOfValue(s: string)
    requires IsCanonicalDigits(s)
    ensures DecimalString(DigitsValue(s)) == s
  {
    var p := s[..|s| - 1];
    var d := s[|s| - 1] as int - '0' as int;
    if |s| == 1 {
      assert DigitsValue(s) == d;
      assert Digit(d) as int == s[0] as int;
    } else {
      DigitsValuePositive(p);
      DecimalStringOfValue(p);
      var n := DigitsValue(s);
      assert n / 10 == DigitsValue(p) && n % 10 == d;
      assert Digit(d) as int == s[|s| - 1] as int;
      assert s == p + [s[|s| - 1]];
    }
  }

  /** Distinct indices have distinct property keys. */
  lemma DecimalStringInjective(a: nat, b: nat)
    requires DecimalString(a) == DecimalString(b)
    ensures a == b
  {
    DecimalStringValue(a);
    DecimalStringValue(b);
  }

  lemma DecimalStringInjectiveAll()
    ensures forall a: nat, b: nat :: DecimalString(a) == DecimalString(b) ==> a == b
  {
    forall a: nat, b: nat | DecimalString(a) == DecimalString(b) ensures a == b {
      DecimalStringInjective(a, b);
    }
  }
}
