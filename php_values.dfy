/** PHP runtime values and the three conversions the scopes depend on: truthiness (what
    Laravel's `when` checks and what `empty` negates), interpolation into a double-quoted
    string, and the loose `==` that `in_array` uses. */
module PhpValues {

  /** The PHP values a driving argument can take. Floats, objects and closures are not modelled. */
  datatype Value =
    | Null
    | Bool(b: bool)
    | Int(i: int)
    | Str(s: string)
    | Arr(elements: seq<Value>)

  /** PHP's conversion to boolean, defined type by type. The falsy values are exactly PHP's
      list: null, false, 0, "", "0" and the empty array (0.0 is not modelled). */
  predicate IsTruthy(v: Value)
    ensures !IsTruthy(v) <==> v in {Null, Bool(false), Int(0), Str(""), Str("0"), Arr([])}
  {
    match v
    case Null => false
    case Bool(b) => b
    case Int(i) => i != 0
    case Str(s) => s != "" && s != "0"
    case Arr(elements) => |elements| > 0
  }

  function DigitChar(d: nat): (c: char)
    requires d < 10
    ensures '0' <= c <= '9'
    ensures c as int - '0' as int == d
  {
    ('0' as int + d) as char
  }

  /** The number a string of decimal digits denotes. */
  function DigitsValue(s: string): (n: int)
  {
    if s == [] then 0 else DigitsValue(s[..|s| - 1]) * 10 + (s[|s| - 1] as int - '0' as int)
  }

  /** Decimal text of a natural number: digits only, no leading zero, and denoting `n`. */
  function NatToString(n: nat): (s: string)
    ensures |s| >= 1
    ensures forall k :: 0 <= k < |s| ==> '0' <= s[k] <= '9'
    ensures |s| > 1 ==> s[0] != '0'
    ensures DigitsValue(s) == n
  {
    if n < 10 then [DigitChar(n)]
    else
      var s := NatToString(n / 10) + [DigitChar(n % 10)];
      assert s[..|s| - 1] == NatToString(n / 10);
      s
  }

  /** Decimal text of an integer: a leading '-' exactly when it is negative, followed by the
      decimal text of its magnitude. */
  function IntToString(i: int): (s: string)
    ensures |s| >= 1
    ensures s[0] == '-' <==> i < 0
    ensures i >= 0 ==> '0' <= s[0] <= '9'
    ensures forall k :: 1 <= k < |s| ==> '0' <= s[k] <= '9'
    ensures i < 0 ==> |s| >= 2 && DigitsValue(s[1..]) == -i && (|s| > 2 ==> s[1] != '0')
    ensures i >= 0 ==> DigitsValue(s) == i && (|s| > 1 ==> s[0] != '0')
  {
    if i < 0 then
      var s := "-" + NatToString(-i);
      assert s[1..] == NatToString(-i);
      s
    else NatToString(i)
  }

  /** The text PHP substitutes for `$value` inside a double-quoted string (an array becomes
      "Array", with a warning). It is empty exactly for null, false and "", a string is
      substituted as it is, and an integer as its signed decimal text. */
  function Interpolate(v: Value): (s: string)
    ensures s == "" <==> v == Null || v == Bool(false) || v == Str("")
    ensures v.Str? ==> s == v.s
    ensures v.Int? ==> s == IntToString(v.i)
    ensures v == Bool(true) ==> s == "1"
  {
    match v
    case Null => ""
    case Bool(b) => if b then "1" else ""
    case Int(i) => IntToString(i)
    case Str(s) => s
    case Arr(_) => "Array"
  }

  /** A non-empty string of lower-case letters, hence not a numeric string. */
  predicate IsWord(w: string) {
    |w| > 0 && forall c | c in w :: 'a' <= c <= 'z'
  }

  /** PHP 8's loose `$v == $word` for a string literal `word` that is not numeric:
      null compares as "", a bool compares with the word's truthiness, an int and a
      non-numeric string compare as strings, and an array is never equal to a string. */
  predicate LooseEqualsWord(v: Value, word: string)
    requires IsWord(word)
  {
    match v
    case Null => word == ""
    case Bool(b) => b == IsTruthy(Str(word))
    case Int(i) => IntToString(i) == word
    case Str(s) => s == word
    case Arr(_) => false
  }

  /** Exactly two values are loosely equal to a word: the word itself and `true`. */
  lemma LooseEqualsWordCases(v: Value, word: string)
    requires IsWord(word)
    ensures LooseEqualsWord(v, word) <==> v == Str(word) || v == Bool(true)
  {
    assert word[0] in word;
    assert word != "0" && word != "";
    if v.Int? {
      var text := IntToString(v.i);
      assert text[0] == '-' || '0' <= text[0] <= '9';
      assert text != word;
    }
  }
}
