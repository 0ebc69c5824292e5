/** PHP values as they reach the translator: an optional value and the scalar
    leaves a decoded YAML or JSON document can hold, with PHP's `(string)` cast. */
module PhpValues {

  datatype Option<+T> = None | Some(value: T)

  /** A scalar leaf of a decoded language file (floating point is not modelled). */
  datatype Scalar = Str(s: string) | Int(i: int) | Bool(b: bool) | Null

  predicate IsDigit(c: char) { '0' <= c <= '9' }

  predicate AllDigits(s: string) { forall k :: 0 <= k < |s| ==> IsDigit(s[k]) }

  function DigitChar(d: nat): (c: char)
    requires d < 10
    ensures IsDigit(c) && c as int - '0' as int == d
  {
    "0123456789"[d]
  }

  /** The decimal numeral of `n`, without sign or leading zeros. */
  function NatText(n: nat): (r: string)
    ensures |r| > 0 && AllDigits(r)
    ensures r[0] == '0' ==> n == 0
    decreases n
  {
    if n < 10 then [DigitChar(n)] else NatText(n / 10) + [DigitChar(n % 10)]
  }

  /** PHP's `(string)` of an integer: an optional minus sign and the decimal numeral. */
  function IntText(i: int): (r: string)
    ensures |r| > 0
    ensures r[0] == '-' <==> i < 0
    ensures r[0] == '0' ==> r == "0"
    ensures i < 0 ==> |r| > 1 && r[1] != '0'
  {
    if i < 0 then "-" + NatText(-i) else NatText(i)
  }

  /** The value of a decimal numeral: the reference against which the cast is checked. */
  function ParseNat(s: string): nat
    requires AllDigits(s)
  {
    if s == [] then 0 else ParseNat(s[..|s| - 1]) * 10 + (s[|s| - 1] as int - '0' as int)
  }

  predicate IsIntText(s: string)
  {
    (|s| > 1 && s[0] == '-' && AllDigits(s[1..])) || AllDigits(s)
  }

  function ParseInt(s: string): int
    requires IsIntText(s)
  {
    if |s| > 1 && s[0] == '-' && AllDigits(s[1..]) then 0 - ParseNat(s[1..]) as int else ParseNat(s)
  }

  lemma {:induction false} NatTextRoundTrip(n: nat)
    ensures ParseNat(NatText(n)) == n
  {
    if n >= 10 {
      var front := NatText(n / 10);
      var r := front + [DigitChar(n % 10)];
      assert r[..|r| - 1] == front;
      NatTextRoundTrip(n / 10);
    }
  }

  /** Reading back the text PHP makes of an integer gives the integer again. */
  lemma {:induction false} IntTextRoundTrip(i: int)
    ensures IsIntText(IntText(i)) && ParseInt(IntText(i)) == i
  {
    if i < 0 {
      var digits := NatText(-i);
      var s := "-" + digits;
      assert IntText(i) == s;
      assert s[0] == '-' && s[1..] == digits;
      NatTextRoundTrip(-i);
      assert ParseInt(s) == 0 - ParseNat(digits) as int;
    } else {
      var s := NatText(i);
      assert IntText(i) == s;
      assert IsDigit(s[0]);
      NatTextRoundTrip(i);
      assert ParseInt(s) == ParseNat(s);
    }
  }

  /** PHP's `(string)` cast of a scalar: strings unchanged, integers in decimal,
      `true` as "1", `false` and `null` as the empty string. */
  function Text(v: Scalar): (r: string)
    ensures v.Str? ==> r == v.s
    ensures v.Int? ==> IsIntText(r) && ParseInt(r) == v.i
    ensures v.Int? ==> |r| > 0 && (r[0] == '-' <==> v.i < 0) && (r[0] == '0' ==> r == "0") && (v.i < 0 ==> |r| > 1 && r[1] != '0')
    ensures v.Bool? ==> (r == "1" <==> v.b) && (r == "" <==> !v.b)
    ensures v.Null? ==> r == ""
  {
    match v
    case Str(s) => s
    case Int(i) => IntTextRoundTrip(i); IntText(i)
    case Bool(b) => if b then "1" else ""
    case Null => ""
  }
}
