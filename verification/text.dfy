/** Python's `str()` as applied to the values written into an INI source.
    Text is kept verbatim, integers become decimal numerals, booleans
    become `True`/`False`; any other object (a date, a list) is carried
    with the rendering `str()` gives it, which lies outside this model. */
module Text {
  import opened Wrappers

  datatype Value =
    | Str(s: string)
    | Int(n: int)
    | Bool(b: bool)
    | Other(rendering: string)

  predicate IsDigit(c: char) {
    '0' <= c <= '9'
  }

  function DigitChar(d: nat): (c: char)
    requires d < 10
    ensures IsDigit(c)
  {
    "0123456789"[d]
  }

  function DigitValue(c: char): (d: nat)
    requires IsDigit(c)
    ensures d < 10
  {
    (c as int - '0' as int) as nat
  }

  /** The decimal numeral of `n`, most significant digit first. */
  function NatText(n: nat): (s: string)
    ensures |s| > 0
    ensures forall i :: 0 <= i < |s| ==> IsDigit(s[i])
    ensures s[0] == '0' <==> n == 0
    ensures n == 0 ==> s == "0"
  {
    if n < 10 then [DigitChar(n)]
    else NatText(n / 10) + [DigitChar(n % 10)]
  }

  /** The value of a nonempty all-digit string; None for anything else. */
  function ParseDigits(s: string): Option<nat> {
    if s == [] || !IsDigit(s[|s| - 1]) then None
    else if |s| == 1 then Some(DigitValue(s[0]))
    else match ParseDigits(s[..|s| - 1])
      case None => None
      case Some(p) => Some(p * 10 + DigitValue(s[|s| - 1]))
  }

  /** The value of an optionally minus-signed decimal numeral; None for
      anything else. */
  function ParseInt(s: string): Option<int> {
    if |s| > 0 && s[0] == '-' then
      match ParseDigits(s[1..])
      case None => None
      case Some(p) => Some(0 - (p as int))
    else
      match ParseDigits(s)
      case None => None
      case Some(p) => Some(p)
  }

  /** A numeral as Python's `str()` writes an integer: an optional minus
      sign, then digits with no leading zero, and no `-0`. */
  predicate CanonicalNumeral(s: string) {
    if |s| > 0 && s[0] == '-' then
      |s| > 1 && s[1] != '0' && forall i :: 1 <= i < |s| ==> IsDigit(s[i])
    else
      |s| > 0 && (s[0] == '0' ==> |s| == 1) && forall i :: 0 <= i < |s| ==> IsDigit(s[i])
  }

  /** `str()` of an integer: a minus sign for negatives, then the numeral. */
  function IntText(n: int): string {
    if n < 0 then "-" + NatText(-n) else NatText(n)
  }

  lemma {:induction false} NatTextRoundTrip(n: nat)
    ensures ParseDigits(NatText(n)) == Some(n)
  {
    if n >= 10 {
      var s := NatText(n);
      var last := DigitChar(n % 10);
      assert s[..|s| - 1] == NatText(n / 10);
      assert s[|s| - 1] == last;
      NatTextRoundTrip(n / 10);
      assert DigitValue(last) == n % 10;
    } else {
      assert DigitValue(DigitChar(n)) == n;
    }
  }

  lemma IntTextRoundTrip(n: int)
    ensures ParseInt(IntText(n)) == Some(n)
  {
    var s := IntText(n);
    if n < 0 {
      var m: nat := -n;
      assert s == "-" + NatText(m);
      assert s[1..] == NatText(m);
      NatTextRoundTrip(m);
      assert ParseDigits(s[1..]) == Some(m);
    } else {
      assert s == NatText(n);
      assert IsDigit(s[0]);
      NatTextRoundTrip(n);
    }
  }

  /** `str(value)`: what an INI source stores when a value is written. */
  function ToText(v: Value): (r: string)
    ensures v.Str? ==> r == v.s
    ensures v.Int? ==> ParseInt(r) == Some(v.n) && CanonicalNumeral(r)
    ensures v.Bool? ==> (r == "True" <==> v.b) && (r == "False" <==> !v.b)
  {
    match v
    case Str(s) => s
    case Int(n) => IntTextRoundTrip(n); IntText(n)
    case Bool(b) => if b then "True" else "False"
    case Other(rendering) => rendering
  }

  /** Distinct integers are stored as distinct text. */
  lemma IntTextInjective(m: int, n: int)
    requires ToText(Int(m)) == ToText(Int(n))
    ensures m == n
  {
  }
}
