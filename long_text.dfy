/** Decimal rendering of a participant id, as Kotlin's `Long.toString()` produces it
    (the services return `Member(member.id.toString(), ...)`), and the parse that
    `String.toLong()` performs on such text in the controllers. */
module LongText {
  import opened Wrappers

  predicate IsDigit(c: char) { '0' <= c <= '9' }

  function DigitChar(d: nat): (c: char)
    requires d < 10
    ensures IsDigit(c) && c as int - '0' as int == d
  {
    ['0', '1', '2', '3', '4', '5', '6', '7', '8', '9'][d]
  }

  /** Most significant digit first, no leading zeros. */
  function NatText(n: nat): (s: string)
    decreases n
  {
    if n < 10 then [DigitChar(n)] else NatText(n / 10) + [DigitChar(n % 10)]
  }

  /** `Long.toString()`: a minus sign for negative values, then the digits.
      Reading the text back with `toLong()` gives the id, negative ones included. */
  function ToText(n: int): (r: string)
    ensures Parse(r) == Some(n)
  {
    if n < 0 then
      ParseNegative(-n);
      ['-'] + NatText(-n)
    else
      ParseNonNegative(n);
      NatText(n)
  }

  /** Value of a string of decimal digits, most significant first. */
  function DigitsValue(s: string): (v: int)
    requires AllDigits(s)
    ensures v >= 0
    decreases |s|
  {
    if s == [] then 0
    else DigitsValue(s[..|s| - 1]) * 10 + (s[|s| - 1] as int - '0' as int)
  }

  /** `String.toLong()` on the text `ToText` produces: an optional minus sign and
      decimal digits. Other text `toLong` also reads (a leading `+`) is `None` here:
      `Parse` models `toLong` only on the ids the services hand out. */
  function Parse(s: string): (r: Option<int>)
    ensures r.Some? ==> |s| > 0 && forall i :: 0 <= i < |s| ==> IsDigit(s[i]) || (i == 0 && s[i] == '-')
    ensures r.Some? && r.value < 0 ==> s[0] == '-'
  {
    if |s| > 1 && s[0] == '-' && AllDigits(s[1..]) then Some(-DigitsValue(s[1..]))
    else if |s| > 0 && AllDigits(s) then Some(DigitsValue(s))
    else None
  }

  predicate AllDigits(s: string) { forall i :: 0 <= i < |s| ==> IsDigit(s[i]) }

  lemma {:induction false} NatTextDigits(n: nat)
    ensures |NatText(n)| > 0 && AllDigits(NatText(n)) && DigitsValue(NatText(n)) == n
    decreases n
  {
    if n >= 10 {
      NatTextDigits(n / 10);
      var s := NatText(n);
      assert s[..|s| - 1] == NatText(n / 10);
    }
  }

  lemma ParseNegative(n: nat)
    requires n > 0
    ensures Parse(['-'] + NatText(n)) == Some(-(n as int))
  {
    NatTextDigits(n);
    var s := ['-'] + NatText(n);
    assert s[1..] == NatText(n);
  }

  lemma ParseNonNegative(n: nat)
    ensures Parse(NatText(n)) == Some(n)
  {
    NatTextDigits(n);
    var s := NatText(n);
    assert IsDigit(s[0]) && s[0] != '-';
  }

  /** Distinct ids are rendered as distinct text. */
  lemma ToTextInjective(m: int, n: int)
    ensures ToText(m) == ToText(n) ==> m == n
  {
  }
}
