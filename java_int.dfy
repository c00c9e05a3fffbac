/** Java's `new Integer(String)`, which is `Integer.parseInt(s, 10)`: an
    optional `+` or `-`, then one or more decimal digits, with a value that
    fits a 32-bit signed `int`; `null`, the empty string and anything else
    raise NumberFormatException. Only the ASCII digits are modelled. */
module JavaInt {
  import opened Wrappers

  const MIN_VALUE: int := -0x8000_0000
  const MAX_VALUE: int := 0x7fff_ffff

  predicate InRange(v: int) { MIN_VALUE <= v <= MAX_VALUE }

  predicate IsDigit(c: char) { '0' <= c <= '9' }

  predicate AllDigits(s: string) { forall i :: 0 <= i < |s| ==> IsDigit(s[i]) }

  /** The value of a non-empty run of decimal digits, most significant first. */
  function DigitsValue(s: string): nat
    requires AllDigits(s)
  {
    if s == [] then 0
    else DigitsValue(s[..|s| - 1]) * 10 + (s[|s| - 1] as int - '0' as int)
  }

  /** The digits after an optional leading sign. */
  function Unsigned(t: string): string
  {
    if |t| > 0 && (t[0] == '-' || t[0] == '+') then t[1..] else t
  }

  /** `Integer.parseInt(s, 10)`: Some(value) when it returns, None when it
      throws NumberFormatException. */
  function ParseInt(s: Option<string>): (r: Option<int>)
    ensures r.Some? ==> InRange(r.value)
    ensures r.Some? ==> s.Some? && |Unsigned(s.value)| > 0 && AllDigits(Unsigned(s.value))
    ensures s.None? || s == Some("") || s == Some("+") || s == Some("-") ==> r.None?
  {
    match s
    case None => None
    case Some(t) =>
      var digits := Unsigned(t);
      if |digits| == 0 || !AllDigits(digits) then None
      else
        var v: int := if t[0] == '-' then -(DigitsValue(digits) as int) else DigitsValue(digits);
        if InRange(v) then Some(v) else None
  }

  /** Decimal digits of a natural number, without leading zeros. */
  function NatToString(n: nat): (s: string)
    ensures |s| > 0 && AllDigits(s)
  {
    var d := [(('0' as int) + n % 10) as char];
    if n < 10 then d else NatToString(n / 10) + d
  }

  /** `Integer.toString(v)`: the reference rendering of an int. */
  function ToString(v: int): (s: string)
    ensures |s| > 0
  {
    if v < 0 then "-" + NatToString(-v) else NatToString(v)
  }

  lemma {:induction false} NatToStringValue(n: nat)
    ensures DigitsValue(NatToString(n)) == n
  {
    var d := [(('0' as int) + n % 10) as char];
    if n >= 10 {
      NatToStringValue(n / 10);
      var s := NatToString(n / 10) + d;
      assert s[..|s| - 1] == NatToString(n / 10);
    }
  }

  /** Every int, as Java prints it, parses back to itself. */
  lemma ParseToString(v: int)
    requires InRange(v)
    ensures ParseInt(Some(ToString(v))) == Some(v)
  {
    if v < 0 {
      NatToStringValue(-v);
      assert Unsigned(ToString(v)) == NatToString(-v);
    } else {
      NatToStringValue(v);
      assert Unsigned(ToString(v)) == NatToString(v);
    }
  }

  /** A value with a non-digit after the optional sign is rejected. */
  lemma ParseRejectsNonDigits(t: string, i: nat)
    requires i < |Unsigned(t)| && !IsDigit(Unsigned(t)[i])
    ensures ParseInt(Some(t)) == None
  {
  }

  /** Leading zeros do not change the value of a run of digits. */
  lemma {:induction false} LeadingZero(t: string)
    requires AllDigits(t)
    ensures AllDigits("0" + t) && DigitsValue("0" + t) == DigitsValue(t)
    decreases |t|
  {
    if t != [] {
      var t' := t[..|t| - 1];
      LeadingZero(t');
      assert ("0" + t)[..|"0" + t| - 1] == "0" + t';
    }
  }

  /** Unsigned digits parse to their value exactly when it fits an int. */
  lemma ParseDigits(t: string)
    requires t != [] && AllDigits(t)
    ensures ParseInt(Some(t)) == if DigitsValue(t) <= MAX_VALUE then Some(DigitsValue(t)) else None
  {
    assert Unsigned(t) == t;
  }

  /** A `+` sign is accepted and changes nothing. */
  lemma ParsePlus(t: string)
    requires t != [] && AllDigits(t)
    ensures ParseInt(Some("+" + t)) == ParseInt(Some(t))
  {
    assert Unsigned("+" + t) == t;
    assert Unsigned(t) == t;
  }

  /** A `-` sign negates, down to MIN_VALUE, which has no positive twin. */
  lemma ParseMinus(t: string)
    requires t != [] && AllDigits(t)
    ensures ParseInt(Some("-" + t)) == if DigitsValue(t) <= -MIN_VALUE then Some(-(DigitsValue(t) as int)) else None
  {
    assert Unsigned("-" + t) == t;
  }
}
