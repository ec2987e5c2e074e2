/** numbers.ts: reading a positive integer out of a form field. */
module Numbers {
  import opened Wrappers
  import opened JsNumbers
  import opened Forms

  /** parsePositiveInteger: a text field read with parseInt(_, 10), kept only when the
      result is a finite number above zero. A missing field or a File gives nothing. */
  function ParsePositiveInteger(value: Option<FormValue>): (r: Option<nat>)
    ensures r.Some? ==> r.value >= 1
    ensures r.Some? <==> value.Some? && value.value.Text? && ParseInt(value.value.text, 10).Int?
                         && ParseInt(value.value.text, 10).value > 0
    ensures r.Some? ==> r.value == ParseInt(value.value.text, 10).value
  {
    match value
    case Some(Text(s)) =>
      var parsed := ParseInt(s, 10);
      if parsed.Int? && parsed.value > 0 then Some(parsed.value) else None
    case _ => None
  }

  /** A field that starts with a run of decimal digits gives the value of that run, whatever
      follows it ("12abc" reads as 12); a run of zeros gives nothing. */
  lemma ParsePositiveIntegerDigits(d: string, tail: string)
    requires d != [] && AllDigits(d, 10)
    requires tail == [] || !IsDigit(tail[0], 10)
    ensures ParsePositiveInteger(Some(Text(d + tail)))
            == if DigitsValue(d, 10) > 0 then Some(DigitsValue(d, 10)) else None
  {
    ParseIntDecimal(d, tail);
  }

  /** A field with no decimal digit in it gives nothing. */
  lemma ParsePositiveIntegerNoDigits(s: string)
    requires forall i :: 0 <= i < |s| ==> !('0' <= s[i] <= '9')
    ensures ParsePositiveInteger(Some(Text(s))) == None
  {
    ParseIntNoDigits(s);
  }

  /** The decimal text of a positive integer reads back as that integer. */
  lemma ParsePositiveIntegerFormatted(n: nat)
    requires n >= 1
    ensures ParsePositiveInteger(Some(Text(NatToString(n, 10)))) == Some(n)
  {
    var d := NatToString(n, 10);
    assert d + [] == d;
    ParseIntDecimal(d, []);
    NatToStringValue(n, 10);
  }
}
