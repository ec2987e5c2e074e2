/** The part of JavaScript's number handling the core relies on: Number.parseInt with radix
    10 or 16, Number.isFinite/isNaN, and integer-to-string conversion. A JS number is modelled
    as an unbounded integer or NaN; fractions and the infinities do not arise in the core
    except through precision loss on huge digit strings, which is not modelled. */
module JsNumbers {
  import opened Strings

  datatype Number = Int(value: int) | NaN

  predicate IsFinite(n: Number) { n.Int? }

  /** The value of `c` as a digit in bases up to 36, or 36 when `c` is not a digit. */
  function DigitValue(c: char): (v: nat)
    ensures v <= 36
    ensures v < 10 <==> '0' <= c <= '9'
  {
    if '0' <= c <= '9' then c as int - '0' as int
    else if 'a' <= c <= 'z' then c as int - 'a' as int + 10
    else if 'A' <= c <= 'Z' then c as int - 'A' as int + 10
    else 36
  }

  predicate IsDigit(c: char, radix: nat) { DigitValue(c) < radix }

  predicate AllDigits(s: string, radix: nat) {
    forall i :: 0 <= i < |s| ==> IsDigit(s[i], radix)
  }

  /** The longest prefix of `s` made of digits of `radix`. */
  function LeadingDigits(s: string, radix: nat): (d: string)
    ensures |d| <= |s| && d == s[..|d|]
    ensures AllDigits(d, radix)
    ensures |d| < |s| ==> !IsDigit(s[|d|], radix)
  {
    if |s| > 0 && IsDigit(s[0], radix) then [s[0]] + LeadingDigits(s[1..], radix) else []
  }

  /** The value of a digit string, most significant digit first. */
  function DigitsValue(d: string, radix: nat): nat
    requires AllDigits(d, radix)
  {
    if d == [] then 0 else DigitsValue(d[..|d| - 1], radix) * radix + DigitValue(d[|d| - 1])
  }

  /** Number.parseInt(s, radix) for radix 10 or 16 (ECMA-262 section 21.1.2.13): skip leading
      white space, read an optional sign, for radix 16 an optional "0x"/"0X", then the
      longest run of digits; NaN when that run is empty. Trailing text is ignored. */
  function ParseInt(s: string, radix: nat): (r: Number)
    requires radix == 10 || radix == 16
    ensures r.Int? && r.value < 0 ==> '-' in s
  {
    var t := TrimStart(s);
    assert |t| > 0 ==> t[0] == s[|s| - |t|];
    var negative := |t| > 0 && t[0] == '-';
    var u := if |t| > 0 && (t[0] == '-' || t[0] == '+') then t[1..] else t;
    var v := if radix == 16 && |u| >= 2 && u[0] == '0' && (u[1] == 'x' || u[1] == 'X') then u[2..] else u;
    var d := LeadingDigits(v, radix);
    if d == [] then NaN
    else Int(if negative then -(DigitsValue(d, radix) as int) else DigitsValue(d, radix))
  }

  /** The digit run of `d + tail` is `d` when `tail` does not go on with a digit. */
  lemma {:induction false} LeadingDigitsOf(d: string, tail: string, radix: nat)
    requires AllDigits(d, radix)
    requires tail == [] || !IsDigit(tail[0], radix)
    ensures LeadingDigits(d + tail, radix) == d
  {
    if d == [] {
      assert d + tail == tail;
    } else {
      LeadingDigitsOf(d[1..], tail, radix);
      assert (d + tail)[1..] == d[1..] + tail;
      assert [d[0]] + d[1..] == d;
    }
  }

  /** parseInt(d + tail, 10) reads the decimal digits `d` and ignores the rest. */
  lemma ParseIntDecimal(d: string, tail: string)
    requires d != [] && AllDigits(d, 10)
    requires tail == [] || !IsDigit(tail[0], 10)
    ensures ParseInt(d + tail, 10) == Int(DigitsValue(d, 10))
  {
    assert (d + tail)[0] == d[0];
    TrimStartNoSpace(d + tail);
    LeadingDigitsOf(d, tail, 10);
  }

  /** A string with no digit at all parses to NaN once white space and a sign are gone. */
  lemma ParseIntNoDigits(s: string)
    requires forall i :: 0 <= i < |s| ==> !(('0' <= s[i] <= '9'))
    ensures ParseInt(s, 10) == NaN
  {
    var t := TrimStart(s);
    var u := if |t| > 0 && (t[0] == '-' || t[0] == '+') then t[1..] else t;
    assert u == [] || u[0] == s[|s| - |u|];
  }

  /** Lower-case digit character for a value below 36. */
  function DigitChar(v: nat): (c: char)
    requires v < 36
    ensures DigitValue(c) == v
    ensures ('0' <= c <= '9') || ('a' <= c <= 'z')
  {
    if v < 10 then ('0' as int + v) as char else ('a' as int + v - 10) as char
  }

  /** Euclidean division facts for a positive base. */
  lemma DivModBase(n: nat, radix: nat)
    requires 2 <= radix <= n
    ensures 1 <= n / radix < n && n % radix < radix
    ensures n == (n / radix) * radix + n % radix
  {
  }

  /** Number.prototype.toString(radix) for a non-negative integer (no exponent form). */
  function NatToString(n: nat, radix: nat): (s: string)
    requires 2 <= radix <= 36
    ensures |s| >= 1 && AllDigits(s, radix)
    ensures forall i :: 0 <= i < |s| ==> ('0' <= s[i] <= '9') || ('a' <= s[i] <= 'z')
    ensures s[0] == '0' ==> n == 0
    decreases n
  {
    if n < radix then [DigitChar(n)]
    else
      DivModBase(n, radix);
      var p := NatToString(n / radix, radix);
      var s := p + [DigitChar(n % radix)];
      assert s[0] == p[0];
      s
  }

  /** Reading back a formatted integer gives the integer. */
  lemma {:induction false} NatToStringValue(n: nat, radix: nat)
    requires 2 <= radix <= 36
    ensures DigitsValue(NatToString(n, radix), radix) == n
    decreases n
  {
    var s := NatToString(n, radix);
    if n < radix {
      assert s[..0] == [];
    } else {
      DivModBase(n, radix);
      var p := NatToString(n / radix, radix);
      NatToStringValue(n / radix, radix);
      assert s == p + [DigitChar(n % radix)];
      assert s[..|s| - 1] == p;
      assert DigitsValue(s, radix) == DigitsValue(p, radix) * radix + n % radix;
    }
  }

  /** The decimal text of a natural number reads back as that number. */
  lemma ParseIntFormatted(n: nat)
    ensures ParseInt(NatToString(n, 10), 10) == Int(n)
  {
    var d := NatToString(n, 10);
    assert d + [] == d;
    ParseIntDecimal(d, []);
    NatToStringValue(n, 10);
  }

  function Pow(base: nat, k: nat): nat
  {
    if k == 0 then 1 else base * Pow(base, k - 1)
  }

  lemma MulMonotone(a: nat, b: nat, c: nat)
    requires a >= b
    ensures a * c >= b * c
  {
  }

  /** A number below radix^k needs at most k digits. */
  lemma {:induction false} NatToStringLength(n: nat, radix: nat, k: nat)
    requires 2 <= radix <= 36 && k >= 1
    requires n < Pow(radix, k)
    ensures |NatToString(n, radix)| <= k
    decreases n
  {
    if n >= radix && k > 1 {
      DivModBase(n, radix);
      var q := n / radix;
      var p := Pow(radix, k - 1);
      assert Pow(radix, k) == radix * p;
      if q >= p {
        MulMonotone(q, p, radix);
        assert false;
      }
      NatToStringLength(q, radix, k - 1);
      assert |NatToString(n, radix)| == |NatToString(q, radix)| + 1;
    }
  }

  /** Decimal text of an integer, as String(n) and template literals produce it. */
  function IntToDecimal(n: int): (s: string)
    ensures |s| >= 1
  {
    if n < 0 then "-" + NatToString(-n, 10) else NatToString(n, 10)
  }
}
