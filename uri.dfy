/** encodeURIComponent and decodeURIComponent (ECMA-262 sections 19.2.6.2 and 19.2.6.5):
    percent-encoding of the UTF-8 bytes of every character outside the unreserved set, and
    its strict inverse, which fails (URIError in JavaScript, None here) on malformed input. */
module UriCodec {
  import opened Wrappers
  import opened Strings
  import opened Unicode
  import JsNumbers

  /** The characters encodeURIComponent leaves alone: letters, digits and -_.!~*'(). */
  predicate Unreserved(c: char) {
    || ('A' <= c <= 'Z') || ('a' <= c <= 'z') || ('0' <= c <= '9')
    || c == '-' || c == '_' || c == '.' || c == '!' || c == '~' || c == '*'
    || c == '\'' || c == '(' || c == ')'
  }

  predicate IsUpperHex(c: char) { ('0' <= c <= '9') || ('A' <= c <= 'F') }

  /** A hexadecimal digit of either case, as the decoder accepts. */
  predicate IsHex(c: char) { JsNumbers.DigitValue(c) < 16 }

  function HexUpper(v: nat): (c: char)
    requires v < 16
    ensures IsUpperHex(c) && JsNumbers.DigitValue(c) == v
  {
    if v < 10 then ('0' as int + v) as char else ('A' as int + v - 10) as char
  }

  /** `%HH` with upper-case hexadecimal digits. */
  function PercentByte(b: Byte): (t: string)
    ensures |t| == 3 && t[0] == '%' && IsUpperHex(t[1]) && IsUpperHex(t[2])
  {
    ['%', HexUpper(b / 16), HexUpper(b % 16)]
  }

  function PercentBytes(bs: seq<Byte>): (t: string)
    ensures |t| == 3 * |bs|
  {
    if bs == [] then [] else PercentByte(bs[0]) + PercentBytes(bs[1..])
  }

  function EncodeChar(c: char): string {
    if Unreserved(c) then [c] else PercentBytes(Utf8Char(c))
  }

  function EncodeURIComponent(s: string): string {
    FlatMap(s, EncodeChar)
  }

  /** `t` is a run of characters satisfying `literal` (never `%`) and upper-case `%HH`
      triples. */
  predicate WellEncoded(t: string, literal: char -> bool)
    decreases |t|
  {
    || t == []
    || (t[0] != '%' && literal(t[0]) && WellEncoded(t[1..], literal))
    || (|t| >= 3 && t[0] == '%' && IsUpperHex(t[1]) && IsUpperHex(t[2]) && WellEncoded(t[3..], literal))
  }

  lemma {:induction false} WellEncodedAppend(a: string, b: string, literal: char -> bool)
    requires WellEncoded(a, literal) && WellEncoded(b, literal)
    ensures WellEncoded(a + b, literal)
    decreases |a|
  {
    var ab := a + b;
    if a == [] {
      assert ab == b;
    } else if a[0] != '%' && literal(a[0]) && WellEncoded(a[1..], literal) {
      WellEncodedAppend(a[1..], b, literal);
      assert ab[0] == a[0] && ab[1..] == a[1..] + b;
    } else {
      assert |a| >= 3 && a[0] == '%' && IsUpperHex(a[1]) && IsUpperHex(a[2]) && WellEncoded(a[3..], literal);
      WellEncodedAppend(a[3..], b, literal);
      assert ab[..3] == a[..3] && ab[3..] == a[3..] + b;
    }
  }

  lemma {:induction false} PercentBytesWellEncoded(bs: seq<Byte>, literal: char -> bool)
    ensures WellEncoded(PercentBytes(bs), literal)
  {
    if bs != [] {
      var t := PercentBytes(bs);
      PercentBytesWellEncoded(bs[1..], literal);
      assert t[3..] == PercentBytes(bs[1..]);
    }
  }

  /** encodeURIComponent produces only unreserved characters and upper-case `%HH` triples. */
  lemma {:induction false} EncodeWellEncoded(s: string)
    ensures WellEncoded(EncodeURIComponent(s), Unreserved)
  {
    if s != [] {
      EncodeWellEncoded(s[1..]);
      var c := s[0];
      if Unreserved(c) {
        assert WellEncoded([c], Unreserved) by { assert [c][1..] == []; }
      } else {
        PercentBytesWellEncoded(Utf8Char(c), Unreserved);
      }
      WellEncodedAppend(EncodeChar(c), EncodeURIComponent(s[1..]), Unreserved);
    }
  }

  /** A well-encoded string holds no character that is neither literal, `%`, nor a
      hexadecimal digit. */
  lemma {:induction false} WellEncodedExcludes(t: string, literal: char -> bool, c: char)
    requires WellEncoded(t, literal)
    requires !literal(c) && c != '%' && !IsUpperHex(c)
    ensures c !in t
    decreases |t|
  {
    if t != [] {
      if t[0] != '%' && literal(t[0]) && WellEncoded(t[1..], literal) {
        WellEncodedExcludes(t[1..], literal, c);
        assert t == [t[0]] + t[1..];
      } else {
        WellEncodedExcludes(t[3..], literal, c);
        assert t == t[..3] + t[3..];
      }
    }
  }

  /** encodeURIComponent never leaves a `/` in its output. */
  lemma EncodeNoSlash(s: string)
    ensures '/' !in EncodeURIComponent(s)
  {
    EncodeWellEncoded(s);
    WellEncodedExcludes(EncodeURIComponent(s), Unreserved, '/');
  }

  /** The byte written as `%HH` (either case) at position `i`, if there is one. */
  function PercentByteAt(s: string, i: nat): Option<Byte>
  {
    if i + 3 <= |s| && s[i] == '%' && IsHex(s[i + 1]) && IsHex(s[i + 2])
    then Some(16 * JsNumbers.DigitValue(s[i + 1]) + JsNumbers.DigitValue(s[i + 2]))
    else None
  }

  /** The low six bits of a continuation byte written as `%HH` at position `i`. */
  function ContinuationAt(s: string, i: nat): (r: Option<int>)
    ensures r.Some? ==> 0 <= r.value < 64
  {
    match PercentByteAt(s, i)
    case Some(b) => if IsContinuation(b) then Some(b - 0x80) else None
    case None => None
  }

  /** Length of the UTF-8 sequence a lead byte announces; 0 when the byte cannot lead one
      (a continuation byte, or five or more leading one bits). */
  function SequenceLength(b: Byte): nat
  {
    if b < 0x80 then 1 else if b < 0xC0 then 0 else if b < 0xE0 then 2
    else if b < 0xF0 then 3 else if b < 0xF8 then 4 else 0
  }

  /** Decodes the first unit of `s`: a literal character, or one percent-encoded UTF-8
      sequence; None for a malformed escape, a bad lead or continuation byte, an overlong
      form, a surrogate or a value above U+10FFFF. Gives the character and the length read. */
  function DecodeStep(s: string): (r: Option<(char, nat)>)
    requires |s| > 0
    ensures r.Some? ==> 1 <= r.value.1 <= |s|
  {
    if s[0] != '%' then Some((s[0], 1))
    else match PercentByteAt(s, 0)
      case None => None
      case Some(b0) =>
        var n := SequenceLength(b0);
        if n == 1 then Some((b0 as char, 3))
        else if n == 2 then
          match ContinuationAt(s, 3)
          case None => None
          case Some(c1) =>
            var cp := (b0 - 0xC0) * 64 + c1;
            if 0x80 <= cp then Some((cp as char, 6)) else None
        else if n == 3 then
          match ContinuationAt(s, 3)
          case None => None
          case Some(c1) =>
            match ContinuationAt(s, 6)
            case None => None
            case Some(c2) =>
              var cp := ((b0 - 0xE0) * 64 + c1) * 64 + c2;
              if 0x800 <= cp && !(0xD800 <= cp < 0xE000) then Some((cp as char, 9)) else None
        else if n == 4 then
          match ContinuationAt(s, 3)
          case None => None
          case Some(c1) =>
            match ContinuationAt(s, 6)
            case None => None
            case Some(c2) =>
              match ContinuationAt(s, 9)
              case None => None
              case Some(c3) =>
                var cp := (((b0 - 0xF0) * 64 + c1) * 64 + c2) * 64 + c3;
                if 0x10000 <= cp < 0x110000 then Some((cp as char, 12)) else None
        else None
  }

  function DecodeURIComponent(s: string): (r: Option<string>)
    ensures r.Some? ==> |r.value| <= |s|
    decreases |s|
  {
    if s == [] then Some([])
    else match DecodeStep(s)
      case None => None
      case Some(step) =>
        match DecodeURIComponent(s[step.1..])
        case None => None
        case Some(tail) => Some([step.0] + tail)
  }

  /** Text without `%` decodes to itself. */
  lemma {:induction false} DecodeWithoutPercent(s: string)
    requires '%' !in s
    ensures DecodeURIComponent(s) == Some(s)
  {
    if s != [] {
      DecodeWithoutPercent(s[1..]);
      assert s == [s[0]] + s[1..];
    }
  }

  lemma PercentByteAtShift(p: string, y: string, i: nat)
    ensures PercentByteAt(p + y, |p| + i) == PercentByteAt(y, i)
  {
    var s := p + y;
    if i + 3 <= |y| {
      assert s[|p| + i] == y[i] && s[|p| + i + 1] == y[i + 1] && s[|p| + i + 2] == y[i + 2];
    }
  }

  /** Position `3k` of a percent-encoded byte string holds its byte `k`. */
  lemma {:induction false} PercentByteAtEncoded(bs: seq<Byte>, rest: string, k: nat)
    requires k < |bs|
    ensures PercentByteAt(PercentBytes(bs) + rest, 3 * k) == Some(bs[k])
  {
    var head := PercentByte(bs[0]);
    var tail := PercentBytes(bs[1..]) + rest;
    assert PercentBytes(bs) + rest == head + tail;
    if k == 0 {
      var b := bs[0];
      assert 16 * (b / 16) + b % 16 == b;
    } else {
      PercentByteAtEncoded(bs[1..], rest, k - 1);
      PercentByteAtShift(head, tail, 3 * (k - 1));
    }
  }

  lemma DivMod64(x: nat)
    ensures x == x / 64 * 64 + x % 64
  {
  }

  /** Decoding the percent-encoded UTF-8 bytes of a character reads back that character. */
  lemma DecodeStepPercent(c: char, rest: string)
    ensures |PercentBytes(Utf8Char(c)) + rest| > 0
    ensures DecodeStep(PercentBytes(Utf8Char(c)) + rest) == Some((c, 3 * |Utf8Char(c)|))
  {
    var bs := Utf8Char(c);
    PercentByteAtEncoded(bs, rest, 0);
    var cp := c as int;
    if cp < 0x80 {
    } else if cp < 0x800 {
      PercentByteAtEncoded(bs, rest, 1);
      DecodeStepTwo(c, PercentBytes(bs) + rest);
    } else if cp < 0x10000 {
      PercentByteAtEncoded(bs, rest, 1);
      PercentByteAtEncoded(bs, rest, 2);
      DecodeStepThree(c, PercentBytes(bs) + rest);
    } else {
      PercentByteAtEncoded(bs, rest, 1);
      PercentByteAtEncoded(bs, rest, 2);
      PercentByteAtEncoded(bs, rest, 3);
      DecodeStepFour(c, PercentBytes(bs) + rest);
    }
  }

  lemma DecodeStepTwo(c: char, s: string)
    requires 0x80 <= c as int < 0x800 && |s| > 0 && s[0] == '%'
    requires PercentByteAt(s, 0) == Some(0xC0 + c as int / 64)
    requires PercentByteAt(s, 3) == Some(0x80 + c as int % 64)
    ensures DecodeStep(s) == Some((c, 6))
  {
    DivMod64(c as int);
  }

  lemma DecodeStepThree(c: char, s: string)
    requires 0x800 <= c as int < 0x10000 && |s| > 0 && s[0] == '%'
    requires PercentByteAt(s, 0) == Some(0xE0 + c as int / 64 / 64)
    requires PercentByteAt(s, 3) == Some(0x80 + c as int / 64 % 64)
    requires PercentByteAt(s, 6) == Some(0x80 + c as int % 64)
    ensures DecodeStep(s) == Some((c, 9))
  {
    var cp := c as int;
    DivMod64(cp);
    DivMod64(cp / 64);
    assert ((cp / 64 / 64) * 64 + cp / 64 % 64) * 64 + cp % 64 == cp;
  }

  lemma DecodeStepFour(c: char, s: string)
    requires 0x10000 <= c as int && |s| > 0 && s[0] == '%'
    requires PercentByteAt(s, 0) == Some(0xF0 + c as int / 64 / 64 / 64)
    requires PercentByteAt(s, 3) == Some(0x80 + c as int / 64 / 64 % 64)
    requires PercentByteAt(s, 6) == Some(0x80 + c as int / 64 % 64)
    requires PercentByteAt(s, 9) == Some(0x80 + c as int % 64)
    ensures DecodeStep(s) == Some((c, 12))
  {
    var cp := c as int;
    DivMod64(cp);
    DivMod64(cp / 64);
    DivMod64(cp / 64 / 64);
    assert (((cp / 64 / 64 / 64) * 64 + cp / 64 / 64 % 64) * 64 + cp / 64 % 64) * 64 + cp % 64 == cp;
  }

  lemma DecodeStepLiteral(c: char, rest: string)
    requires c != '%'
    ensures DecodeStep([c] + rest) == Some((c, 1))
  {
  }

  /** decodeURIComponent undoes encodeURIComponent. */
  lemma {:induction false} DecodeEncode(s: string)
    ensures DecodeURIComponent(EncodeURIComponent(s)) == Some(s)
  {
    if s == [] {
    } else {
      var c := s[0];
      var rest := EncodeURIComponent(s[1..]);
      var t := EncodeChar(c) + rest;
      assert EncodeURIComponent(s) == t;
      if Unreserved(c) {
        DecodeStepLiteral(c, rest);
      } else {
        DecodeStepPercent(c, rest);
      }
      assert t[|EncodeChar(c)|..] == rest;
      DecodeEncode(s[1..]);
      assert s == [c] + s[1..];
    }
  }
}
