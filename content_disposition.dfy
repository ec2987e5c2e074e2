/** The Content-Disposition value for a download (RFC 6266 section 4.3): a plain quoted
    `filename` fallback and an RFC 5987 `filename*` carrying the full name as UTF-8. */
module ContentDisposition {
  import opened Wrappers
  import opened Strings
  import opened Unicode
  import opened UriCodec

  /** `.replace(/['()]/g, escape)`: `escape` turns these three into `%27`, `%28`, `%29`. */
  function EscapeQuoteParen(c: char): string {
    if c == '\'' then "%27" else if c == '(' then "%28" else if c == ')' then "%29" else [c]
  }

  /** `.replace(/\*\/g, '%2A')` */
  function EscapeStar(c: char): string {
    if c == '*' then "%2A" else [c]
  }

  /** `.replace(/%(?:7C|60|5E)/g, unescape)`: a left-to-right scan turning those three
      escapes back into `|`, `` ` `` and `^`. */
  function UnescapeSelected(s: string): string
    decreases |s|
  {
    if |s| >= 3 && s[..3] == "%7C" then "|" + UnescapeSelected(s[3..])
    else if |s| >= 3 && s[..3] == "%60" then "`" + UnescapeSelected(s[3..])
    else if |s| >= 3 && s[..3] == "%5E" then "^" + UnescapeSelected(s[3..])
    else if s == [] then []
    else [s[0]] + UnescapeSelected(s[1..])
  }

  /** encodeRFC5987ValueChars: the chain of rewrites as the source writes it. */
  function Encode5987(s: string): string {
    UnescapeSelected(FlatMap(FlatMap(EncodeURIComponent(s), EscapeQuoteParen), EscapeStar))
  }

  /** The attr-char set of RFC 5987 section 3.2.1. */
  predicate AttrChar(c: char) {
    || ('A' <= c <= 'Z') || ('a' <= c <= 'z') || ('0' <= c <= '9')
    || c == '!' || c == '#' || c == '$' || c == '&' || c == '+' || c == '-' || c == '.'
    || c == '^' || c == '_' || c == '`' || c == '|' || c == '~'
  }

  /** Reference definition, one character at a time: `'()*` become `%27 %28 %29 %2A`,
      `` |`^ `` stay literal, everything else is as encodeURIComponent writes it. */
  function ExtChar(c: char): string {
    if c == '\'' || c == '(' || c == ')' || c == '*' then PercentByte(c as int)
    else if c == '|' || c == '`' || c == '^' then [c]
    else EncodeChar(c)
  }

  /** attachmentDisposition */
  function AttachmentDisposition(filename: string): string {
    DispositionLead + RemoveChar(filename, '"') + ['"'] + ExtParameter + Encode5987(filename)
  }

  // ---- The rewrite chain equals the per-character definition ----

  lemma UnescapeLiteral(c: char, rest: string)
    requires c != '%'
    ensures UnescapeSelected([c] + rest) == [c] + UnescapeSelected(rest)
  {
    var s := [c] + rest;
    assert s[1..] == rest;
    assert |s| >= 3 ==> s[..3][0] == c && "%7C"[0] == '%';
  }

  lemma UnescapePercentByte(b: Byte, rest: string)
    requires b != 0x7C && b != 0x60 && b != 0x5E
    ensures UnescapeSelected(PercentByte(b) + rest) == PercentByte(b) + UnescapeSelected(rest)
  {
    var t := PercentByte(b);
    NotSelectedEscape(b);
    var s := t + rest;
    var tail := [t[1]] + ([t[2]] + rest);
    assert s[..3] == t && s[0] == t[0] && s[1..] == tail;
    UnescapeOrdinary(s);
    UnescapeLiteral(t[1], [t[2]] + rest);
    UnescapeLiteral(t[2], rest);
    assert t == [t[0]] + ([t[1]] + [t[2]]);
  }

  /** A text that does not start with a selected escape keeps its first character. */
  lemma UnescapeOrdinary(s: string)
    requires s != [] && (|s| >= 3 ==> s[..3] != "%7C" && s[..3] != "%60" && s[..3] != "%5E")
    ensures UnescapeSelected(s) == [s[0]] + UnescapeSelected(s[1..])
  {
  }

  /** `%HH` names its byte, so no other byte is written as one of the three selected escapes. */
  lemma NotSelectedEscape(b: Byte)
    requires b != 0x7C && b != 0x60 && b != 0x5E
    ensures PercentByte(b) != "%7C" && PercentByte(b) != "%60" && PercentByte(b) != "%5E"
  {
    var t := PercentByte(b);
    var hi, lo := JsNumbers.DigitValue(t[1]), JsNumbers.DigitValue(t[2]);
    assert hi == b / 16 && lo == b % 16;
    assert b == 16 * hi + lo;
    assert JsNumbers.DigitValue('7') == 7 && JsNumbers.DigitValue('C') == 12;
    assert JsNumbers.DigitValue('6') == 6 && JsNumbers.DigitValue('0') == 0;
    assert JsNumbers.DigitValue('5') == 5 && JsNumbers.DigitValue('E') == 14;
  }

  predicate KeptEscape(b: Byte) { b != 0x7C && b != 0x60 && b != 0x5E }

  /** A rewrite that passes each kept escape through passes a run of them through. */
  lemma {:induction false} EscapesPassThrough(bs: seq<Byte>, rest: string, g: string -> string)
    requires forall i :: 0 <= i < |bs| ==> KeptEscape(bs[i])
    requires forall b: Byte, r: string :: KeptEscape(b) ==> g(PercentByte(b) + r) == PercentByte(b) + g(r)
    ensures g(PercentBytes(bs) + rest) == PercentBytes(bs) + g(rest)
  {
    if bs == [] {
      assert PercentBytes(bs) + rest == rest;
    } else {
      var head, tail := PercentByte(bs[0]), PercentBytes(bs[1..]);
      assert PercentBytes(bs) == head + tail;
      EscapesPassThrough(bs[1..], rest, g);
      assert g(head + (tail + rest)) == head + g(tail + rest);
      assert PercentBytes(bs) + rest == head + (tail + rest);
      assert head + (tail + g(rest)) == (head + tail) + g(rest);
    }
  }

  lemma UnescapePercentBytes(bs: seq<Byte>, rest: string)
    requires forall i :: 0 <= i < |bs| ==> bs[i] != 0x7C && bs[i] != 0x60 && bs[i] != 0x5E
    ensures UnescapeSelected(PercentBytes(bs) + rest) == PercentBytes(bs) + UnescapeSelected(rest)
  {
    forall b: Byte, r: string | KeptEscape(b)
      ensures UnescapeSelected(PercentByte(b) + r) == PercentByte(b) + UnescapeSelected(r)
    {
      UnescapePercentByte(b, r);
    }
    EscapesPassThrough(bs, rest, UnescapeSelected);
  }

  lemma {:induction false} PercentBytesUntouched(bs: seq<Byte>)
    ensures FlatMap(FlatMap(PercentBytes(bs), EscapeQuoteParen), EscapeStar) == PercentBytes(bs)
  {
    var t := PercentBytes(bs);
    PercentBytesWellEncoded(bs, Unreserved);
    PercentBytesChars(bs);
    FlatMapIdentity(t, EscapeQuoteParen);
    FlatMapIdentity(t, EscapeStar);
  }

  lemma {:induction false} PercentBytesChars(bs: seq<Byte>)
    ensures forall i :: 0 <= i < |PercentBytes(bs)| ==>
      PercentBytes(bs)[i] == '%' || IsUpperHex(PercentBytes(bs)[i])
  {
    if bs != [] {
      PercentBytesChars(bs[1..]);
      var t := PercentBytes(bs);
      forall i | 0 <= i < |t| ensures t[i] == '%' || IsUpperHex(t[i]) {
        if i >= 3 {
          assert t[i] == PercentBytes(bs[1..])[i - 3];
        }
      }
    }
  }

  /** The first two rewrites applied to one character's encodeURIComponent output. */
  function Escaped(c: char): string {
    FlatMap(FlatMap(EncodeChar(c), EscapeQuoteParen), EscapeStar)
  }

  lemma EscapedUnreserved(c: char)
    requires Unreserved(c)
    ensures Escaped(c) == if c == '\'' || c == '(' || c == ')' || c == '*' then PercentByte(c as int) else [c]
  {
    assert FlatMap([c], EscapeQuoteParen) == EscapeQuoteParen(c) by { assert [c][1..] == []; }
    if c == '\'' || c == '(' || c == ')' {
      FlatMapIdentity(EscapeQuoteParen(c), EscapeStar);
    } else {
      assert FlatMap([c], EscapeStar) == EscapeStar(c) by { assert [c][1..] == []; }
    }
  }

  lemma EscapedReserved(c: char)
    requires !Unreserved(c)
    ensures Escaped(c) == PercentBytes(Utf8Char(c))
  {
    PercentBytesUntouched(Utf8Char(c));
  }

  lemma UnescapeSpecial(c: char, rest: string)
    requires c == '|' || c == '`' || c == '^'
    ensures UnescapeSelected(PercentBytes(Utf8Char(c)) + rest) == [c] + UnescapeSelected(rest)
  {
    var bs := Utf8Char(c);
    assert bs == [c as int];
    var p := PercentByte(c as int);
    assert PercentBytes(bs) == p + PercentBytes([]);
    if c == '|' {
      assert p == "%7C";
    } else if c == '`' {
      assert p == "%60";
    } else {
      assert p == "%5E";
    }
    UnescapeTriple(p, rest, c);
  }

  /** One of the three selected escapes at the front is decoded and the rest follows. */
  lemma UnescapeTriple(p: string, rest: string, c: char)
    requires (p == "%7C" && c == '|') || (p == "%60" && c == '`') || (p == "%5E" && c == '^')
    ensures UnescapeSelected(p + rest) == [c] + UnescapeSelected(rest)
  {
    var s := p + rest;
    assert s[..3] == p;
    assert s[3..] == rest;
  }

  lemma UnescapeOther(c: char, rest: string)
    requires !Unreserved(c) && c != '|' && c != '`' && c != '^'
    ensures UnescapeSelected(PercentBytes(Utf8Char(c)) + rest) == PercentBytes(Utf8Char(c)) + UnescapeSelected(rest)
  {
    UnescapePercentBytes(Utf8Char(c), rest);
  }

  /** The three rewrites applied to one character's encodeURIComponent output. */
  lemma ExtCharStages(c: char, rest: string)
    ensures UnescapeSelected(Escaped(c) + rest) == ExtChar(c) + UnescapeSelected(rest)
  {
    if Unreserved(c) {
      EscapedUnreserved(c);
      if c == '\'' || c == '(' || c == ')' || c == '*' {
        UnescapePercentByte(c as int, rest);
      } else {
        UnescapeLiteral(c, rest);
      }
    } else {
      EscapedReserved(c);
      if c == '|' || c == '`' || c == '^' {
        UnescapeSpecial(c, rest);
      } else {
        UnescapeOther(c, rest);
      }
    }
  }

  /** The source's rewrite chain is the per-character definition. */
  lemma {:induction false} Encode5987ByChar(s: string)
    ensures Encode5987(s) == FlatMap(s, ExtChar)
  {
    if s != [] {
      var c := s[0];
      var tail := EncodeURIComponent(s[1..]);
      assert EncodeURIComponent(s) == EncodeChar(c) + tail;
      FlatMapAppend(EncodeChar(c), tail, EscapeQuoteParen);
      var once := FlatMap(EncodeChar(c), EscapeQuoteParen);
      var onceTail := FlatMap(tail, EscapeQuoteParen);
      FlatMapAppend(once, onceTail, EscapeStar);
      assert FlatMap(once, EscapeStar) == Escaped(c);
      ExtCharStages(c, FlatMap(onceTail, EscapeStar));
      Encode5987ByChar(s[1..]);
    }
  }

  // ---- What the encoding guarantees ----

  /** `'`, `(`, `)` and `*` are percent-encoded; `|`, `` ` `` and `^` stay literal. */
  lemma ExtCharSpecials()
    ensures ExtChar('\'') == "%27" && ExtChar('(') == "%28" && ExtChar(')') == "%29"
    ensures ExtChar('*') == "%2A"
    ensures ExtChar('|') == "|" && ExtChar('`') == "`" && ExtChar('^') == "^"
  {
  }

  lemma ExtCharWellEncoded(c: char)
    ensures WellEncoded(ExtChar(c), AttrChar)
  {
    if c == '\'' || c == '(' || c == ')' || c == '*' {
      var t := PercentByte(c as int);
      assert t[3..] == [];
    } else if c == '|' || c == '`' || c == '^' || Unreserved(c) {
      assert [c][1..] == [];
    } else {
      PercentBytesWellEncoded(Utf8Char(c), AttrChar);
    }
  }

  /** The encoded value holds only attr-char characters and upper-case `%HH` triples. */
  lemma {:induction false} Encode5987WellEncoded(s: string)
    ensures WellEncoded(Encode5987(s), AttrChar)
  {
    Encode5987ByChar(s);
    ExtValueWellEncoded(s);
  }

  lemma {:induction false} ExtValueWellEncoded(s: string)
    ensures WellEncoded(FlatMap(s, ExtChar), AttrChar)
  {
    if s != [] {
      ExtValueWellEncoded(s[1..]);
      ExtCharWellEncoded(s[0]);
      WellEncodedAppend(ExtChar(s[0]), FlatMap(s[1..], ExtChar), AttrChar);
    }
  }

  lemma ExtCharDecodes(c: char, rest: string)
    ensures |ExtChar(c) + rest| > 0
    ensures DecodeStep(ExtChar(c) + rest) == Some((c, |ExtChar(c)|))
  {
    if c == '\'' || c == '(' || c == ')' || c == '*' {
      assert PercentBytes(Utf8Char(c)) == PercentByte(c as int);
      DecodeStepPercent(c, rest);
    } else if c == '|' || c == '`' || c == '^' || Unreserved(c) {
      DecodeStepLiteral(c, rest);
    } else {
      DecodeStepPercent(c, rest);
    }
  }

  lemma {:induction false} DecodeExtValue(s: string)
    ensures DecodeURIComponent(FlatMap(s, ExtChar)) == Some(s)
  {
    if s != [] {
      var c := s[0];
      var rest := FlatMap(s[1..], ExtChar);
      var t := ExtChar(c) + rest;
      ExtCharDecodes(c, rest);
      assert t[|ExtChar(c)|..] == rest;
      DecodeExtValue(s[1..]);
      assert s == [c] + s[1..];
    }
  }

  /** Percent-decoding the encoded value as UTF-8 gives back the file name. */
  lemma {:induction false} Decode5987(s: string)
    ensures DecodeURIComponent(Encode5987(s)) == Some(s)
  {
    Encode5987ByChar(s);
    DecodeExtValue(s);
  }

  // ---- Reading the header back ----

  /** The text before the first `c`, and what follows that `c`; None without a `c`. */
  function SplitAtFirst(s: string, c: char): (r: Option<(string, string)>)
    ensures r.Some? ==> c !in r.value.0 && s == r.value.0 + [c] + r.value.1
    ensures r.None? <==> c !in s
  {
    if s == [] then None
    else if s[0] == c then Some(([], s[1..]))
    else match SplitAtFirst(s[1..], c)
      case None => None
      case Some(p) => Some(([s[0]] + p.0, p.1))
  }

  lemma {:induction false} SplitAtFirstOf(a: string, c: char, b: string)
    requires c !in a
    ensures SplitAtFirst(a + [c] + b, c) == Some((a, b))
  {
    var s := a + [c] + b;
    if a == [] {
      assert s == [c] + b && s[0] == c && s[1..] == b;
    } else {
      assert s[0] == a[0] != c;
      assert s[1..] == a[1..] + [c] + b;
      SplitAtFirstOf(a[1..], c, b);
      assert [a[0]] + a[1..] == a;
    }
  }

  const DispositionLead := "attachment; filename=\""
  const ExtParameter := "; filename*=UTF-8''"

  /** A recipient's reading of the header: the quoted fallback name and the decoded
      `filename*` value. */
  function ParseAttachment(h: string): Option<(string, string)>
  {
    if !StartsWith(h, DispositionLead) then None
    else match SplitAtFirst(h[|DispositionLead|..], '"')
      case None => None
      case Some(p) =>
        if !StartsWith(p.1, ExtParameter) then None
        else match DecodeURIComponent(p.1[|ExtParameter|..])
          case None => None
          case Some(full) => Some((p.0, full))
  }

  /** The fallback name is the file name without its `"` characters (so the quoted string
      ends at the right place), and `filename*` carries the whole name. */
  lemma AttachmentDispositionReadsBack(filename: string)
    ensures ParseAttachment(AttachmentDisposition(filename)) == Some((RemoveChar(filename, '"'), filename))
  {
    var q := RemoveChar(filename, '"');
    var v := Encode5987(filename);
    var lead := DispositionLead;
    assert AttachmentDisposition(filename) == lead + (q + ['"'] + (ExtParameter + v));
    Decode5987(filename);
    ParseAttachmentOf(q, v, filename);
  }

  /** A header of the written shape reads back as its quoted name and decoded value. */
  lemma ParseAttachmentOf(q: string, v: string, full: string)
    requires '"' !in q && DecodeURIComponent(v) == Some(full)
    ensures ParseAttachment(DispositionLead + (q + ['"'] + (ExtParameter + v))) == Some((q, full))
  {
    var rest := ExtParameter + v;
    var tail := q + ['"'] + rest;
    var h := DispositionLead + tail;
    assert h[..|DispositionLead|] == DispositionLead;
    assert h[|DispositionLead|..] == tail;
    SplitAtFirstOf(q, '"', rest);
    assert rest[..|ExtParameter|] == ExtParameter;
    assert rest[|ExtParameter|..] == v;
  }
}
