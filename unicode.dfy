/** UTF-8 and UTF-16 views of a string. Dafny characters are Unicode scalar values, so a
    string here is always well formed (JavaScript's lone surrogates are not modelled). */
module Unicode {
  import opened Strings

  type Byte = b: int | 0 <= b < 256

  /** A byte of the form 10xxxxxx. */
  predicate IsContinuation(b: int) { 0x80 <= b < 0xC0 }

  /** The UTF-8 encoding of one scalar value (RFC 3629 section 3), digits taken in
      base 64 from the least significant end. */
  function Utf8Char(c: char): (bs: seq<Byte>)
    ensures 1 <= |bs| <= 4
    ensures (c as int < 0x80) <==> |bs| == 1
    ensures |bs| == 1 ==> bs[0] == c as int
    ensures |bs| > 1 ==> bs[0] >= 0xC0
    ensures forall i :: 1 <= i < |bs| ==> IsContinuation(bs[i])
  {
    var cp := c as int;
    if cp < 0x80 then [cp]
    else if cp < 0x800 then [0xC0 + cp / 64, 0x80 + cp % 64]
    else if cp < 0x10000 then [0xE0 + cp / 64 / 64, 0x80 + cp / 64 % 64, 0x80 + cp % 64]
    else [0xF0 + cp / 64 / 64 / 64, 0x80 + cp / 64 / 64 % 64, 0x80 + cp / 64 % 64, 0x80 + cp % 64]
  }

  /** TextEncoder.encode / Buffer.byteLength: the UTF-8 bytes of a string. */
  function Utf8(s: string): (bs: seq<Byte>)
    ensures |bs| >= |s|
    ensures (forall i :: 0 <= i < |s| ==> s[i] as int < 0x80) ==> |bs| == |s|
  {
    if s == [] then [] else Utf8Char(s[0]) + Utf8(s[1..])
  }

  lemma {:induction false} Utf8IsFlatMap(s: string)
    ensures Utf8(s) == FlatMap(s, Utf8Char)
  {
    if s != [] {
      Utf8IsFlatMap(s[1..]);
    }
  }

  lemma Utf8Append(a: string, b: string)
    ensures Utf8(a + b) == Utf8(a) + Utf8(b)
  {
    Utf8IsFlatMap(a + b);
    Utf8IsFlatMap(a);
    Utf8IsFlatMap(b);
    FlatMapAppend(a, b, Utf8Char);
  }

  /** The UTF-16 code units of one scalar value, as String.prototype.charCodeAt sees them. */
  function Utf16Char(c: char): (us: seq<nat>)
    ensures 1 <= |us| <= 2
    ensures forall i :: 0 <= i < |us| ==> us[i] < 0x10000
    ensures |us| == 1 <==> c as int < 0x10000
  {
    var cp := c as int;
    if cp < 0x10000 then [cp]
    else [0xD800 + (cp - 0x10000) / 1024, 0xDC00 + (cp - 0x10000) % 1024]
  }

  /** The UTF-16 code units of a string: what `length` counts and `charCodeAt` indexes. */
  function Utf16(s: string): (us: seq<nat>)
    ensures |s| <= |us| <= 2 * |s|
    ensures forall i :: 0 <= i < |us| ==> us[i] < 0x10000
  {
    if s == [] then [] else Utf16Char(s[0]) + Utf16(s[1..])
  }
}
