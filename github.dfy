/** github.ts: the GitHub push webhook. The signature header is `sha256=` followed by the
    hex HMAC-SHA256 of the body under the shared secret; the HMAC itself, the environment
    read of the secret, the text decoding and JSON parsing of the body, and the `git pull`
    the webhook starts are outside this model and enter as parameters. */
module GithubWebhook {
  import opened Wrappers
  import opened Strings
  import opened JsNumbers
  import opened Unicode

  // ---- hexToBytes, as written ----

  /** Storing a number into a Uint8Array keeps it modulo 256. */
  function ToUint8(n: int): Byte
  {
    n % 256
  }

  function HexPair(value: string, i: nat): string
    requires 2 * i + 2 <= |value|
  {
    value[2 * i..2 * i + 2]
  }

  /** `Number.parseInt(value.slice(2 * i, 2 * i + 2), 16)` */
  function PairNumber(value: string, i: nat): Number
    requires 2 * i + 2 <= |value|
  {
    ParseInt(HexPair(value, i), 16)
  }

  /** `Number.parseInt(pair, 16)` is a number for every pair. */
  predicate PairsParse(value: string)
    requires |value| % 2 == 0
  {
    forall i :: 0 <= i < |value| / 2 ==> PairNumber(value, i).Int?
  }

  /** The byte stored for a parsed pair; 0 stands in for a pair that is not a number. */
  function NumberByte(n: Number): Byte
  {
    if n.Int? then ToUint8(n.value) else 0
  }

  function PairByte(value: string, i: nat): Byte
    requires 2 * i + 2 <= |value|
  {
    NumberByte(PairNumber(value, i))
  }

  /** What hexToBytes computes: null for an odd length or a pair parseInt rejects, and
      otherwise byte i is parseInt of characters 2i and 2i+1, modulo 256. parseInt skips
      white space, takes a sign and ignores trailing non-digits, so pairs such as "-1",
      " f" or "fz" are accepted. */
  function LenientHexDecode(value: string): (r: Option<seq<Byte>>)
    ensures |value| % 2 != 0 ==> r.None?
    ensures r.Some? ==> |r.value| * 2 == |value|
  {
    if |value| % 2 != 0 || !PairsParse(value) then None
    else Some(seq(|value| / 2, i requires 0 <= i < |value| / 2 => PairByte(value, i)))
  }

  /** Bytes that agree with every pair are what hexToBytes returns. */
  lemma DecodedPairs(value: string, bytes: seq<Byte>)
    requires |value| % 2 == 0 && |bytes| == |value| / 2
    requires forall k :: 0 <= k < |bytes| ==>
      PairNumber(value, k).Int? && bytes[k] == NumberByte(PairNumber(value, k))
    ensures LenientHexDecode(value) == Some(bytes)
  {
    assert PairsParse(value);
    var decoded := LenientHexDecode(value).value;
    forall k | 0 <= k < |bytes| ensures decoded[k] == bytes[k] {
      assert decoded[k] == PairByte(value, k);
    }
    assert decoded == bytes;
  }

  /** hexToBytes: fills a Uint8Array of half the length, pair by pair. */
  method HexToBytes(value: string) returns (r: Option<seq<Byte>>)
    ensures r == LenientHexDecode(value)
  {
    if |value| % 2 != 0 {
      return None;
    }
    var half := |value| / 2;
    var pairs := (k: nat) => if 2 * k + 2 <= |value| then PairNumber(value, k) else NaN;
    r := StoreNumbers(half, pairs);
    if r.None? {
      var k :| 0 <= k < half && !pairs(k).Int?;
      assert !PairNumber(value, k).Int?;
    } else {
      forall k | 0 <= k < half
        ensures PairNumber(value, k).Int? && r.value[k] == NumberByte(PairNumber(value, k))
      {
        assert pairs(k) == PairNumber(value, k);
      }
      DecodedPairs(value, r.value);
    }
  }

  /** The loop of hexToBytes over the parsed pairs: stops with null at the first one that
      is not a number, and otherwise stores each one modulo 256. */
  method StoreNumbers(count: nat, numbers: nat -> Number) returns (r: Option<seq<Byte>>)
    ensures r.None? <==> exists k :: 0 <= k < count && !numbers(k).Int?
    ensures r.Some? ==> |r.value| == count
    ensures r.Some? ==> forall k :: 0 <= k < count ==> numbers(k).Int? && r.value[k] == NumberByte(numbers(k))
  {
    var result := new Byte[count];
    for i := 0 to count
      invariant forall k :: 0 <= k < i ==> numbers(k).Int? && result[k] == NumberByte(numbers(k))
    {
      var byte := numbers(i);
      if byte.NaN? {
        return None;
      }
      result[i] := ToUint8(byte.value);
    }
    return Some(result[..]);
  }

  // ---- Strict hex, the evidently intended decoding ----

  function HexByte(hi: char, lo: char): Byte
  {
    if IsDigit(hi, 16) && IsDigit(lo, 16) then DigitValue(hi) * 16 + DigitValue(lo) else 0
  }

  /** The digits GitHub writes: `0`-`9` and `a`-`f`. */
  predicate IsLowerHex(c: char) { '0' <= c <= '9' || 'a' <= c <= 'f' }

  predicate AllLowerHex(s: string) { forall i :: 0 <= i < |s| ==> IsLowerHex(s[i]) }

  /** Hex decoding that accepts only an even number of lower-case hex digits. */
  function StrictHexDecode(value: string): (r: Option<seq<Byte>>)
    ensures r.Some? ==> |r.value| * 2 == |value| && AllLowerHex(value)
  {
    if |value| % 2 != 0 || !AllLowerHex(value) then None
    else Some(seq(|value| / 2, i requires 0 <= i < |value| / 2 => HexByte(value[2 * i], value[2 * i + 1])))
  }

  /** Lower-case hex, two digits per byte, as GitHub writes the signature. */
  function HexEncode(bytes: seq<Byte>): (s: string)
    ensures |s| == 2 * |bytes|
  {
    seq(2 * |bytes|, j requires 0 <= j < 2 * |bytes| =>
      if j % 2 == 0 then DigitChar(bytes[j / 2] / 16) else DigitChar(bytes[j / 2] % 16))
  }

  /** A lower-case hex digit is a digit of radix 16 and is the digit character of its value. */
  lemma LowerHexDigit(c: char)
    requires IsLowerHex(c)
    ensures IsDigit(c, 16) && DigitChar(DigitValue(c)) == c
  {
  }

  /** The digit character of a value below 16 is a lower-case hex digit. */
  lemma DigitCharLowerHex(v: nat)
    requires v < 16
    ensures IsLowerHex(DigitChar(v)) && DigitValue(DigitChar(v)) == v
  {
  }

  /** Decoding the hex of some bytes gives the bytes back. */
  lemma StrictHexRoundTrip(bytes: seq<Byte>)
    ensures StrictHexDecode(HexEncode(bytes)) == Some(bytes)
  {
    var s := HexEncode(bytes);
    forall j | 0 <= j < |s| ensures IsLowerHex(s[j]) {
      if j % 2 == 0 {
        DigitCharLowerHex(bytes[j / 2] / 16);
      } else {
        DigitCharLowerHex(bytes[j / 2] % 16);
      }
    }
    var d := StrictHexDecode(s).value;
    forall i | 0 <= i < |bytes| ensures d[i] == bytes[i] {
      assert (2 * i) / 2 == i && (2 * i + 1) / 2 == i;
      assert (2 * i) % 2 == 0 && (2 * i + 1) % 2 == 1;
      DigitCharLowerHex(bytes[i] / 16);
      DigitCharLowerHex(bytes[i] % 16);
      assert DigitValue(s[2 * i]) == bytes[i] / 16;
      assert DigitValue(s[2 * i + 1]) == bytes[i] % 16;
      assert HexByte(s[2 * i], s[2 * i + 1]) == bytes[i];
    }
    assert d == bytes;
  }

  /** The strict decoding accepts one spelling of each byte string: its lower-case hex. */
  lemma StrictHexUnique(value: string, bytes: seq<Byte>)
    requires StrictHexDecode(value) == Some(bytes)
    ensures value == HexEncode(bytes)
  {
    var s := HexEncode(bytes);
    forall j | 0 <= j < |value| ensures value[j] == s[j] {
      var i := j / 2;
      assert 2 * i == j || 2 * i + 1 == j;
      var hi, lo := value[2 * i], value[2 * i + 1];
      LowerHexDigit(hi);
      LowerHexDigit(lo);
      assert bytes[i] == DigitValue(hi) * 16 + DigitValue(lo);
      assert bytes[i] / 16 == DigitValue(hi) && bytes[i] % 16 == DigitValue(lo);
    }
    assert value == s;
  }

  /** parseInt of two hex digits in radix 16 is their value. */
  lemma ParseHexPair(pair: string)
    requires |pair| == 2 && AllDigits(pair, 16)
    ensures ParseInt(pair, 16) == Int(DigitValue(pair[0]) * 16 + DigitValue(pair[1]))
  {
    assert IsDigit(pair[0], 16) && IsDigit(pair[1], 16);
    assert !IsJsSpace(pair[0]) && pair[0] != '-' && pair[0] != '+';
    assert pair[1] != 'x' && pair[1] != 'X';
    TrimStartNoSpace(pair);
    assert pair + [] == pair;
    LeadingDigitsOf(pair, [], 16);
    assert LeadingDigits(pair, 16) == pair;
    assert pair[..1] == [pair[0]];
    assert [pair[0]][..0] == [];
    assert DigitsValue([pair[0]], 16) == DigitValue(pair[0]);
    assert DigitsValue(pair, 16) == DigitValue(pair[0]) * 16 + DigitValue(pair[1]);
  }

  /** A number that is already a byte is stored unchanged. */
  lemma StoredByte(b: Byte)
    ensures NumberByte(Int(b)) == b
  {
  }

  /** A pair of hex digits parses to the byte they spell. */
  lemma HexPairNumber(value: string, i: nat)
    requires 2 * i + 2 <= |value| && IsDigit(value[2 * i], 16) && IsDigit(value[2 * i + 1], 16)
    ensures PairNumber(value, i) == Int(HexByte(value[2 * i], value[2 * i + 1]))
  {
    var pair := HexPair(value, i);
    assert pair[0] == value[2 * i] && pair[1] == value[2 * i + 1];
    ParseHexPair(pair);
  }

  /** On hex digits every pair parses, to the byte the digits spell. */
  lemma HexPairsParse(value: string)
    requires |value| % 2 == 0 && AllDigits(value, 16)
    ensures PairsParse(value)
    ensures forall i :: 0 <= i < |value| / 2 ==> PairByte(value, i) == HexByte(value[2 * i], value[2 * i + 1])
  {
    forall i | 0 <= i < |value| / 2
      ensures PairNumber(value, i).Int? && PairByte(value, i) == HexByte(value[2 * i], value[2 * i + 1])
    {
      HexPairNumber(value, i);
      StoredByte(HexByte(value[2 * i], value[2 * i + 1]));
    }
  }

  /** On lower-case hex the as-written decoding and the strict one agree. */
  lemma LenientAgreesOnHex(value: string)
    requires |value| % 2 == 0 && AllLowerHex(value)
    ensures LenientHexDecode(value) == StrictHexDecode(value)
  {
    forall i | 0 <= i < |value| ensures IsDigit(value[i], 16) {
      LowerHexDigit(value[i]);
    }
    HexPairsParse(value);
    var lenient := LenientHexDecode(value).value;
    var strict := StrictHexDecode(value).value;
    assert |lenient| == |strict|;
    forall i | 0 <= i < |value| / 2 ensures lenient[i] == strict[i] {
      assert lenient[i] == PairByte(value, i);
    }
    assert lenient == strict;
  }

  /** parseInt of a minus sign and one digit reads the sign and the digit. */
  lemma ParseSignedDigit(pair: string)
    requires |pair| == 2 && pair[0] == '-' && IsDigit(pair[1], 16)
    ensures ParseInt(pair, 16) == Int(-(DigitValue(pair[1]) as int))
  {
    assert !IsJsSpace(pair[0]);
    TrimStartNoSpace(pair);
    var digit := pair[1..];
    assert digit == [pair[1]] && |digit| == 1;
    assert digit + [] == digit;
    LeadingDigitsOf(digit, [], 16);
    assert digit[..0] == [];
    assert DigitsValue(digit, 16) == DigitValue(pair[1]);
  }

  /** A minus sign and a hex digit decode to one byte, the negated digit modulo 256, and
      the strict decoding refuses the pair. */
  lemma SignedPairDecodes(pair: string)
    requires |pair| == 2 && pair[0] == '-' && IsDigit(pair[1], 16)
    ensures LenientHexDecode(pair) == Some([ToUint8(-(DigitValue(pair[1]) as int))])
    ensures StrictHexDecode(pair) == None
  {
    var n := Int(-(DigitValue(pair[1]) as int));
    assert HexPair(pair, 0) == pair;
    ParseSignedDigit(pair);
    assert PairNumber(pair, 0) == n;
    assert PairsParse(pair) by {
      forall i | 0 <= i < 1 ensures PairNumber(pair, i).Int? {
        assert i == 0;
      }
    }
    var d := LenientHexDecode(pair).value;
    assert |d| == 1 && d == [d[0]];
    assert d[0] == PairByte(pair, 0) == NumberByte(n);
    assert !AllDigits(pair, 16) by {
      assert !IsDigit(pair[0], 16);
    }
  }

  /** Two hex digits decode to the byte they spell. */
  lemma HexPairDecodes(pair: string)
    requires |pair| == 2 && IsDigit(pair[0], 16) && IsDigit(pair[1], 16)
    ensures LenientHexDecode(pair) == Some([HexByte(pair[0], pair[1])])
  {
    assert AllDigits(pair, 16);
    HexPairsParse(pair);
    var d := LenientHexDecode(pair).value;
    assert |d| == 1 && d == [d[0]];
    assert d[0] == PairByte(pair, 0) == HexByte(pair[0], pair[1]);
  }

  /** The discrepancy: "-1" is not hex, yet hexToBytes reads it as the byte 0xff, the
      same bytes as "ff"; the strict decoding refuses it. */
  lemma LenientAcceptsSignedPair()
    ensures LenientHexDecode("-1") == Some([255])
    ensures LenientHexDecode("ff") == Some([255])
    ensures StrictHexDecode("-1") == None
  {
    var signed, hex := "-1", "ff";
    assert signed[1] == '1' && hex[0] == 'f' && hex[1] == 'f';
    SignedPairDecodes(signed);
    HexPairDecodes(hex);
    assert ToUint8(-1) == 255 && HexByte('f', 'f') == 255;
  }

  // ---- timingSafeEqual ----

  /** JavaScript's `^` on the low `bits` bits of two non-negative numbers, lowest bit first. */
  function BitXor(a: nat, b: nat, bits: nat): (r: nat)
    ensures r < Pow(2, bits)
  {
    if bits == 0 then 0
    else 2 * BitXor(a / 2, b / 2, bits - 1) + (if a % 2 == b % 2 then 0 else 1)
  }

  /** JavaScript's `|` on the low `bits` bits of two non-negative numbers. */
  function BitOr(a: nat, b: nat, bits: nat): (r: nat)
    ensures r < Pow(2, bits)
  {
    if bits == 0 then 0
    else 2 * BitOr(a / 2, b / 2, bits - 1) + (if a % 2 == 1 || b % 2 == 1 then 1 else 0)
  }

  /** The exclusive or of two numbers of that width is zero exactly when they are equal. */
  lemma {:induction false} XorZero(a: nat, b: nat, bits: nat)
    requires a < Pow(2, bits) && b < Pow(2, bits)
    ensures BitXor(a, b, bits) == 0 <==> a == b
  {
    if bits > 0 {
      assert a / 2 < Pow(2, bits - 1) && b / 2 < Pow(2, bits - 1);
      XorZero(a / 2, b / 2, bits - 1);
      assert a == 2 * (a / 2) + a % 2 && b == 2 * (b / 2) + b % 2;
    }
  }

  /** The or of two numbers of that width is zero exactly when both are. */
  lemma {:induction false} OrZero(a: nat, b: nat, bits: nat)
    requires a < Pow(2, bits) && b < Pow(2, bits)
    ensures BitOr(a, b, bits) == 0 <==> a == 0 && b == 0
  {
    if bits > 0 {
      assert a / 2 < Pow(2, bits - 1) && b / 2 < Pow(2, bits - 1);
      OrZero(a / 2, b / 2, bits - 1);
      assert a == 2 * (a / 2) + a % 2 && b == 2 * (b / 2) + b % 2;
    }
  }

  /** timingSafeEqual: false for different lengths; otherwise every pair is read, the
      differences are OR-ed together and the result is whether none was found. Bytes and
      their differences fit in eight bits. */
  method TimingSafeEqual(left: seq<Byte>, right: seq<Byte>) returns (r: bool)
    ensures r <==> left == right
  {
    if |left| != |right| {
      return false;
    }
    assert Pow(2, 8) == 256;
    var diff: nat := 0;
    for index := 0 to |left|
      invariant diff < 256
      invariant diff == 0 <==> forall k :: 0 <= k < index ==> left[k] == right[k]
    {
      var difference := BitXor(left[index], right[index], 8);
      XorZero(left[index], right[index], 8);
      OrZero(diff, difference, 8);
      diff := BitOr(diff, difference, 8);
    }
    return diff == 0;
  }

  // ---- verifySignature ----

  const SignaturePrefix := "sha256="

  /** verifySignature's test, as written: the prefix, then a rest that hexToBytes turns
      into the HMAC of the body under the secret. */
  predicate SignatureMatches(secret: string, payload: seq<Byte>, signature: string,
                             hmac: (string, seq<Byte>) -> seq<Byte>)
  {
    && StartsWith(signature, SignaturePrefix)
    && LenientHexDecode(signature[|SignaturePrefix|..]) == Some(hmac(secret, payload))
  }

  /** verifySignature */
  method VerifySignature(secret: string, payload: seq<Byte>, signature: string,
                         hmac: (string, seq<Byte>) -> seq<Byte>)
    returns (ok: bool)
    ensures ok <==> SignatureMatches(secret, payload, signature, hmac)
  {
    if !StartsWith(signature, SignaturePrefix) {
      return false;
    }
    var provided := HexToBytes(signature[|SignaturePrefix|..]);
    if provided.None? {
      return false;
    }
    var expected := hmac(secret, payload);
    ok := TimingSafeEqual(expected, provided.value);
  }

  /** The corrected test: the rest must be strict lower-case hex of the HMAC. */
  predicate StrictSignatureMatches(secret: string, payload: seq<Byte>, signature: string,
                                   hmac: (string, seq<Byte>) -> seq<Byte>)
  {
    && StartsWith(signature, SignaturePrefix)
    && StrictHexDecode(signature[|SignaturePrefix|..]) == Some(hmac(secret, payload))
  }

  /** verifySignature with the strict decoding in place of hexToBytes. */
  method StrictVerifySignature(secret: string, payload: seq<Byte>, signature: string,
                               hmac: (string, seq<Byte>) -> seq<Byte>)
    returns (ok: bool)
    ensures ok <==> signature == SignaturePrefix + HexEncode(hmac(secret, payload))
  {
    StrictSignatureExactly(secret, payload, signature, hmac);
    if !StartsWith(signature, SignaturePrefix) {
      return false;
    }
    var provided := StrictHexDecode(signature[|SignaturePrefix|..]);
    if provided.None? {
      return false;
    }
    var expected := hmac(secret, payload);
    ok := TimingSafeEqual(expected, provided.value);
  }

  /** Under the strict decoding a signature is accepted exactly when it is the prefix and
      the lower-case hex of the HMAC. */
  lemma StrictSignatureExactly(secret: string, payload: seq<Byte>, signature: string,
                               hmac: (string, seq<Byte>) -> seq<Byte>)
    ensures StrictSignatureMatches(secret, payload, signature, hmac)
            <==> signature == SignaturePrefix + HexEncode(hmac(secret, payload))
  {
    var genuine := SignaturePrefix + HexEncode(hmac(secret, payload));
    if StrictSignatureMatches(secret, payload, signature, hmac) {
      var rest := signature[|SignaturePrefix|..];
      StrictHexUnique(rest, hmac(secret, payload));
      assert signature == signature[..|SignaturePrefix|] + rest;
    }
    if signature == genuine {
      assert signature[..|SignaturePrefix|] == SignaturePrefix;
      assert signature[|SignaturePrefix|..] == HexEncode(hmac(secret, payload));
      StrictHexRoundTrip(hmac(secret, payload));
    }
  }

  /** The signature GitHub sends for the body passes both the source's test and the
      corrected one. */
  lemma GenuineSignatureMatches(secret: string, payload: seq<Byte>, hmac: (string, seq<Byte>) -> seq<Byte>)
    ensures SignatureMatches(secret, payload, SignaturePrefix + HexEncode(hmac(secret, payload)), hmac)
    ensures StrictSignatureMatches(secret, payload, SignaturePrefix + HexEncode(hmac(secret, payload)), hmac)
  {
    var hex := HexEncode(hmac(secret, payload));
    var signature := SignaturePrefix + hex;
    assert signature[..|SignaturePrefix|] == SignaturePrefix;
    assert signature[|SignaturePrefix|..] == hex;
    StrictHexRoundTrip(hmac(secret, payload));
    LenientAgreesOnHex(hex);
  }

  /** The source refuses a signature without the prefix, with a rest of odd length, or with
      a pair of the rest that parseInt reads as NaN. */
  lemma MalformedSignatureRejected(secret: string, payload: seq<Byte>, signature: string,
                                   hmac: (string, seq<Byte>) -> seq<Byte>)
    requires !StartsWith(signature, SignaturePrefix)
             || |signature[|SignaturePrefix|..]| % 2 != 0
             || exists i :: 0 <= i && 2 * i + 2 <= |signature[|SignaturePrefix|..]|
                            && !PairNumber(signature[|SignaturePrefix|..], i).Int?
    ensures !SignatureMatches(secret, payload, signature, hmac)
  {
    if StartsWith(signature, SignaturePrefix) && |signature[|SignaturePrefix|..]| % 2 == 0 {
      var rest := signature[|SignaturePrefix|..];
      var i :| 0 <= i && 2 * i + 2 <= |rest| && !PairNumber(rest, i).Int?;
      assert !PairsParse(rest);
    }
  }

  /** A pair of the text after a two-character head is a pair of the text shifted by one. */
  lemma PairAfterHead(head: string, rest: string, k: nat)
    requires |head| == 2 && 1 <= k && 2 * k + 2 <= |head + rest|
    ensures PairNumber(head + rest, k) == PairNumber(rest, k - 1)
  {
    assert HexPair(head + rest, k) == HexPair(rest, k - 1);
  }

  lemma TailByte(tail: string, bytes: seq<Byte>, i: nat)
    requires LenientHexDecode(tail) == Some(bytes) && i < |bytes|
    ensures 2 * i + 2 <= |tail| && PairNumber(tail, i).Int? && bytes[i] == NumberByte(PairNumber(tail, i))
  {
    assert PairsParse(tail);
    assert bytes[i] == PairByte(tail, i);
  }

  /** Every pair of a text hexToBytes accepts parses to the byte stored for it. */
  lemma TailBytes(tail: string, bytes: seq<Byte>)
    requires LenientHexDecode(tail) == Some(bytes)
    ensures |tail| == 2 * |bytes|
    ensures forall k :: 0 <= k < |bytes| ==>
      PairNumber(tail, k).Int? && bytes[k] == NumberByte(PairNumber(tail, k))
  {
    forall k | 0 <= k < |bytes| ensures PairNumber(tail, k).Int? && bytes[k] == NumberByte(PairNumber(tail, k)) {
      TailByte(tail, bytes, k);
    }
  }

  lemma HeadPairFirst(head: string, tail: string)
    requires |head| == 2
    ensures PairNumber(head + tail, 0) == ParseInt(head, 16)
  {
    assert HexPair(head + tail, 0) == head;
  }

  /** Pair by pair, a head pair that parses followed by a text whose pairs all parse reads
      as the head's byte followed by the text's bytes. */
  lemma HeadPairsAgree(head: string, tail: string, bytes: seq<Byte>, all: seq<Byte>)
    requires |head| == 2 && ParseInt(head, 16).Int?
    requires |tail| == 2 * |bytes| && all == [NumberByte(ParseInt(head, 16))] + bytes
    requires forall k :: 0 <= k < |bytes| ==>
      PairNumber(tail, k).Int? && bytes[k] == NumberByte(PairNumber(tail, k))
    ensures |head + tail| % 2 == 0 && |all| == |head + tail| / 2
    ensures forall k :: 0 <= k < |all| ==>
      PairNumber(head + tail, k).Int? && all[k] == NumberByte(PairNumber(head + tail, k))
  {
    forall k | 0 <= k < |all| ensures PairNumber(head + tail, k).Int? && all[k] == NumberByte(PairNumber(head + tail, k)) {
      if k == 0 {
        HeadPairFirst(head, tail);
      } else {
        HeadPairLater(head, tail, NumberByte(ParseInt(head, 16)), bytes, all, k);
      }
    }
  }

  lemma HeadPairLater(head: string, tail: string, first: Byte, bytes: seq<Byte>, all: seq<Byte>, k: nat)
    requires |head| == 2 && all == [first] + bytes && 1 <= k <= |bytes|
    requires 2 * k <= |tail| && PairNumber(tail, k - 1).Int? && bytes[k - 1] == NumberByte(PairNumber(tail, k - 1))
    ensures 2 * k + 2 <= |head + tail|
    ensures PairNumber(head + tail, k).Int? && all[k] == NumberByte(PairNumber(head + tail, k))
  {
    PairAfterHead(head, tail, k);
    assert all[k] == bytes[k - 1];
  }

  /** A head pair that parses, before a text whose pairs all parse, adds its byte in front
      of theirs. */
  lemma HeadPairDecodes(head: string, tail: string, bytes: seq<Byte>)
    requires |head| == 2 && ParseInt(head, 16).Int?
    requires |tail| == 2 * |bytes|
    requires forall k :: 0 <= k < |bytes| ==>
      PairNumber(tail, k).Int? && bytes[k] == NumberByte(PairNumber(tail, k))
    ensures LenientHexDecode(head + tail) == Some([NumberByte(ParseInt(head, 16))] + bytes)
  {
    var all := [NumberByte(ParseInt(head, 16))] + bytes;
    HeadPairsAgree(head, tail, bytes, all);
    DecodedPairs(head + tail, all);
  }

  /** hexToBytes reads `-1` followed by the hex of the rest of a byte string that starts
      with 0xff as that byte string; the strict decoding refuses it. */
  lemma SignedSpellingDecodes(bytes: seq<Byte>)
    requires |bytes| > 0 && bytes[0] == 255
    ensures LenientHexDecode("-1" + HexEncode(bytes[1..])) == Some(bytes)
    ensures StrictHexDecode("-1" + HexEncode(bytes[1..])) == None
  {
    var tail := HexEncode(bytes[1..]);
    var signed := "-1";
    StrictHexRoundTrip(bytes[1..]);
    LenientAgreesOnHex(tail);
    assert signed[0] == '-' && signed[1] == '1';
    ParseSignedDigit(signed);
    TailBytes(tail, bytes[1..]);
    HeadPairDecodes(signed, tail, bytes[1..]);
    assert NumberByte(ParseInt(signed, 16)) == 255;
    assert [bytes[0]] + bytes[1..] == bytes;
    assert !IsLowerHex((signed + tail)[0]);
  }

  /** The source's test accepts a second spelling of an HMAC that starts with 0xff: `-1`
      in place of `ff`; the corrected test refuses it. */
  lemma SignedSignatureAccepted(secret: string, payload: seq<Byte>, hmac: (string, seq<Byte>) -> seq<Byte>)
    requires |hmac(secret, payload)| > 0 && hmac(secret, payload)[0] == 255
    ensures SignatureMatches(secret, payload, SignaturePrefix + "-1" + HexEncode(hmac(secret, payload)[1..]), hmac)
    ensures !StrictSignatureMatches(secret, payload, SignaturePrefix + "-1" + HexEncode(hmac(secret, payload)[1..]), hmac)
  {
    var h := hmac(secret, payload);
    var rest := "-1" + HexEncode(h[1..]);
    var signature := SignaturePrefix + "-1" + HexEncode(h[1..]);
    assert signature == SignaturePrefix + rest;
    assert signature[..|SignaturePrefix|] == SignaturePrefix;
    assert signature[|SignaturePrefix|..] == rest;
    SignedSpellingDecodes(h);
  }

  // ---- isGithubPushPayload ----

  /** A parsed JSON value; an object keeps its members in text order. */
  datatype Json =
    | JNull
    | JBool(b: bool)
    | JNumber(n: int)
    | JString(s: string)
    | JArray(items: seq<Json>)
    | JObject(members: seq<(string, Json)>)

  /** A member of an object; when a name repeats, JSON.parse keeps the last one. */
  function Lookup(members: seq<(string, Json)>, name: string): Option<Json>
  {
    if members == [] then None
    else if members[|members| - 1].0 == name then Some(members[|members| - 1].1)
    else Lookup(members[..|members| - 1], name)
  }

  /** `record[name]`: arrays and other values have none of the names read here. */
  function Property(value: Json, name: string): Option<Json>
  {
    if value.JObject? then Lookup(value.members, name) else None
  }

  /** `typeof value === 'object' && value !== null` */
  predicate IsObject(value: Json) { value.JObject? || value.JArray? }

  predicate HasString(value: Json, name: string)
  {
    Property(value, name).Some? && Property(value, name).value.JString?
  }

  predicate IsGithubPushPayload(payload: Json)
  {
    && IsObject(payload)
    && HasString(payload, "ref")
    && HasString(payload, "after")
    && Property(payload, "repository").Some?
    && IsObject(Property(payload, "repository").value)
    && HasString(Property(payload, "repository").value, "full_name")
  }

  /** Only an object whose repository is an object passes. */
  lemma PushPayloadIsObject(payload: Json)
    requires IsGithubPushPayload(payload)
    ensures payload.JObject? && Property(payload, "repository").value.JObject?
  {
  }

  lemma {:induction false} LookupAppended(members: seq<(string, Json)>, extra: seq<(string, Json)>, name: string)
    requires forall i :: 0 <= i < |extra| ==> extra[i].0 != name
    ensures Lookup(members + extra, name) == Lookup(members, name)
    decreases |extra|
  {
    if extra != [] {
      assert (members + extra)[..|members + extra| - 1] == members + extra[..|extra| - 1];
      LookupAppended(members, extra[..|extra| - 1], name);
    } else {
      assert members + extra == members;
    }
  }

  function PushPayload(ref: string, after: string, fullName: string, extra: seq<(string, Json)>): Json
  {
    JObject([("ref", JString(ref)), ("repository", JObject([("full_name", JString(fullName))])),
             ("after", JString(after))] + extra)
  }

  /** A push event's body, with any further members of other names, is accepted. */
  lemma PushPayloadAccepted(ref: string, after: string, fullName: string, extra: seq<(string, Json)>)
    requires forall i :: 0 <= i < |extra| ==> extra[i].0 !in {"ref", "after", "repository"}
    ensures IsGithubPushPayload(PushPayload(ref, after, fullName, extra))
    ensures Property(PushPayload(ref, after, fullName, extra), "after") == Some(JString(after))
  {
    var base := [("ref", JString(ref)), ("repository", JObject([("full_name", JString(fullName))])),
                 ("after", JString(after))];
    LookupAppended(base, extra, "ref");
    LookupAppended(base, extra, "after");
    LookupAppended(base, extra, "repository");
    assert base[..2] == [base[0], base[1]];
    assert base[..2][..1] == [base[0]];
    assert Lookup(base[..2][..1], "ref") == Some(JString(ref));
    assert Lookup(base[..2], "ref") == Some(JString(ref));
    assert Lookup(base, "ref") == Some(JString(ref));
    assert Lookup(base[..2], "repository") == Some(JObject([("full_name", JString(fullName))]));
    assert Lookup(base, "repository") == Some(JObject([("full_name", JString(fullName))]));
    assert Lookup([("full_name", JString(fullName))], "full_name") == Some(JString(fullName));
  }

  // ---- The update queue and the handler ----

  datatype QueueStatus = Busy | Queued

  /** The module's `updateInFlight`: whether a `git pull` is still running. */
  class UpdateQueue {
    var inFlight: bool

    constructor()
      ensures !inFlight
    {
      inFlight := false;
    }

    /** queueUpdate: busy while a pull runs, otherwise a pull starts. */
    method QueueUpdate() returns (status: QueueStatus)
      modifies this
      ensures status == if old(inFlight) then Busy else Queued
      ensures inFlight
    {
      if inFlight {
        return Busy;
      }
      inFlight := true;
      return Queued;
    }

    /** The pull has finished, whatever its outcome. */
    method Settle()
      modifies this
      ensures !inFlight
    {
      inFlight := false;
    }
  }

  datatype WebhookBody =
    | ErrorBody(error: string)
    | PingBody
    | IgnoredBody(reason: string)
    | AcceptedBody(state: string, commit: string)

  datatype WebhookResponse = WebhookResponse(status: int, body: WebhookBody)

  /** A header or variable that is set and not empty. */
  predicate Present(value: Option<string>) { value.Some? && value.value != "" }

  /** The handler's answer, checked in order. `busy` is whether a pull is already running. */
  function WebhookReply(secret: Option<string>, signature: Option<string>, event: Option<string>,
                        payload: seq<Byte>, parse: seq<Byte> -> Option<Json>,
                        hmac: (string, seq<Byte>) -> seq<Byte>, busy: bool): WebhookResponse
  {
    if !Present(secret) then WebhookResponse(500, ErrorBody("Webhook secret not configured"))
    else if !Present(signature) then WebhookResponse(400, ErrorBody("Missing X-Hub-Signature-256 header"))
    else if !Present(event) then WebhookResponse(400, ErrorBody("Missing X-GitHub-Event header"))
    else if !SignatureMatches(secret.value, payload, signature.value, hmac) then WebhookResponse(401, ErrorBody("Invalid signature"))
    else if event.value == "ping" then WebhookResponse(200, PingBody)
    else if event.value != "push" then WebhookResponse(202, IgnoredBody("Unsupported event: " + event.value))
    else if parse(payload).None? then WebhookResponse(400, ErrorBody("Invalid JSON payload"))
    else if !IsGithubPushPayload(parse(payload).value) then WebhookResponse(400, ErrorBody("Unsupported payload shape"))
    else
      var commit := Property(parse(payload).value, "after").value.s;
      WebhookResponse(202, AcceptedBody(if busy then "already-running" else "queued", commit))
  }

  /** githubWebhookHandler: a pull is started only for a verified push with a well-formed
      body when none is running. */
  method GithubWebhookHandler(queue: UpdateQueue, secret: Option<string>, signature: Option<string>,
                              event: Option<string>, payload: seq<Byte>, parse: seq<Byte> -> Option<Json>,
                              hmac: (string, seq<Byte>) -> seq<Byte>)
    returns (response: WebhookResponse)
    modifies queue
    ensures response == WebhookReply(secret, signature, event, payload, parse, hmac, old(queue.inFlight))
    ensures queue.inFlight == (old(queue.inFlight) || response.body.AcceptedBody?)
  {
    if !Present(secret) {
      return WebhookResponse(500, ErrorBody("Webhook secret not configured"));
    }
    if !Present(signature) {
      return WebhookResponse(400, ErrorBody("Missing X-Hub-Signature-256 header"));
    }
    if !Present(event) {
      return WebhookResponse(400, ErrorBody("Missing X-GitHub-Event header"));
    }
    var valid := VerifySignature(secret.value, payload, signature.value, hmac);
    if !valid {
      return WebhookResponse(401, ErrorBody("Invalid signature"));
    }
    if event.value == "ping" {
      return WebhookResponse(200, PingBody);
    }
    if event.value != "push" {
      return WebhookResponse(202, IgnoredBody("Unsupported event: " + event.value));
    }
    var parsed := parse(payload);
    if parsed.None? {
      return WebhookResponse(400, ErrorBody("Invalid JSON payload"));
    }
    if !IsGithubPushPayload(parsed.value) {
      return WebhookResponse(400, ErrorBody("Unsupported payload shape"));
    }
    var status := queue.QueueUpdate();
    var commit := Property(parsed.value, "after").value.s;
    if status == Busy {
      return WebhookResponse(202, AcceptedBody("already-running", commit));
    }
    return WebhookResponse(202, AcceptedBody("queued", commit));
  }

  /** Configuration and header errors come before the signature is looked at, and every
      request past them with a bad signature is refused with 401, pings included. */
  lemma WebhookCheckOrder(secret: Option<string>, signature: Option<string>, event: Option<string>,
                          payload: seq<Byte>, parse: seq<Byte> -> Option<Json>,
                          hmac: (string, seq<Byte>) -> seq<Byte>, busy: bool)
    ensures var r := WebhookReply(secret, signature, event, payload, parse, hmac, busy);
      && (!Present(secret) ==> r.status == 500)
      && (Present(secret) && !Present(signature) ==> r.status == 400)
      && (Present(secret) && Present(signature) && !Present(event) ==> r.status == 400)
      && (Present(secret) && Present(signature) && Present(event) &&
            !SignatureMatches(secret.value, payload, signature.value, hmac)
          ==> r.status == 401)
  {
  }

  /** Only a verified push whose body has the push shape is accepted, and the commit
      reported is the body's `after`. */
  lemma AcceptedOnlyVerifiedPush(secret: Option<string>, signature: Option<string>, event: Option<string>,
                                 payload: seq<Byte>, parse: seq<Byte> -> Option<Json>,
                                 hmac: (string, seq<Byte>) -> seq<Byte>, busy: bool)
    requires WebhookReply(secret, signature, event, payload, parse, hmac, busy).body.AcceptedBody?
    ensures Present(secret) && Present(signature) && event == Some("push")
    ensures SignatureMatches(secret.value, payload, signature.value, hmac)
    ensures parse(payload).Some? && IsGithubPushPayload(parse(payload).value)
    ensures Property(parse(payload).value, "after")
            == Some(JString(WebhookReply(secret, signature, event, payload, parse, hmac, busy).body.commit))
  {
  }
}
