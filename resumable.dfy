/** resumable.ts: the `Content-Range` parser of the chunked upload protocol, the path
    segment sanitiser, header decoding, the slot layout and the staged chunk write. The
    staging directory is a map from path to bytes (the data file) and from path to the
    parsed metadata record (the meta file). */
module Resumable {
  import opened Wrappers
  import opened Strings
  import opened JsNumbers
  import opened Unicode
  import opened UriCodec

  const MetaName: string := "meta.json"
  const DataName: string := "data.bin"

  datatype ContentRange = ContentRange(start: int, end: int, total: int)

  /** The staged upload's metadata (meta.json). */
  datatype ResumableMeta = ResumableMeta(
    name: string,
    mediaType: string,
    size: int,
    relativePath: string,
    lastModified: int,
    completed: bool)

  // ---- parseContentRange ----

  /** `\d+`: one or more ASCII digits. */
  predicate Decimal(s: string) {
    s != [] && forall i :: 0 <= i < |s| ==> '0' <= s[i] <= '9'
  }

  const RangePrefix: string := "bytes "

  /** The regular expression `^bytes (\d+)-(\d+)\/(\d+)$`: its three groups, when it
      matches. Digits hold neither `-` nor `/`, so the text after `bytes ` must split into
      exactly a digit run, `-`, a digit run, `/` and a digit run. */
  function MatchContentRange(t: string): (r: Option<(string, string, string)>)
    ensures r.Some? ==> Decimal(r.value.0) && Decimal(r.value.1) && Decimal(r.value.2)
    ensures r.Some? ==> t == RangePrefix + r.value.0 + "-" + r.value.1 + "/" + r.value.2
  {
    if !StartsWith(t, RangePrefix) then None
    else
      var rest := t[|RangePrefix|..];
      var parts := Split(rest, '-');
      if |parts| != 2 then None
      else
        var tail := Split(parts[1], '/');
        if |tail| != 2 then None
        else if Decimal(parts[0]) && Decimal(tail[0]) && Decimal(tail[1]) then
          JoinSplit(rest, '-');
          JoinSplit(parts[1], '/');
          assert rest == parts[0] + "-" + (tail[0] + "/" + tail[1]);
          assert t == RangePrefix + rest;
          Reassociate(RangePrefix, parts[0], tail[0], tail[1]);
          Some((parts[0], tail[0], tail[1]))
        else None
  }

  lemma Reassociate(p: string, a: string, b: string, c: string)
    ensures p + (a + "-" + (b + "/" + c)) == p + a + "-" + b + "/" + c
  {
  }

  lemma DecimalExcludes(d: string, c: char)
    requires Decimal(d) && !('0' <= c <= '9')
    ensures c !in d
  {
  }

  /** Conversely, every text of that shape matches, with those groups. */
  lemma MatchContentRangeOf(a: string, b: string, c: string)
    requires Decimal(a) && Decimal(b) && Decimal(c)
    ensures MatchContentRange(RangePrefix + a + "-" + b + "/" + c) == Some((a, b, c))
  {
    var t := RangePrefix + a + "-" + b + "/" + c;
    var rest := a + "-" + (b + "/" + c);
    assert t[|RangePrefix|..] == rest;
    DecimalExcludes(a, '-');
    DecimalExcludes(b, '-');
    DecimalExcludes(b, '/');
    DecimalExcludes(c, '-');
    DecimalExcludes(c, '/');
    var tail := b + "/" + c;
    assert '-' !in tail;
    SplitAtSeparator(a, '-', tail);
    SplitNoSeparator(tail, '-');
    assert Split(rest, '-') == [a, tail];
    SplitAtSeparator(b, '/', c);
    SplitNoSeparator(c, '/');
    assert Split(tail, '/') == [b, c];
  }

  /** A digit run reads, with parseInt(_, 10), as its decimal value. */
  lemma DecimalParse(d: string)
    requires Decimal(d)
    ensures ParseInt(d, 10) == Int(DigitsValue(d, 10))
  {
    assert AllDigits(d, 10) by {
      assert forall i :: 0 <= i < |d| ==> DigitValue(d[i]) < 10;
    }
    assert d + [] == d;
    ParseIntDecimal(d, []);
  }

  /** parseContentRange. A missing or empty header, text that is not exactly
      `bytes A-B/T` once trimmed, `B < A` and `T = 0` all give nothing. */
  function ParseContentRange(header: Option<string>): (r: Option<ContentRange>)
    ensures header.None? || header == Some("") ==> r.None?
    ensures r.Some? ==> 0 <= r.value.start <= r.value.end && r.value.total > 0
  {
    if header.None? || header.value == "" then None
    else
      match MatchContentRange(Trim(header.value))
      case None => None
      case Some(groups) =>
        var start := ParseInt(groups.0, 10);
        var end := ParseInt(groups.1, 10);
        var total := ParseInt(groups.2, 10);
        if !IsFinite(start) || !IsFinite(end) || !IsFinite(total) then None
        else
          DecimalParse(groups.0);
          if start.value < 0 || end.value < start.value || total.value <= 0 then None
          else Some(ContentRange(start.value, end.value, total.value))
  }

  /** Every range that is read back comes from a header that is, once trimmed, exactly
      `bytes A-B/T` for digit runs with those values. */
  lemma ParseContentRangeShape(header: Option<string>)
    requires ParseContentRange(header).Some?
    ensures var t := Trim(header.value);
      var r := ParseContentRange(header).value;
      exists a, b, c :: Decimal(a) && Decimal(b) && Decimal(c)
        && t == RangePrefix + a + "-" + b + "/" + c
        && DigitsValue(a, 10) == r.start && DigitsValue(b, 10) == r.end && DigitsValue(c, 10) == r.total
  {
    var groups := MatchContentRange(Trim(header.value)).value;
    DecimalParse(groups.0);
    DecimalParse(groups.1);
    DecimalParse(groups.2);
  }

  /** The header a client sends for bytes [a, b] of a t-byte file. */
  function FormatContentRange(a: nat, b: nat, t: nat): string
  {
    RangePrefix + NatToString(a, 10) + "-" + NatToString(b, 10) + "/" + NatToString(t, 10)
  }

  lemma NatToStringDecimal(n: nat)
    ensures Decimal(NatToString(n, 10))
  {
    var d := NatToString(n, 10);
    assert forall i :: 0 <= i < |d| ==> '0' <= d[i] <= '9' by {
      forall i | 0 <= i < |d| ensures '0' <= d[i] <= '9' {
        assert DigitValue(d[i]) < 10;
      }
    }
  }

  /** Round trip: a formatted range reads back as itself, and exactly the empty-total and
      backwards ranges are refused. */
  lemma ParseFormatContentRange(a: nat, b: nat, t: nat)
    ensures ParseContentRange(Some(FormatContentRange(a, b, t)))
            == if a <= b && t > 0 then Some(ContentRange(a, b, t)) else None
  {
    var da, db, dt := NatToString(a, 10), NatToString(b, 10), NatToString(t, 10);
    NatToStringDecimal(a);
    NatToStringDecimal(b);
    NatToStringDecimal(t);
    var h := FormatContentRange(a, b, t);
    assert h[0] == 'b' && h[|h| - 1] == dt[|dt| - 1];
    TrimTrimmed(h);
    MatchContentRangeOf(da, db, dt);
    ParseIntFormatted(a);
    ParseIntFormatted(b);
    ParseIntFormatted(t);
  }

  // ---- sanitizeSegment ----

  /** `[a-zA-Z0-9_-]` */
  predicate SegmentChar(c: char) {
    ('a' <= c <= 'z') || ('A' <= c <= 'Z') || ('0' <= c <= '9') || c == '_' || c == '-'
  }

  predicate Subsequence(a: string, b: string)
    decreases |b|
  {
    if a == [] then true
    else if b == [] then false
    else if a[0] == b[0] then Subsequence(a[1..], b[1..])
    else Subsequence(a, b[1..])
  }

  lemma {:induction false} SubsequencePrefix(a: string, b: string, k: nat)
    requires Subsequence(a, b) && k <= |a|
    ensures Subsequence(a[..k], b)
    decreases |b|
  {
    if k > 0 && a != [] && b != [] {
      if a[0] == b[0] {
        SubsequencePrefix(a[1..], b[1..], k - 1);
        assert a[..k][1..] == a[1..][..k - 1];
      } else {
        SubsequencePrefix(a, b[1..], k);
      }
    }
  }

  /** `.replace(/[^a-zA-Z0-9_-]+/g, '')`: every other character removed. */
  function KeepSegmentChars(s: string): (r: string)
    ensures forall i :: 0 <= i < |r| ==> SegmentChar(r[i])
    ensures |r| <= |s|
  {
    if s == [] then []
    else if SegmentChar(s[0]) then [s[0]] + KeepSegmentChars(s[1..])
    else KeepSegmentChars(s[1..])
  }

  /** The kept characters appear in the input, in order. */
  lemma {:induction false} KeepSegmentCharsSubsequence(s: string)
    ensures Subsequence(KeepSegmentChars(s), s)
  {
    if s != [] {
      KeepSegmentCharsSubsequence(s[1..]);
      var rest := KeepSegmentChars(s[1..]);
      if SegmentChar(s[0]) {
        assert ([s[0]] + rest)[1..] == rest;
      } else if rest != [] {
        SubsequenceSkip(rest, s);
      }
    }
  }

  /** Dropping a first character that is not used. */
  lemma {:induction false} SubsequenceSkip(a: string, b: string)
    requires b != [] && Subsequence(a, b[1..])
    ensures Subsequence(a, b)
    decreases |b|, |a|
  {
    if a != [] && a[0] == b[0] {
      SubsequenceTail(a, b[1..]);
    }
  }

  /** A subsequence stays one after its first character is dropped. */
  lemma {:induction false} SubsequenceTail(a: string, b: string)
    requires a != [] && Subsequence(a, b)
    ensures Subsequence(a[1..], b)
    decreases |b|, |a|
  {
    if b != [] {
      if a[0] == b[0] {
        if a[1..] != [] {
          SubsequenceSkip(a[1..], b);
        }
      } else {
        SubsequenceTail(a, b[1..]);
        if a[1..] != [] {
          SubsequenceSkip(a[1..], b);
        }
      }
    }
  }

  /** Nothing is removed from text made only of segment characters. */
  lemma {:induction false} KeepSegmentCharsClean(s: string)
    requires forall i :: 0 <= i < |s| ==> SegmentChar(s[i])
    ensures KeepSegmentChars(s) == s
  {
    if s != [] {
      KeepSegmentCharsClean(s[1..]);
      assert s == [s[0]] + s[1..];
    }
  }

  /** Nothing is kept exactly when the input has no segment character. */
  lemma {:induction false} KeepSegmentCharsEmpty(s: string)
    ensures KeepSegmentChars(s) == [] <==> forall i :: 0 <= i < |s| ==> !SegmentChar(s[i])
  {
    if s != [] {
      KeepSegmentCharsEmpty(s[1..]);
      assert forall i :: 1 <= i < |s| ==> s[i] == s[1..][i - 1];
    }
  }

  /** Every segment character of the input is kept, as often as it occurs, and nothing
      else is. */
  lemma {:induction false} KeepSegmentCharsCounts(s: string)
    ensures forall c :: SegmentChar(c) ==> multiset(KeepSegmentChars(s))[c] == multiset(s)[c]
    ensures forall c :: !SegmentChar(c) ==> multiset(KeepSegmentChars(s))[c] == 0
  {
    if s != [] {
      KeepSegmentCharsCounts(s[1..]);
      assert s == [s[0]] + s[1..];
      assert multiset(s) == multiset{s[0]} + multiset(s[1..]);
    }
  }

  const SegmentLimit: nat := 120

  /** sanitizeSegment. `slice(0, 120)` counts UTF-16 units; every kept character is ASCII,
      so it is one unit long and the cut falls after 120 characters. */
  function SanitizeSegment(value: Option<string>): (r: string)
    ensures |r| <= SegmentLimit
    ensures forall i :: 0 <= i < |r| ==> SegmentChar(r[i])
    ensures value.None? || value == Some("") ==> r == ""
    ensures value.Some? ==> var cleaned := KeepSegmentChars(value.value);
      r == cleaned[..if |cleaned| < SegmentLimit then |cleaned| else SegmentLimit]
  {
    if value.None? || value.value == "" then ""
    else
      var cleaned := KeepSegmentChars(value.value);
      if |cleaned| == 0 then "" else cleaned[..if |cleaned| < SegmentLimit then |cleaned| else SegmentLimit]
  }

  /** The sanitised segment is the first (at most) 120 segment characters of the input, in
      order; it is empty exactly when the input has none. */
  lemma SanitizeSegmentSpec(value: Option<string>)
    ensures value.Some? ==> Subsequence(SanitizeSegment(value), value.value)
    ensures SanitizeSegment(value) == "" <==>
            value.None? || forall i :: 0 <= i < |value.value| ==> !SegmentChar(value.value[i])
  {
    if value.Some? {
      var cleaned := KeepSegmentChars(value.value);
      KeepSegmentCharsSubsequence(value.value);
      KeepSegmentCharsEmpty(value.value);
      if value.value != "" && cleaned != [] {
        SubsequencePrefix(cleaned, value.value, if |cleaned| < SegmentLimit then |cleaned| else SegmentLimit);
      }
    }
  }

  /** Sanitising twice is sanitising once. */
  lemma SanitizeSegmentIdempotent(value: Option<string>)
    ensures SanitizeSegment(Some(SanitizeSegment(value))) == SanitizeSegment(value)
  {
    var r := SanitizeSegment(value);
    if r != "" {
      KeepSegmentCharsClean(r);
      assert r[..|r|] == r;
    }
  }

  // ---- decodeUploadHeader ----

  /** decodeUploadHeader: nothing for a missing or empty header or for malformed
      percent-encoding. */
  function DecodeUploadHeader(value: Option<string>): (r: Option<string>)
    ensures value.None? || value == Some("") ==> r.None?
    ensures r.Some? ==> value.Some? && DecodeURIComponent(value.value) == r
    ensures value.Some? && value.value != "" ==> r == DecodeURIComponent(value.value)
  {
    if value.None? || value.value == "" then None else DecodeURIComponent(value.value)
  }

  /** A header the client wrote with encodeURIComponent reads back as the original text. */
  lemma DecodeUploadHeaderEncoded(s: string)
    requires s != ""
    ensures DecodeUploadHeader(Some(EncodeURIComponent(s))) == Some(s)
  {
    DecodeEncode(s);
    assert EncodeURIComponent(s) != "";
  }

  /** `after` is `before` without the files below `directory`; every other file is kept
      as it was. */
  ghost predicate SlotRemoved<V>(before: map<string, V>, after: map<string, V>, directory: string)
  {
    && (forall p :: p in after <==> p in before && !StartsWith(p, directory + "/"))
    && (forall p :: p in after ==> after[p] == before[p])
  }

  /** A file written below the directory just before the removal leaves no trace. */
  lemma SlotRemovedOverwrite<V>(before: map<string, V>, path: string, v: V, after: map<string, V>, directory: string)
    requires StartsWith(path, directory + "/")
    requires SlotRemoved(before[path := v], after, directory)
    ensures SlotRemoved(before, after, directory)
  {
  }

  // ---- prepareResumableSlot (path layout) ----

  datatype Slot = Slot(directory: string, dataPath: string, metaPath: string)

  /** `sanitizeSegment(value) || fallback` */
  function SafeSegment(value: string, fallback: string): string
  {
    var s := SanitizeSegment(Some(value));
    if s != "" then s else fallback
  }

  /** `join(root, safeScope, safeId)` and the two file names inside it. */
  function SlotPaths(root: string, scope: string, uploadId: string): Slot
  {
    var directory := root + "/" + SafeSegment(scope, "scope") + "/" + SafeSegment(uploadId, "upload");
    Slot(directory, directory + "/" + DataName, directory + "/" + MetaName)
  }

  lemma SafeSegmentShape(value: string, fallback: string)
    requires fallback == "scope" || fallback == "upload"
    ensures var s := SafeSegment(value, fallback);
      s != "" && '/' !in s && forall i :: 0 <= i < |s| ==> SegmentChar(s[i])
  {
    var s := SafeSegment(value, fallback);
    assert forall i :: 0 <= i < |s| ==> SegmentChar(s[i]);
    assert forall i :: 0 <= i < |s| ==> s[i] != '/';
  }

  /** Below a common root, two two-segment paths of `/`-free segments are equal only when
      their segments are. */
  lemma TwoSegmentsInjective(root: string, a1: string, b1: string, a2: string, b2: string)
    requires '/' !in a1 && '/' !in b1 && '/' !in a2 && '/' !in b2
    requires root + "/" + a1 + "/" + b1 == root + "/" + a2 + "/" + b2
    ensures a1 == a2 && b1 == b2
  {
    var prefix := root + "/";
    var p1 := a1 + "/" + b1;
    var p2 := a2 + "/" + b2;
    assert root + "/" + a1 + "/" + b1 == prefix + p1;
    assert root + "/" + a2 + "/" + b2 == prefix + p2;
    assert p1 == (prefix + p1)[|prefix|..];
    assert p2 == (prefix + p2)[|prefix|..];
    SplitAtSeparator(a1, '/', b1);
    SplitNoSeparator(b1, '/');
    SplitAtSeparator(a2, '/', b2);
    SplitNoSeparator(b2, '/');
    assert Split(p1, '/') == [a1, b1];
    assert Split(p2, '/') == [a2, b2];
  }

  /** Two requests share a slot exactly when their sanitised scope and upload id agree. */
  lemma SlotPathsInjective(root: string, scope1: string, id1: string, scope2: string, id2: string)
    ensures SlotPaths(root, scope1, id1).directory == SlotPaths(root, scope2, id2).directory
            <==> SafeSegment(scope1, "scope") == SafeSegment(scope2, "scope")
                 && SafeSegment(id1, "upload") == SafeSegment(id2, "upload")
  {
    SafeSegmentShape(scope1, "scope");
    SafeSegmentShape(id1, "upload");
    SafeSegmentShape(scope2, "scope");
    SafeSegmentShape(id2, "upload");
    if SlotPaths(root, scope1, id1).directory == SlotPaths(root, scope2, id2).directory {
      TwoSegmentsInjective(root, SafeSegment(scope1, "scope"), SafeSegment(id1, "upload"),
                           SafeSegment(scope2, "scope"), SafeSegment(id2, "upload"));
    }
  }

  /** The data and meta files are two different files directly inside the slot. */
  lemma SlotFiles(root: string, scope: string, uploadId: string)
    ensures var slot := SlotPaths(root, scope, uploadId);
      && slot.dataPath != slot.metaPath
      && StartsWith(slot.dataPath, slot.directory + "/")
      && StartsWith(slot.metaPath, slot.directory + "/")
  {
    var slot := SlotPaths(root, scope, uploadId);
    assert slot.dataPath[|slot.directory| + 1] == 'd';
    assert slot.metaPath[|slot.directory| + 1] == 'm';
  }

  // ---- The staged data file ----

  /** writeResumableChunk's effect on the data file, given its current content (None
      when the file does not exist). */
  function StagedWrite(existing: Option<seq<Byte>>, chunk: seq<Byte>, offset: int): Result<seq<Byte>>
  {
    var current := if existing.Some? then existing.value else [];
    var size := |current|;
    if existing.None? && offset != 0 then Err("Unexpected chunk offset.")
    else if offset > size then Err("Unexpected chunk offset.")
    else if offset < size then
      var overlap := size - offset;
      if overlap >= |chunk| then Ok(current)
      else Ok(current + chunk[overlap..])
    else if offset > 0 then Ok(current + chunk)
    else Ok(chunk)
  }

  function SizeOf(existing: Option<seq<Byte>>): nat { if existing.Some? then |existing.value| else 0 }

  /** A write is refused exactly for a gap: a missing file with a non-zero offset, or an
      offset past the staged length. */
  lemma StagedWriteRefused(existing: Option<seq<Byte>>, chunk: seq<Byte>, offset: int)
    ensures StagedWrite(existing, chunk, offset).Err?
            <==> (existing.None? && offset != 0) || offset > SizeOf(existing)
  {
  }

  /** An accepted write keeps the staged bytes as a prefix and grows the file to
      max(size, offset + length); a chunk wholly inside the staged data changes nothing. */
  lemma StagedWriteSpec(existing: Option<seq<Byte>>, chunk: seq<Byte>, offset: int)
    requires offset >= 0
    requires StagedWrite(existing, chunk, offset).Ok?
    ensures var r := StagedWrite(existing, chunk, offset).value;
      var size := SizeOf(existing);
      && |r| == (if size >= offset + |chunk| then size else offset + |chunk|)
      && r[..size] == (if existing.Some? then existing.value else [])
      && r[size..] == (if size >= offset + |chunk| then [] else chunk[size - offset..])
  {
    var r := StagedWrite(existing, chunk, offset).value;
    var size := SizeOf(existing);
    if existing.Some? && offset == 0 && size == 0 {
      assert existing.value == [];
    }
  }

  /** When the staged bytes agree with the chunk where they overlap (a retransmission), the
      file afterwards holds the chunk at its offset. */
  lemma StagedWriteHoldsChunk(existing: Option<seq<Byte>>, chunk: seq<Byte>, offset: nat)
    requires StagedWrite(existing, chunk, offset).Ok?
    requires existing.Some? ==>
      var e := existing.value;
      forall i :: offset <= i < |e| && i - offset < |chunk| ==> e[i] == chunk[i - offset]
    ensures var r := StagedWrite(existing, chunk, offset).value;
      offset + |chunk| <= |r| && r[offset..offset + |chunk|] == chunk
  {
    var r := StagedWrite(existing, chunk, offset).value;
    StagedWriteSpec(existing, chunk, offset);
    var size := SizeOf(existing);
    forall i | 0 <= i < |chunk| ensures r[offset + i] == chunk[i] {
      if offset + i < size {
        assert r[offset + i] == r[..size][offset + i];
      } else {
        assert r[offset + i] == r[size..][offset + i - size];
      }
    }
  }

  /** Sending the same chunk again changes nothing. */
  lemma StagedWriteRepeat(existing: Option<seq<Byte>>, chunk: seq<Byte>, offset: nat)
    requires StagedWrite(existing, chunk, offset).Ok?
    ensures var r := StagedWrite(existing, chunk, offset).value;
      StagedWrite(Some(r), chunk, offset) == Ok(r)
  {
    StagedWriteSpec(existing, chunk, offset);
    var r := StagedWrite(existing, chunk, offset).value;
    if offset == |r| {
      assert chunk == [];
      assert r + chunk == r;
    }
  }

  /** Chunks sent in order, each starting where the last ended, append. */
  lemma StagedWriteInOrder(existing: Option<seq<Byte>>, chunk: seq<Byte>)
    ensures StagedWrite(existing, chunk, SizeOf(existing))
            == Ok((if existing.Some? then existing.value else []) + chunk)
  {
    if existing.Some? && |existing.value| == 0 {
      assert existing.value + chunk == chunk;
    }
    if existing.None? {
      assert [] + chunk == chunk;
    }
  }

  /** The staging area: data files and meta files by path. */
  class Staging {
    var data: map<string, seq<Byte>>
    var metas: map<string, ResumableMeta>

    constructor(data0: map<string, seq<Byte>>, metas0: map<string, ResumableMeta>)
      ensures data == data0 && metas == metas0
    {
      data := data0;
      metas := metas0;
    }

    function Existing(path: string): Option<seq<Byte>>
      reads this
    {
      if path in data then Some(data[path]) else None
    }

    /** writeResumableChunk: the returned length is the data file's new length. */
    method WriteResumableChunk(path: string, chunk: seq<Byte>, offset: int) returns (r: Result<nat>)
      modifies this
      ensures metas == old(metas)
      ensures var w := StagedWrite(old(Existing(path)), chunk, offset);
        && (w.Err? ==> r == Err(w.message) && data == old(data))
        && (w.Ok? ==> r == Ok(|w.value|) && data == old(data)[path := w.value])
    {
      var present := path in data;
      var size := if present then |data[path]| else 0;
      if !present && offset != 0 {
        return Err("Unexpected chunk offset.");
      }
      if offset > size {
        return Err("Unexpected chunk offset.");
      }
      if offset < size {
        var overlap := size - offset;
        if overlap >= |chunk| {
          return Ok(size);
        }
        var remainder := chunk[overlap..];
        data := data[path := data[path] + remainder];
        return Ok(size + |remainder|);
      }
      if offset > 0 {
        data := data[path := data[path] + chunk];
      } else {
        data := data[path := chunk];
      }
      return Ok(offset + |chunk|);
    }

    /** writeResumableMeta */
    method WriteResumableMeta(path: string, meta: ResumableMeta)
      modifies this
      ensures metas == old(metas)[path := meta] && data == old(data)
    {
      metas := metas[path := meta];
    }

    /** cleanupResumableSlot: every file below the slot directory is removed; a missing
        directory is not an error. */
    method CleanupResumableSlot(directory: string)
      modifies this
      ensures SlotRemoved(old(data), data, directory)
      ensures SlotRemoved(old(metas), metas, directory)
    {
      data := map p | p in data && !StartsWith(p, directory + "/") :: data[p];
      metas := map p | p in metas && !StartsWith(p, directory + "/") :: metas[p];
    }
  }
}
