/** download.tsx: single-range parsing, the response heads of file and folder downloads,
    the ZIP size formula, the byte-range slicer over a chunked stream, archive path
    sanitising and the construction of the archive's entry list. */
module Download {
  import opened Wrappers
  import opened Strings
  import opened Seqs
  import opened Sorting
  import opened JsNumbers
  import opened Unicode
  import opened ShareStore
  import opened Uploads

  function Max(a: int, b: int): int { if a >= b then a else b }
  function Min(a: int, b: int): int { if a <= b then a else b }

  // ---- Range header (RFC 7233 section 2.1, one range only) ----

  datatype ByteRange = ByteRange(start: int, end: int)

  const RangeUnit: string := "bytes="

  /** `header.toLowerCase().startsWith('bytes=')`. Only ASCII capitals lower-case onto the
      characters of "bytes=", so ASCII lower-casing decides the test. */
  predicate HasBytesUnit(header: string) { StartsWith(ToLowerAscii(header), RangeUnit) }

  /** `raw ? Number.parseInt(raw, 10) : undefined` */
  function ParseBound(raw: string): Option<Number>
  {
    if raw != "" then Some(ParseInt(raw, 10)) else None
  }

  /** The range-set after `bytes=`, trimmed. */
  function RangeValue(header: string): string
    requires |header| >= |RangeUnit|
  {
    Trim(header[|RangeUnit|..])
  }

  /** The decision of parseRangeHeader once the two bounds are read: the suffix form when
      only an end is given, otherwise a start inside the file and an end clamped to the last
      byte. */
  function RangeFromBounds(start: Option<Number>, end: Option<Number>, size: int): (r: Option<ByteRange>)
    requires start.Some? && start.value.Int? ==> start.value.value >= 0
    ensures r.Some? ==> 0 <= r.value.start <= r.value.end <= size - 1
    ensures r.Some? ==> size > 0 && (start.Some? || end.Some?)
  {
    if start == Some(NaN) || end == Some(NaN) then None
    else if start.None? && end.None? then None
    else if size <= 0 then None
    else if start.None? then
      var suffixLength := end.value.value;
      if suffixLength <= 0 then None
      else Some(ByteRange(Max(size - suffixLength, 0), size - 1))
    else
      var first := start.value.value;
      if first >= size then None
      else
        var rangeEnd := if end.None? || end.value.value >= size then size - 1 else end.value.value;
        if rangeEnd < first then None else Some(ByteRange(first, rangeEnd))
  }

  /** The range-set after `bytes=`: refused when it lists several ranges, otherwise split at
      `-` with a limit of two, so anything after a second `-` is ignored. */
  function ParseRangeValue(value: string, size: int): (r: Option<ByteRange>)
    ensures r.Some? ==> 0 <= r.value.start <= r.value.end <= size - 1
    ensures r.Some? ==> ',' !in value && size > 0
    ensures r.Some? ==> Split(value, '-')[0] != "" || |Split(value, '-')| >= 2
  {
    if ',' in value then None
    else
      var parts := Split(value, '-');
      var startRaw := parts[0];
      var endRaw := if |parts| >= 2 then parts[1] else "";
      assert '-' !in startRaw;
      RangeFromBounds(ParseBound(startRaw), ParseBound(endRaw), size)
  }

  /** parseRangeHeader: `None` stands for `null`. */
  function ParseRangeHeader(header: string, size: int): (r: Option<ByteRange>)
    ensures r.Some? ==> 0 <= r.value.start <= r.value.end <= size - 1
    ensures r.Some? ==> HasBytesUnit(header) && ',' !in RangeValue(header) && size > 0
    ensures r.Some? ==> Split(RangeValue(header), '-')[0] != "" || |Split(RangeValue(header), '-')| >= 2
  {
    if !HasBytesUnit(header) then None else ParseRangeValue(RangeValue(header), size)
  }

  /** A header `bytes=<v>` whose value needs no trimming is read as the value `v`. */
  lemma RangeHeaderValue(v: string, size: int)
    requires v != [] && !IsJsSpace(v[0]) && !IsJsSpace(v[|v| - 1])
    ensures HasBytesUnit(RangeUnit + v)
    ensures RangeValue(RangeUnit + v) == v
    ensures ParseRangeHeader(RangeUnit + v, size) == ParseRangeValue(v, size)
  {
    var h := RangeUnit + v;
    assert forall i :: 0 <= i < |RangeUnit| ==> !('A' <= RangeUnit[i] <= 'Z');
    LowerPrefix(RangeUnit, v);
    assert h[6..] == v;
    TrimTrimmed(v);
  }

  lemma DecimalChars(n: nat)
    ensures var d := NatToString(n, 10);
      '-' !in d && ',' !in d && !IsJsSpace(d[0]) && !IsJsSpace(d[|d| - 1]) && d != ""
  {
    var d := NatToString(n, 10);
    assert forall i :: 0 <= i < |d| ==> ('0' <= d[i] <= '9') || ('a' <= d[i] <= 'z');
  }

  lemma DecimalFacts(n: nat)
    ensures var d := NatToString(n, 10);
      '-' !in d && ',' !in d && !IsJsSpace(d[0]) && !IsJsSpace(d[|d| - 1]) && d != ""
      && ParseBound(d) == Some(Int(n))
  {
    DecimalChars(n);
    ParseIntFormatted(n);
  }

  lemma SuffixValue(n: nat, size: int)
    ensures ParseRangeValue("-" + NatToString(n, 10), size) == RangeFromBounds(None, Some(Int(n)), size)
  {
    var d := NatToString(n, 10);
    var v := "-" + d;
    DecimalFacts(n);
    SplitNoSeparator(d, '-');
    assert v == "" + ['-'] + d;
    SplitAtSeparator("", '-', d);
    assert Split(v, '-') == ["", d];
  }

  lemma OpenValue(a: nat, size: int)
    ensures ParseRangeValue(NatToString(a, 10) + "-", size) == RangeFromBounds(Some(Int(a)), None, size)
  {
    var d := NatToString(a, 10);
    var v := d + "-";
    DecimalFacts(a);
    SplitNoSeparator("", '-');
    assert v == d + ['-'] + "";
    SplitAtSeparator(d, '-', "");
    assert Split(v, '-') == [d, ""];
  }

  lemma ClosedValue(a: nat, b: nat, size: int)
    ensures ParseRangeValue(NatToString(a, 10) + "-" + NatToString(b, 10), size)
            == RangeFromBounds(Some(Int(a)), Some(Int(b)), size)
  {
    var d := NatToString(a, 10);
    var e := NatToString(b, 10);
    var v := d + "-" + e;
    DecimalFacts(a);
    DecimalFacts(b);
    SplitNoSeparator(e, '-');
    assert v == d + ['-'] + e;
    SplitAtSeparator(d, '-', e);
    assert Split(v, '-') == [d, e];
  }

  lemma SuffixBounds(n: nat, size: int)
    requires size > 0
    ensures RangeFromBounds(None, Some(Int(n)), size)
            == if n == 0 then None else Some(ByteRange(Max(size - n, 0), size - 1))
  {
  }

  lemma OpenBounds(a: nat, size: int)
    requires size > 0
    ensures RangeFromBounds(Some(Int(a)), None, size)
            == if a >= size then None else Some(ByteRange(a, size - 1))
  {
  }

  lemma ClosedBounds(a: nat, b: nat, size: int)
    requires size > 0
    ensures RangeFromBounds(Some(Int(a)), Some(Int(b)), size)
            == if a >= size then None
               else if Min(b, size - 1) < a then None
               else Some(ByteRange(a, Min(b, size - 1)))
  {
  }

  /** The suffix form `bytes=-N` asks for the last N bytes, starting at 0 when N exceeds the
      size; `bytes=-0` is refused. */
  lemma RangeSuffix(n: nat, size: int)
    requires size > 0
    ensures ParseRangeHeader(RangeUnit + "-" + NatToString(n, 10), size)
            == if n == 0 then None else Some(ByteRange(Max(size - n, 0), size - 1))
  {
    var d := NatToString(n, 10);
    DecimalFacts(n);
    assert RangeUnit + "-" + d == RangeUnit + ("-" + d);
    RangeHeaderValue("-" + d, size);
    SuffixValue(n, size);
    SuffixBounds(n, size);
  }

  /** The open form `bytes=A-` runs to the last byte when A is inside the file. */
  lemma RangeOpen(a: nat, size: int)
    requires size > 0
    ensures ParseRangeHeader(RangeUnit + NatToString(a, 10) + "-", size)
            == if a >= size then None else Some(ByteRange(a, size - 1))
  {
    var d := NatToString(a, 10);
    DecimalFacts(a);
    assert RangeUnit + d + "-" == RangeUnit + (d + "-");
    RangeHeaderValue(d + "-", size);
    OpenValue(a, size);
    OpenBounds(a, size);
  }

  /** The closed form `bytes=A-B`: A must lie inside the file, B is cut back to the last
      byte, and a range that ends before it starts is refused. */
  lemma RangeClosed(a: nat, b: nat, size: int)
    requires size > 0
    ensures ParseRangeHeader(RangeUnit + NatToString(a, 10) + "-" + NatToString(b, 10), size)
            == if a >= size then None
               else if Min(b, size - 1) < a then None
               else Some(ByteRange(a, Min(b, size - 1)))
  {
    DecimalChars(a);
    DecimalChars(b);
    ClosedHeader(NatToString(a, 10), NatToString(b, 10), size);
    ClosedValue(a, b, size);
    ClosedBounds(a, b, size);
  }

  lemma ClosedHeader(d: string, e: string, size: int)
    requires d != [] && e != [] && !IsJsSpace(d[0]) && !IsJsSpace(e[|e| - 1])
    ensures ParseRangeHeader(RangeUnit + d + "-" + e, size) == ParseRangeValue(d + "-" + e, size)
  {
    var v := d + "-" + e;
    assert v[0] == d[0] && v[|v| - 1] == e[|e| - 1];
    assert RangeUnit + d + "-" + e == RangeUnit + v;
    RangeHeaderValue(v, size);
  }

  // ---- Response heads (status, Content-Length, Content-Range) ----

  datatype ResponseHead = ResponseHead(status: int, contentLength: int, contentRange: Option<string>)

  // `bytes */N`: the Content-Range of a 416 answer (RFC 7233 section 4.4).
  function UnsatisfiedRange(size: int): string { "bytes */" + IntToDecimal(size) }

  /** `bytes S-E/N`: the Content-Range of a 206 answer. */
  function SatisfiedRange(r: ByteRange, size: int): string
  {
    "bytes " + IntToDecimal(r.start) + "-" + IntToDecimal(r.end) + "/" + IntToDecimal(size)
  }

  /** `rangeHeader ?`: a Range header that is present and not empty. */
  predicate HasRangeHeader(rangeHeader: Option<string>) { rangeHeader.Some? && rangeHeader.value != "" }

  /** respondWithFileDownload after the file was found: a HEAD request is answered with the
      full length before the Range header is looked at. */
  function FileResponseHead(isHead: bool, rangeHeader: Option<string>, size: nat): (h: ResponseHead)
    ensures h.status == 416 <==> !isHead && HasRangeHeader(rangeHeader) && ParseRangeHeader(rangeHeader.value, size).None?
    ensures h.status == 416 ==> h.contentLength == 0 && h.contentRange == Some(UnsatisfiedRange(size))
    ensures h.status == 206 <==> !isHead && HasRangeHeader(rangeHeader) && ParseRangeHeader(rangeHeader.value, size).Some?
    ensures h.status == 206 ==>
      var r := ParseRangeHeader(rangeHeader.value, size).value;
      && h.contentLength == r.end - r.start + 1 && 1 <= h.contentLength <= size
      && h.contentRange == Some(SatisfiedRange(r, size))
    ensures h.status == 200 ==> h.contentLength == size && h.contentRange.None?
    ensures h.status in {200, 206, 416}
  {
    if isHead then ResponseHead(200, size, None)
    else if HasRangeHeader(rangeHeader) then
      match ParseRangeHeader(rangeHeader.value, size)
      case None => ResponseHead(416, 0, Some(UnsatisfiedRange(size)))
      case Some(r) => ResponseHead(206, r.end - r.start + 1, Some(SatisfiedRange(r, size)))
    else ResponseHead(200, size, None)
  }

  /** respondWithFolderArchive after the entries are built: an unsatisfiable Range header is
      answered with 416 even for HEAD. */
  function ArchiveResponseHead(isHead: bool, rangeHeader: Option<string>, totalSize: nat): (h: ResponseHead)
    ensures h.status == 416 <==> HasRangeHeader(rangeHeader) && ParseRangeHeader(rangeHeader.value, totalSize).None?
    ensures h.status == 416 ==> h.contentLength == 0 && h.contentRange == Some(UnsatisfiedRange(totalSize))
    ensures h.status == 206 <==> !isHead && HasRangeHeader(rangeHeader) && ParseRangeHeader(rangeHeader.value, totalSize).Some?
    ensures h.status == 206 ==>
      var r := ParseRangeHeader(rangeHeader.value, totalSize).value;
      && h.contentLength == r.end - r.start + 1 && 1 <= h.contentLength <= totalSize
      && h.contentRange == Some(SatisfiedRange(r, totalSize))
    ensures h.status == 200 ==> h.contentLength == totalSize && h.contentRange.None?
    ensures h.status in {200, 206, 416}
  {
    var range := if HasRangeHeader(rangeHeader) then ParseRangeHeader(rangeHeader.value, totalSize) else None;
    if HasRangeHeader(rangeHeader) && range.None? then ResponseHead(416, 0, Some(UnsatisfiedRange(totalSize)))
    else if isHead then ResponseHead(200, totalSize, None)
    else if range.Some? then
      ResponseHead(206, range.value.end - range.value.start + 1, Some(SatisfiedRange(range.value, totalSize)))
    else ResponseHead(200, totalSize, None)
  }

  /** The two handlers order their checks differently: with an unsatisfiable Range header a
      HEAD request for a file gets 200, one for a folder archive gets 416. */
  lemma HeadBeforeRangeOnlyForFiles(rangeHeader: string, size: nat)
    requires rangeHeader != "" && ParseRangeHeader(rangeHeader, size).None?
    ensures FileResponseHead(true, Some(rangeHeader), size).status == 200
    ensures ArchiveResponseHead(true, Some(rangeHeader), size).status == 416
  {
  }

  // ---- ZIP size (APPNOTE.TXT, stored entries with data descriptors) ----

  datatype EntryKind = DirectoryEntry | FileEntry

  /** ZipArchiveEntry: the file handle itself is left out; `size` is 0 for directories. */
  datatype ZipEntry = ZipEntry(kind: EntryKind, name: string, size: nat, mtime: Number)

  /** Fixed part of a local file header (APPNOTE.TXT 4.3.7). */
  const LocalHeaderBytes: nat := 30
  /** Data descriptor with its signature (APPNOTE.TXT 4.3.9). */
  const DataDescriptorBytes: nat := 16
  /** Fixed part of a central directory header (APPNOTE.TXT 4.3.12). */
  const CentralHeaderBytes: nat := 46
  /** End of central directory record without a comment (APPNOTE.TXT 4.3.16). */
  const EndOfCentralDirectoryBytes: nat := 22
  /** yazl's 0x5455 extended-timestamp extra field in the central directory. */
  const CentralExtraFieldBytes: nat := 9

  function NameBytes(e: ZipEntry): nat { |Utf8(e.name)| }

  /** What one entry adds before the central directory: header, name, and for a file its
      data and data descriptor. */
  function LocalRecordSize(e: ZipEntry): nat
  {
    LocalHeaderBytes + NameBytes(e) + (if e.kind == FileEntry then e.size + DataDescriptorBytes else 0)
  }

  /** What one entry adds to the central directory. */
  function CentralRecordSize(e: ZipEntry): nat
  {
    CentralHeaderBytes + NameBytes(e) + (if IsFinite(e.mtime) then CentralExtraFieldBytes else 0)
  }

  function SumOf(entries: seq<ZipEntry>, f: ZipEntry -> nat): nat
  {
    if entries == [] then 0 else SumOf(entries[..|entries| - 1], f) + f(entries[|entries| - 1])
  }

  /** The size of the archive, a closed formula over the entry list. */
  function ZipSize(entries: seq<ZipEntry>): nat
  {
    SumOf(entries, LocalRecordSize) + SumOf(entries, CentralRecordSize) + EndOfCentralDirectoryBytes
  }

  /** calculateZipSize: the two running totals of the loop, then the end record. */
  method CalculateZipSize(entries: seq<ZipEntry>) returns (total: nat)
    ensures total == ZipSize(entries)
  {
    var localTotal := 0;
    var centralTotal := 0;
    for i := 0 to |entries|
      invariant localTotal == SumOf(entries[..i], LocalRecordSize)
      invariant centralTotal == SumOf(entries[..i], CentralRecordSize)
    {
      var entry := entries[i];
      var nameLength := |Utf8(entry.name)|;
      localTotal := localTotal + LocalHeaderBytes + nameLength;
      if entry.kind == FileEntry {
        localTotal := localTotal + entry.size + DataDescriptorBytes;
      }
      var centralExtra := if IsFinite(entry.mtime) then CentralExtraFieldBytes else 0;
      centralTotal := centralTotal + CentralHeaderBytes + nameLength + centralExtra;
      assert entries[..i + 1][..i] == entries[..i];
    }
    assert entries[..|entries|] == entries;
    total := localTotal + centralTotal + EndOfCentralDirectoryBytes;
  }

  lemma {:induction false} SumOfConcat(a: seq<ZipEntry>, b: seq<ZipEntry>, f: ZipEntry -> nat)
    ensures SumOf(a + b, f) == SumOf(a, f) + SumOf(b, f)
    decreases |b|
  {
    if b == [] {
      assert a + b == a;
    } else {
      SumOfConcat(a, b[..|b| - 1], f);
      assert (a + b)[..|a + b| - 1] == a + b[..|b| - 1];
    }
  }

  /** Taking one element out of the middle of a sequence takes its term out of the sum. */
  lemma {:induction false} SumOfRemove(s: seq<ZipEntry>, i: nat, f: ZipEntry -> nat)
    requires i < |s|
    ensures SumOf(s, f) == SumOf(s[..i] + s[i + 1..], f) + f(s[i])
    decreases |s|
  {
    var init, last := s[..|s| - 1], s[|s| - 1];
    assert SumOf(s, f) == SumOf(init, f) + f(last);
    if i == |s| - 1 {
      assert s[..i] + s[i + 1..] == init;
    } else {
      SumOfRemove(init, i, f);
      var rest := init[..i] + init[i + 1..];
      assert s[..i] + s[i + 1..] == rest + [last];
      assert (rest + [last])[..|rest|] == rest;
      assert SumOf(rest + [last], f) == SumOf(rest, f) + f(last);
    }
  }

  /** Taking one element out of a sequence takes one copy of it out of its multiset. */
  lemma MultisetRemove<T>(s: seq<T>, i: nat)
    requires i < |s|
    ensures multiset(s[..i] + s[i + 1..]) == multiset(s) - multiset{s[i]}
  {
    assert s == s[..i] + [s[i]] + s[i + 1..];
  }

  /** A sum over entries does not depend on their order. */
  lemma {:induction false} SumOfPermutation(a: seq<ZipEntry>, b: seq<ZipEntry>, f: ZipEntry -> nat)
    requires multiset(a) == multiset(b)
    ensures SumOf(a, f) == SumOf(b, f)
    decreases |a|
  {
    if a != [] {
      var init, x := a[..|a| - 1], a[|a| - 1];
      assert SumOf(a, f) == SumOf(init, f) + f(x);
      MultisetRemove(a, |a| - 1);
      assert a[..|a| - 1] + a[|a|..] == init;
      assert x in multiset(b);
      var i :| 0 <= i < |b| && b[i] == x;
      MultisetRemove(b, i);
      SumOfPermutation(init, b[..i] + b[i + 1..], f);
      SumOfRemove(b, i, f);
    }
  }

  /** The archive size does not depend on the order of the entries. */
  lemma ZipSizePermutation(a: seq<ZipEntry>, b: seq<ZipEntry>)
    requires multiset(a) == multiset(b)
    ensures ZipSize(a) == ZipSize(b)
  {
    SumOfPermutation(a, b, LocalRecordSize);
    SumOfPermutation(a, b, CentralRecordSize);
  }

  function DataBytes(e: ZipEntry): nat { if e.kind == FileEntry then e.size else 0 }

  /** The announced size covers the end record, every file's data, and at least
      30 + 46 bytes of headers per entry. */
  lemma {:induction false} ZipSizeCoversData(entries: seq<ZipEntry>)
    ensures ZipSize(entries) >= EndOfCentralDirectoryBytes + SumOf(entries, DataBytes)
                                + (LocalHeaderBytes + CentralHeaderBytes) * |entries|
  {
    if entries != [] {
      ZipSizeCoversData(entries[..|entries| - 1]);
    }
  }

  // ---- Byte-range slicer over a chunked stream ----

  /** Positions [start, end] of `s`, cut short at its end; nothing when start > end. */
  function Window<T>(s: seq<T>, start: nat, end: nat): seq<T>
  {
    if start > end || start >= |s| then [] else s[start..Min(end + 1, |s|)]
  }

  /** The part of a chunk found at `position` that falls inside [start, end]. */
  function Piece<T>(position: nat, chunk: seq<T>, start: nat, end: nat): seq<T>
  {
    var lo := Max(start - position, 0);
    var hi := Min(end - position + 1, |chunk|);
    if hi > lo then chunk[lo..hi] else []
  }

  lemma WindowExtend<T>(p: seq<T>, c: seq<T>, start: nat, end: nat)
    ensures Window(p + c, start, end) == Window(p, start, end) + Piece(|p|, c, start, end)
  {
    var n := |p|;
    if start <= end && start < n + |c| {
      var m := Min(end + 1, n + |c|);
      if start >= n {
        assert (p + c)[start..m] == c[start - n..m - n];
      } else if end + 1 <= n {
        assert (p + c)[start..m] == p[start..end + 1];
      } else {
        assert (p + c)[start..m] == p[start..n] + c[..m - n];
      }
    }
  }

  lemma WindowBeyond<T>(p: seq<T>, q: seq<T>, start: nat, end: nat)
    requires |p| > end
    ensures Window(p + q, start, end) == Window(p, start, end)
  {
    if start <= end && start < |p| {
      assert (p + q)[start..end + 1] == p[start..end + 1];
    }
  }

  /** One chunk read by the slicer: the part of it inside the window, when not empty, is
      what extends the output. */
  lemma SliceStep(read: seq<seq<Byte>>, chunk: seq<Byte>, out: seq<seq<Byte>>, start: nat, end: nat)
    requires Flatten(out) == Window(Flatten(read), start, end)
    ensures var piece := Piece(|Flatten(read)|, chunk, start, end);
            Flatten(if piece != [] then out + [piece] else out) == Window(Flatten(read + [chunk]), start, end)
  {
    FlattenAppend(read, chunk);
    WindowExtend(Flatten(read), chunk, start, end);
    var piece := Piece(|Flatten(read)|, chunk, start, end);
    if piece != [] {
      FlattenAppend(out, piece);
    }
  }

  /** When the slicer stops, the chunks it never read cannot change the window. */
  lemma SliceDone(chunks: seq<seq<Byte>>, read: nat, start: nat, end: nat)
    requires read <= |chunks|
    requires read < |chunks| ==> |Flatten(chunks[..read])| > end
    ensures Window(Flatten(chunks), start, end) == Window(Flatten(chunks[..read]), start, end)
  {
    assert chunks == chunks[..read] + chunks[read..];
    FlattenConcat(chunks[..read], chunks[read..]);
    if read < |chunks| {
      WindowBeyond(Flatten(chunks[..read]), Flatten(chunks[read..]), start, end);
    } else {
      assert chunks[read..] == [];
    }
  }

  /** sliceZipStream over the chunks the archive stream delivers: the emitted chunks hold
      exactly positions [start, end] of the stream, none of them empty; reading stops at the
      first chunk that reaches `end` (or starts past it), so `read` chunks are consumed. */
  method SliceZipStream(chunks: seq<seq<Byte>>, start: nat, end: nat) returns (out: seq<seq<Byte>>, read: nat)
    ensures Flatten(out) == Window(Flatten(chunks), start, end)
    ensures forall i :: 0 <= i < |out| ==> out[i] != []
    ensures read <= |chunks|
    ensures read < |chunks| ==> |Flatten(chunks[..read])| > end
    ensures start <= end && read > 0 ==> |Flatten(chunks[..read - 1])| <= end
  {
    out := [];
    read := 0;
    var position := 0;
    var stop := false;
    while read < |chunks| && !stop
      invariant read <= |chunks|
      invariant position == |Flatten(chunks[..read])|
      invariant Flatten(out) == Window(Flatten(chunks[..read]), start, end)
      invariant forall i :: 0 <= i < |out| ==> out[i] != []
      invariant stop ==> position > end
      invariant !stop && start <= end ==> position <= end
      invariant start <= end && read > 0 ==> |Flatten(chunks[..read - 1])| <= end
      decreases |chunks| - read
    {
      var chunk := chunks[read];
      SliceStep(chunks[..read], chunk, out, start, end);
      assert chunks[..read + 1] == chunks[..read] + [chunk];
      FlattenAppend(chunks[..read], chunk);
      assert chunks[..read + 1][..read] == chunks[..read];
      var piece, last := SliceChunk(position, chunk, start, end);
      if piece != [] {
        out := out + [piece];
      }
      position := position + |chunk|;
      read := read + 1;
      stop := last;
    }
    SliceDone(chunks, read, start, end);
  }

  /** One chunk of the read loop: the part of the chunk to enqueue, and whether the loop
      stops after it (the chunk starts past the range, or reaches its end). */
  method SliceChunk(position: nat, chunk: seq<Byte>, start: nat, end: nat) returns (piece: seq<Byte>, stop: bool)
    ensures piece == Piece(position, chunk, start, end)
    ensures stop <==> position + |chunk| - 1 >= start && (position > end || position + |chunk| - 1 >= end)
  {
    var chunkStart := position;
    var chunkEnd := chunkStart + |chunk| - 1;
    if chunkEnd < start {
      return [], false;
    }
    if chunkStart > end {
      return [], true;
    }
    var sliceStart := Max(start - chunkStart, 0);
    var sliceEnd := Min(end - chunkStart + 1, |chunk|);
    piece := if sliceEnd > sliceStart then chunk[sliceStart..sliceEnd] else [];
    stop := chunkEnd >= end;
  }

  // ---- Archive paths ----

  /** The segments that survive `.filter` of `.` and `..` (kept in order). */
  function DropNavigation(segments: seq<string>): (r: seq<string>)
    ensures forall i :: 0 <= i < |r| ==> !IsNavigation(r[i])
    ensures forall x :: x in r <==> x in segments && !IsNavigation(x)
  {
    if segments == [] then []
    else
      var init := DropNavigation(segments[..|segments| - 1]);
      var last := segments[|segments| - 1];
      assert segments == segments[..|segments| - 1] + [last];
      if IsNavigation(last) then init else init + [last]
  }

  lemma {:induction false} DropNavigationNone(segments: seq<string>)
    requires forall i :: 0 <= i < |segments| ==> !IsNavigation(segments[i])
    ensures DropNavigation(segments) == segments
  {
    if segments != [] {
      DropNavigationNone(segments[..|segments| - 1]);
      assert segments == segments[..|segments| - 1] + [segments[|segments| - 1]];
    }
  }

  function ArchiveSegments(path: string): seq<string>
  {
    DropNavigation(NonEmpty(Split(ReplaceChar(path, '\\', '/'), '/')))
  }

  /** What sanitizeArchivePath returns. */
  function SanitizedPath(path: string): string
  {
    Join(ArchiveSegments(path), '/')
  }

  /** A relative archive path: non-empty, with only non-empty segments that are neither `.`
      nor `..` and contain no `\`. */
  predicate CleanPath(p: string)
  {
    && p != ""
    && forall i :: 0 <= i < |Split(p, '/')| ==>
         |Split(p, '/')[i]| > 0 && !IsNavigation(Split(p, '/')[i]) && '\\' !in Split(p, '/')[i]
  }

  lemma ArchiveSegmentsClean(path: string)
    ensures forall i :: 0 <= i < |ArchiveSegments(path)| ==>
      var s := ArchiveSegments(path)[i];
      |s| > 0 && '/' !in s && '\\' !in s && !IsNavigation(s)
  {
    var segments := NonEmpty(Split(ReplaceChar(path, '\\', '/'), '/'));
    SlashSegmentsClean(path);
    forall i | 0 <= i < |ArchiveSegments(path)|
      ensures var s := ArchiveSegments(path)[i]; |s| > 0 && '/' !in s && '\\' !in s
    {
      var s := ArchiveSegments(path)[i];
      assert s in segments;
    }
  }

  /** sanitizeArchivePath's output is empty exactly when no segment survives, and otherwise
      is a clean path whose segments are the surviving ones. */
  lemma SanitizedClean(path: string)
    ensures SanitizedPath(path) == "" <==> ArchiveSegments(path) == []
    ensures SanitizedPath(path) != "" ==>
      CleanPath(SanitizedPath(path)) && Split(SanitizedPath(path), '/') == ArchiveSegments(path)
    ensures '\\' !in SanitizedPath(path)
  {
    var segments := ArchiveSegments(path);
    ArchiveSegmentsClean(path);
    JoinExcludes(segments, '/', '\\');
    if segments != [] {
      SplitJoin(segments, '/');
      assert |Join(segments, '/')| >= |segments[0]| by {
        if |segments| > 1 {
          assert Join(segments, '/') == segments[0] + ['/'] + Join(segments[1..], '/');
        }
      }
    }
  }

  /** Sanitising a sanitised path changes nothing. */
  lemma SanitizeIdempotent(path: string)
    ensures SanitizedPath(SanitizedPath(path)) == SanitizedPath(path)
  {
    var segments := ArchiveSegments(path);
    var r := SanitizedPath(path);
    SanitizedClean(path);
    ReplaceCharAbsent(r, '\\', '/');
    if segments == [] {
      assert Split("", '/') == [""];
    } else {
      ArchiveSegmentsClean(path);
      NonEmptyAll(segments);
      DropNavigationNone(segments);
    }
  }

  /** sanitizeArchivePath: the push loop over the non-empty segments. */
  method SanitizeArchivePath(path: string) returns (r: string)
    ensures r == SanitizedPath(path)
  {
    var replaced := ReplaceChar(path, '\\', '/');
    var segments := NonEmpty(Split(replaced, '/'));
    var safe: seq<string> := [];
    for i := 0 to |segments|
      invariant safe == DropNavigation(segments[..i])
    {
      DropNavigationStep(segments, i);
      if !IsNavigation(segments[i]) {
        safe := safe + [segments[i]];
      }
    }
    assert segments[..|segments|] == segments;
    r := Join(safe, '/');
  }

  lemma DropNavigationStep(segments: seq<string>, i: nat)
    requires i < |segments|
    ensures DropNavigation(segments[..i + 1])
            == DropNavigation(segments[..i]) + (if IsNavigation(segments[i]) then [] else [segments[i]])
  {
    var prefix := segments[..i + 1];
    assert prefix[..|prefix| - 1] == segments[..i];
    assert prefix[|prefix| - 1] == segments[i];
  }

  /** normalizeFolderPath: normalizeDirectoryPath's rules, failing with a 400 answer. */
  function NormalizeFolderPath(input: string): (r: Result<string>)
    ensures r.Ok? <==> NormalizePath(input).Ok?
    ensures r.Ok? ==> r.value == NormalizePath(input).value
    ensures r.Err? ==> r.message == "Invalid folder path."
  {
    match NormalizePath(input)
    case Ok(p) => Ok(p)
    case Err(_) => Err("Invalid folder path.")
  }

  /** `keys.filter((key) => key.startsWith(prefix))` */
  function KeysUnder(keys: seq<string>, prefix: string): (r: seq<string>)
    ensures forall k :: k in r <==> k in keys && StartsWith(k, prefix)
    ensures multiset(r) <= multiset(keys)
  {
    if keys == [] then []
    else
      assert keys == [keys[0]] + keys[1..];
      (if StartsWith(keys[0], prefix) then [keys[0]] else []) + KeysUnder(keys[1..], prefix)
  }

  /** collectKeysForFolder: every key for the root folder, otherwise the keys under
      `folder/`, sorted. */
  function CollectKeysForFolder(keys: seq<string>, folder: string): (r: seq<string>)
    ensures forall k :: k in r <==> k in keys && (folder == "" || StartsWith(k, folder + "/"))
    ensures folder == "" ==> multiset(r) == multiset(keys)
    ensures multiset(r) <= multiset(keys)
    ensures forall i, j :: 0 <= i < j < |r| ==> LexLe(r[i], r[j])
  {
    var selected := if folder == "" then keys else KeysUnder(keys, folder + "/");
    var sorted := SortStrings(selected);
    SameMembers(sorted, selected);
    sorted
  }

  const TwoTo32: nat := 0x1_0000_0000

  /** `hash = (hash * 31 + code) >>> 0` over UTF-16 code units. */
  function HashUnits(units: seq<nat>): (h: nat)
    ensures h < TwoTo32
  {
    if units == [] then 0 else (HashUnits(units[..|units| - 1]) * 31 + units[|units| - 1]) % TwoTo32
  }

  function HashHex(input: string): string
  {
    NatToString(HashUnits(Utf16(input)), 16)
  }

  /** simpleHash */
  method SimpleHash(input: string) returns (r: string)
    ensures r == HashHex(input)
  {
    var units := Utf16(input);
    var hash := 0;
    for index := 0 to |units|
      invariant hash == HashUnits(units[..index])
    {
      assert units[..index + 1][..index] == units[..index];
      hash := (hash * 31 + units[index]) % TwoTo32;
    }
    assert units[..|units|] == units;
    r := NatToString(hash, 16);
  }

  /** The hash text is one to eight lower-case hexadecimal digits and reads back, as
      parseInt(_, 16), as the 32-bit hash. */
  lemma HashHexShape(input: string)
    ensures 1 <= |HashHex(input)| <= 8
    ensures forall i :: 0 <= i < |HashHex(input)| ==> ('0' <= HashHex(input)[i] <= '9') || ('a' <= HashHex(input)[i] <= 'f')
    ensures DigitsValue(HashHex(input), 16) == HashUnits(Utf16(input))
  {
    var h := HashUnits(Utf16(input));
    assert Pow(16, 8) == TwoTo32;
    NatToStringLength(h, 16, 8);
    NatToStringValue(h, 16);
    var s := HashHex(input);
    forall i | 0 <= i < |s| ensures ('0' <= s[i] <= '9') || ('a' <= s[i] <= 'f') {
      assert DigitValue(s[i]) < 16;
    }
  }

  const HashedNamePrefix: string := "file-"

  /** `normalized ? key.slice(normalized.length + 1) : key`: the part of the key below the
      folder, or the whole key for the root folder. */
  function KeyBelowFolder(key: string, normalized: string): (r: string)
    ensures normalized != "" && StartsWith(key, normalized + "/") ==> r == key[|normalized| + 1..]
    ensures normalized == "" ==> r == key
  {
    if normalized != "" then SliceFrom(key, |normalized| + 1) else key
  }

  /** resolveRelativePath: the key below the folder, else the whole key, else the file's
      own name (each sanitised), else a name made from the key's hash. The slice below the
      folder counts characters; JavaScript counts UTF-16 units, which gives the same cut for
      every key that starts with `normalized/`, as all keys passed here do. */
  function ResolveRelativePath(key: string, normalized: string, fallback: string): (r: string)
    ensures r != ""
  {
    var primary := SanitizedPath(KeyBelowFolder(key, normalized));
    if primary != "" then primary
    else
      var fromKey := SanitizedPath(key);
      if fromKey != "" then fromKey
      else
        var fromName := SanitizedPath(fallback);
        if fromName != "" then fromName else HashedNamePrefix + HashHex(key)
  }

  /** The four candidates in order: the first one that sanitises to something wins, and the
      hashed name when none does. */
  lemma ResolveRelativePathCases(key: string, normalized: string, fallback: string)
    ensures var r := ResolveRelativePath(key, normalized, fallback);
      var below := SanitizedPath(KeyBelowFolder(key, normalized));
      && (below != "" ==> r == below)
      && (below == "" && SanitizedPath(key) != "" ==> r == SanitizedPath(key))
      && (below == "" && SanitizedPath(key) == "" && SanitizedPath(fallback) != "" ==> r == SanitizedPath(fallback))
      && (below == "" && SanitizedPath(key) == "" && SanitizedPath(fallback) == "" ==> r == HashedNamePrefix + HashHex(key))
  {
  }

  /** The fallbacks are reached: a key that is the folder itself followed by `/` has nothing
      below the folder, so it is named by the whole key, sanitised. */
  lemma FolderKeyUsesWholeKey(normalized: string, fallback: string)
    requires normalized != ""
    ensures KeyBelowFolder(normalized + "/", normalized) == ""
    ensures SanitizedPath(normalized + "/") != "" ==>
      ResolveRelativePath(normalized + "/", normalized, fallback) == SanitizedPath(normalized + "/")
  {
    assert SanitizedPath("") == "" by {
      SanitizedClean("");
      assert ReplaceChar("", '\\', '/') == "";
    }
  }

  /** The hashed fallback name is a single clean segment. */
  lemma HashedNameClean(key: string)
    ensures CleanPath(HashedNamePrefix + HashHex(key))
  {
    var h := HashHex(key);
    var r := HashedNamePrefix + h;
    HashHexShape(key);
    assert '/' !in r && '\\' !in r by {
      forall i | 0 <= i < |r| ensures r[i] != '/' && r[i] != '\\' {
        if i >= |HashedNamePrefix| {
          assert r[i] == h[i - |HashedNamePrefix|];
        }
      }
    }
    SplitNoSeparator(r, '/');
  }

  /** Every relative path that goes into the archive is clean. */
  lemma ResolvedClean(key: string, normalized: string, fallback: string)
    ensures CleanPath(ResolveRelativePath(key, normalized, fallback))
  {
    var relative := KeyBelowFolder(key, normalized);
    if SanitizedPath(relative) != "" {
      SanitizedClean(relative);
    } else if SanitizedPath(key) != "" {
      SanitizedClean(key);
    } else if SanitizedPath(fallback) != "" {
      SanitizedClean(fallback);
    } else {
      HashedNameClean(key);
    }
  }

  /** buildZipFilePath */
  function ZipFilePath(root: string, relative: string): string
  {
    if relative != "" then root + "/" + relative else root
  }

  /** buildZipDirectoryPath */
  function ZipDirectoryPath(root: string, relative: string): string
  {
    if relative == "" then root + "/" else root + "/" + relative + "/"
  }

  /** A directory name ends with `/`, a file name with a clean relative path does not, and a
      file sits directly inside the directory entry of its parent path. */
  lemma ZipPathsNest(root: string, segments: seq<string>)
    requires |segments| >= 1 && forall i :: 0 <= i < |segments| ==> |segments[i]| > 0
    ensures var parent := Join(segments[..|segments| - 1], '/');
      && ZipDirectoryPath(root, parent)[|ZipDirectoryPath(root, parent)| - 1] == '/'
      && ZipFilePath(root, Join(segments, '/')) == ZipDirectoryPath(root, parent) + segments[|segments| - 1]
    ensures '/' !in segments[|segments| - 1] ==>
      ZipFilePath(root, Join(segments, '/'))[|ZipFilePath(root, Join(segments, '/'))| - 1] != '/'
  {
    var last := segments[|segments| - 1];
    var parent := Join(segments[..|segments| - 1], '/');
    if |segments| >= 2 {
      JoinLast(segments, '/');
      assert parent != "" by {
        var init := segments[..|segments| - 1];
        assert |init[0]| > 0;
        if |init| > 1 {
          assert Join(init, '/') == init[0] + ['/'] + Join(init[1..], '/');
        }
      }
    }
    assert last[|last| - 1] in last;
  }

  // ---- Archive entries ----

  /** `current ? `${current}/${segment}` : segment` */
  function Step(current: string, segment: string): string
  {
    if current != "" then current + "/" + segment else segment
  }

  /** The value of `current` after the loop has taken the given segments. */
  function Current(segments: seq<string>): string
  {
    if segments == [] then "" else Step(Current(segments[..|segments| - 1]), segments[|segments| - 1])
  }

  /** With non-empty segments, `current` is the `/`-join of the segments taken so far. */
  lemma {:induction false} CurrentIsJoin(segments: seq<string>)
    requires forall i :: 0 <= i < |segments| ==> |segments[i]| > 0
    ensures Current(segments) == Join(segments, '/')
    ensures segments != [] ==> Current(segments) != ""
  {
    if segments != [] {
      var init := segments[..|segments| - 1];
      CurrentIsJoin(init);
      if |segments| >= 2 {
        JoinLast(segments, '/');
      }
    }
  }

  /** The proper ancestors of a relative path: the `/`-joins of its first k segments for
      every k below the segment count. */
  ghost function ProperAncestors(relative: string): set<string>
  {
    var parts := Split(relative, '/');
    set k | 1 <= k < |parts| :: Join(parts[..k], '/')
  }

  /** The `/`-joins of the first k parts, for k from 1 to n. */
  ghost function PrefixJoins(parts: seq<string>, n: nat): set<string>
    requires n <= |parts|
  {
    set k | 1 <= k <= n :: Join(parts[..k], '/')
  }

  lemma PrefixJoinsStep(parts: seq<string>, n: nat)
    requires n < |parts|
    ensures PrefixJoins(parts, n + 1) == PrefixJoins(parts, n) + {Join(parts[..n + 1], '/')}
  {
  }

  /** One turn of the loop: `current` grows by the next segment and is then the join of
      the parts taken so far. */
  lemma AncestorStep(parts: seq<string>, i: nat)
    requires i < |parts| - 1
    requires forall j :: 0 <= j < |parts| ==> |parts[j]| > 0
    ensures var segments := parts[..|parts| - 1];
      Step(Current(segments[..i]), segments[i]) == Current(segments[..i + 1]) == Join(parts[..i + 1], '/')
  {
    var segments := parts[..|parts| - 1];
    var taken := segments[..i + 1];
    assert taken[..i] == segments[..i] && taken[i] == segments[i];
    assert taken == parts[..i + 1];
    assert forall j :: 0 <= j < |taken| ==> |taken[j]| > 0 by {
      forall j | 0 <= j < |taken| ensures |taken[j]| > 0 {
        assert taken[j] == parts[j];
      }
    }
    CurrentIsJoin(taken);
  }

  /** The directory loop for one file: every prefix chain of its parent segments is added. */
  method AddAncestors(directories: set<string>, relative: string) returns (result: set<string>)
    requires CleanPath(relative)
    ensures result == directories + ProperAncestors(relative)
  {
    var parts := Split(relative, '/');
    var segments := parts[..|parts| - 1];
    var current := "";
    result := directories;
    for i := 0 to |segments|
      invariant current == Current(segments[..i])
      invariant result == directories + PrefixJoins(parts, i)
    {
      AncestorStep(parts, i);
      current := if current != "" then current + "/" + segments[i] else segments[i];
      result := result + {current};
      PrefixJoinsStep(parts, i);
    }
    assert PrefixJoins(parts, |segments|) == ProperAncestors(relative);
  }

  /** The directory entry for a path of the directory set. */
  function DirectoryEntryFor(root: string, path: string, now: int): ZipEntry
  {
    ZipEntry(DirectoryEntry, ZipDirectoryPath(root, path), 0, Int(now))
  }

  function DirectoryEntries(root: string, paths: seq<string>, now: int): (r: seq<ZipEntry>)
    ensures |r| == |paths|
    ensures forall i :: 0 <= i < |r| ==> r[i] == DirectoryEntryFor(root, paths[i], now)
  {
    if paths == [] then [] else [DirectoryEntryFor(root, paths[0], now)] + DirectoryEntries(root, paths[1..], now)
  }

  predicate NameLe(a: ZipEntry, b: ZipEntry) { LexLe(a.name, b.name) }

  lemma NameLeIsTotalPreorder()
    ensures TotalPreorder(NameLe)
  {
    forall a: ZipEntry, b: ZipEntry ensures NameLe(a, b) || NameLe(b, a) {
      LexLeTotal(a.name, b.name);
    }
    forall a: ZipEntry, b: ZipEntry, c: ZipEntry | NameLe(a, b) && NameLe(b, c) ensures NameLe(a, c) {
      LexLeTransitive(a.name, b.name, c.name);
    }
  }

  /** normalizeTimestamp */
  function NormalizeTimestamp(value: int, now: int): (r: int)
    ensures value > 0 ==> r == value
    ensures value <= 0 ==> r == now
  {
    if value <= 0 then now else value
  }

  /** A file found in storage, as the archive loop records it. */
  datatype ArchivedFile = ArchivedFile(key: string, relative: string, entry: ZipEntry)

  /** The fileKeys of a share after removeMissingFileFromShare for each key of `keys` that
      storage does not hold, in order. */
  function DropMissing(fileKeys: seq<string>, keys: seq<string>, stored: map<string, StoredFile>): seq<string>
  {
    if keys == [] then fileKeys
    else
      var prev := DropMissing(fileKeys, keys[..|keys| - 1], stored);
      var key := keys[|keys| - 1];
      if key in stored then prev else RemoveFirst(prev, key)
  }

  lemma {:induction false} DropMissingNoDuplicates(fileKeys: seq<string>, keys: seq<string>, stored: map<string, StoredFile>)
    requires NoDuplicates(fileKeys)
    ensures NoDuplicates(DropMissing(fileKeys, keys, stored))
  {
    if keys != [] {
      DropMissingNoDuplicates(fileKeys, keys[..|keys| - 1], stored);
      RemoveFirstNoDuplicates(DropMissing(fileKeys, keys[..|keys| - 1], stored), keys[|keys| - 1]);
    }
  }

  /** The share table with the given download share's keys replaced. */
  function WithFileKeys(m: Table, token: string, keys: seq<string>): Table
  {
    if token in m && m[token].Download? then m[token := m[token].(fileKeys := keys)] else m
  }

  /** The table after removeMissingFileFromShare: the download share loses the first copy
      of the key; any other table is unchanged. */
  function WithoutMissing(m: Table, token: string, key: string): Table
  {
    if token in m && m[token].Download? then WithFileKeys(m, token, RemoveFirst(m[token].fileKeys, key)) else m
  }

  /** The table after the archive loop has visited the keys: one removal per missing key. */
  function SharesAfter(m: Table, token: string, keys: seq<string>, stored: map<string, StoredFile>): Table
  {
    if keys == [] then m
    else
      var prev := SharesAfter(m, token, keys[..|keys| - 1], stored);
      var key := keys[|keys| - 1];
      if key in stored then prev else WithoutMissing(prev, token, key)
  }

  /** The loop's removals leave the download share with DropMissing of its keys and change
      nothing else. */
  lemma {:induction false} SharesAfterDrops(m: Table, token: string, keys: seq<string>, stored: map<string, StoredFile>)
    ensures token in m && m[token].Download? ==>
      SharesAfter(m, token, keys, stored) == WithFileKeys(m, token, DropMissing(m[token].fileKeys, keys, stored))
    ensures !(token in m && m[token].Download?) ==> SharesAfter(m, token, keys, stored) == m
  {
    if keys != [] {
      var init := keys[..|keys| - 1];
      var key := keys[|keys| - 1];
      SharesAfterDrops(m, token, init, stored);
      if token in m && m[token].Download? {
        var dropped := DropMissing(m[token].fileKeys, init, stored);
        var prev := WithFileKeys(m, token, dropped);
        assert prev[token].fileKeys == dropped;
        if key !in stored {
          WithFileKeysTwice(m, token, dropped, RemoveFirst(dropped, key));
        }
      }
    }
  }

  /** removeMissingFileFromShare: the first occurrence of the key leaves the share, in the
      table only (nothing is persisted). */
  method RemoveMissingFileFromShare(registry: ShareRegistry, token: string, key: string)
    requires registry.Valid()
    modifies registry
    ensures registry.Valid() && registry.order == old(registry.order)
    ensures registry.persisted == old(registry.persisted)
    ensures registry.shares == WithoutMissing(old(registry.shares), token, key)
  {
    if token in registry.shares && registry.shares[token].Download? {
      var share := registry.shares[token];
      RemoveFirstNoDuplicates(share.fileKeys, key);
      registry.shares := registry.shares[token := share.(fileKeys := RemoveFirst(share.fileKeys, key))];
    }
  }

  /** The record the loop makes for a key that storage holds. */
  function ArchivedFor(key: string, file: StoredFile, root: string, normalized: string, now: int): (r: ArchivedFile)
    ensures r.key == key && r.entry.kind == FileEntry
    ensures r.entry.name == ZipFilePath(root, r.relative)
  {
    var relative := ResolveRelativePath(key, normalized, file.name);
    ArchivedFile(key, relative,
      ZipEntry(FileEntry, ZipFilePath(root, relative), file.size, Int(NormalizeTimestamp(file.lastModified, now))))
  }

  /** A recorded relative path is clean. */
  lemma ArchivedForClean(key: string, file: StoredFile, root: string, normalized: string, now: int)
    ensures CleanPath(ArchivedFor(key, file, root, normalized, now).relative)
  {
    ResolvedClean(key, normalized, file.name);
  }

  /** The keys that storage holds, in order. */
  function StoredKeys(keys: seq<string>, stored: map<string, StoredFile>): (r: seq<string>)
    ensures forall k :: k in r <==> k in keys && k in stored
  {
    if keys == [] then []
    else
      var init := keys[..|keys| - 1];
      var key := keys[|keys| - 1];
      assert keys == init + [key];
      StoredKeys(init, stored) + (if key in stored then [key] else [])
  }

  /** One record per present key, in order. */
  function RecordsOf(present: seq<string>, stored: map<string, StoredFile>,
                     make: (string, StoredFile) -> ArchivedFile): (r: seq<ArchivedFile>)
    requires forall k :: k in present ==> k in stored
    ensures |r| == |present|
    ensures forall i :: 0 <= i < |r| ==> r[i] == make(present[i], stored[present[i]])
  {
    seq(|present|, i requires 0 <= i < |present| => make(present[i], stored[present[i]]))
  }

  /** A record for one more present key goes at the end. */
  lemma RecordsOfAppend(present: seq<string>, key: string, stored: map<string, StoredFile>,
                        make: (string, StoredFile) -> ArchivedFile)
    requires forall k :: k in present ==> k in stored
    requires key in stored
    ensures RecordsOf(present + [key], stored, make) == RecordsOf(present, stored, make) + [make(key, stored[key])]
  {
    var next := RecordsOf(present + [key], stored, make);
    var expected := RecordsOf(present, stored, make) + [make(key, stored[key])];
    forall j | 0 <= j < |next| ensures next[j] == expected[j] {
      assert (present + [key])[j] == if j < |present| then present[j] else key;
    }
  }

  /** The records the loop makes, in key order: one for each key that storage holds. */
  function ArchivedFiles(keys: seq<string>, stored: map<string, StoredFile>, root: string,
                         normalized: string, now: int): seq<ArchivedFile>
  {
    if keys == [] then []
    else
      var key := keys[|keys| - 1];
      ArchivedFiles(keys[..|keys| - 1], stored, root, normalized, now)
      + (if key in stored then [ArchivedFor(key, stored[key], root, normalized, now)] else [])
  }

  /** The records are the record of each stored key, in order. */
  lemma {:induction false} ArchivedFilesAsRecords(keys: seq<string>, stored: map<string, StoredFile>, root: string,
                                                  normalized: string, now: int)
    ensures ArchivedFiles(keys, stored, root, normalized, now)
            == RecordsOf(StoredKeys(keys, stored), stored, (k, f) => ArchivedFor(k, f, root, normalized, now))
  {
    if keys != [] {
      var init := keys[..|keys| - 1];
      var key := keys[|keys| - 1];
      ArchivedFilesAsRecords(init, stored, root, normalized, now);
      var before := StoredKeys(init, stored);
      if key in stored {
        RecordsOfAppend(before, key, stored, (k, f) => ArchivedFor(k, f, root, normalized, now));
      }
    }
  }

  /** Record i is the record of the i-th stored key. */
  lemma ArchivedFileAt(keys: seq<string>, stored: map<string, StoredFile>, root: string,
                       normalized: string, now: int, i: nat)
    requires i < |StoredKeys(keys, stored)|
    ensures |ArchivedFiles(keys, stored, root, normalized, now)| == |StoredKeys(keys, stored)|
    ensures var present := StoredKeys(keys, stored);
      && present[i] in keys && present[i] in stored
      && ArchivedFiles(keys, stored, root, normalized, now)[i] == ArchivedFor(present[i], stored[present[i]], root, normalized, now)
  {
    var present := StoredKeys(keys, stored);
    ArchivedFilesAsRecords(keys, stored, root, normalized, now);
    assert present[i] in present;
  }

  /** Every record is the record of a stored key among the keys, so it is a file entry. */
  lemma ArchivedFilesRecords(keys: seq<string>, stored: map<string, StoredFile>, root: string,
                             normalized: string, now: int)
    ensures var r := ArchivedFiles(keys, stored, root, normalized, now);
      forall i :: 0 <= i < |r| ==>
        && r[i].key in keys && r[i].key in stored && r[i].entry.kind == FileEntry
        && r[i] == ArchivedFor(r[i].key, stored[r[i].key], root, normalized, now)
  {
    var r := ArchivedFiles(keys, stored, root, normalized, now);
    ArchivedFilesAsRecords(keys, stored, root, normalized, now);
    forall i | 0 <= i < |r|
      ensures && r[i].key in keys && r[i].key in stored && r[i].entry.kind == FileEntry
              && r[i] == ArchivedFor(r[i].key, stored[r[i].key], root, normalized, now)
    {
      ArchivedFileAt(keys, stored, root, normalized, now, i);
    }
  }

  /** Every stored key among the keys has a record. */
  lemma ArchivedFilesCover(keys: seq<string>, stored: map<string, StoredFile>, root: string,
                           normalized: string, now: int)
    ensures var r := ArchivedFiles(keys, stored, root, normalized, now);
      forall k :: k in keys && k in stored ==> exists i :: 0 <= i < |r| && r[i].key == k
  {
    var present := StoredKeys(keys, stored);
    var r := ArchivedFiles(keys, stored, root, normalized, now);
    ArchivedFilesAsRecords(keys, stored, root, normalized, now);
    forall k | k in keys && k in stored ensures exists i :: 0 <= i < |r| && r[i].key == k {
      var i :| 0 <= i < |present| && present[i] == k;
      ArchivedFileAt(keys, stored, root, normalized, now, i);
      assert r[i].key == k;
    }
  }

  /** The loop records nothing exactly when no key is stored. */
  lemma ArchivedFilesEmpty(keys: seq<string>, stored: map<string, StoredFile>, root: string,
                           normalized: string, now: int)
    ensures ArchivedFiles(keys, stored, root, normalized, now) == [] <==> forall k :: k in keys ==> k !in stored
  {
    var present := StoredKeys(keys, stored);
    ArchivedFilesAsRecords(keys, stored, root, normalized, now);
    if present != [] {
      assert present[0] in present;
    }
  }

  /** One more key in the loop: a stored key adds its record, a missing one adds nothing. */
  lemma ArchivedFilesLast(keys: seq<string>, i: nat, stored: map<string, StoredFile>, root: string,
                          normalized: string, now: int)
    requires i < |keys|
    ensures ArchivedFiles(keys[..i + 1], stored, root, normalized, now)
            == ArchivedFiles(keys[..i], stored, root, normalized, now)
               + (if keys[i] in stored then [ArchivedFor(keys[i], stored[keys[i]], root, normalized, now)] else [])
  {
    assert keys[..i + 1][..i] == keys[..i];
  }

  /** The directory set the loop builds: `""` and every proper ancestor of every recorded
      relative path. */
  ghost function ArchiveDirectories(files: seq<ArchivedFile>): (r: set<string>)
    ensures "" in r
    ensures forall f :: f in files ==> ProperAncestors(f.relative) <= r
    ensures forall d :: d in r ==> d == "" || exists f :: f in files && d in ProperAncestors(f.relative)
  {
    if files == [] then {""}
    else
      var init := files[..|files| - 1];
      assert files == init + [files[|files| - 1]];
      ArchiveDirectories(init) + ProperAncestors(files[|files| - 1].relative)
  }

  lemma ArchiveDirectoriesLast(files: seq<ArchivedFile>, added: ArchivedFile)
    ensures ArchiveDirectories(files + [added]) == ArchiveDirectories(files) + ProperAncestors(added.relative)
  {
    assert (files + [added])[..|files|] == files;
  }

  /** Revoking a share forgets any replacement of its keys. */
  lemma WithFileKeysRemoved(m: Table, token: string, keys: seq<string>)
    ensures WithFileKeys(m, token, keys) - {token} == m - {token}
  {
  }

  /** A second replacement of a share's keys overrides the first. */
  lemma WithFileKeysTwice(m: Table, token: string, a: seq<string>, b: seq<string>)
    requires token in m && m[token].Download?
    ensures WithFileKeys(WithFileKeys(m, token, a), token, b) == WithFileKeys(m, token, b)
  {
    var share := m[token];
    var middle := m[token := share.(fileKeys := a)];
    assert WithFileKeys(m, token, a) == middle;
    assert middle[token].(fileKeys := b) == share.(fileKeys := b);
  }

  /** One stored file in the loop: its record is appended and the proper ancestors of its
      relative path join the directory set. */
  method AddArchivedFile(files: seq<ArchivedFile>, directories: set<string>, key: string, file: StoredFile,
                         root: string, normalized: string, now: int)
    returns (nextFiles: seq<ArchivedFile>, nextDirectories: set<string>)
    ensures nextFiles == files + [ArchivedFor(key, file, root, normalized, now)]
    ensures nextDirectories == directories + ProperAncestors(ArchivedFor(key, file, root, normalized, now).relative)
  {
    var added := ArchivedFor(key, file, root, normalized, now);
    ArchivedForClean(key, file, root, normalized, now);
    nextFiles := files + [added];
    nextDirectories := AddAncestors(directories, added.relative);
  }

  /** The file loop of respondWithFolderArchive: keys missing from storage are removed from
      the share; every other key gives a file entry `root/relative` and adds the proper
      ancestors of its relative path to the directory set, which starts as {""}. */
  method CollectArchiveFiles(registry: ShareRegistry, token: string, keys: seq<string>,
                             stored: map<string, StoredFile>, root: string, normalized: string, now: int)
    returns (files: seq<ArchivedFile>, directories: set<string>)
    requires registry.Valid()
    modifies registry
    ensures registry.Valid() && registry.order == old(registry.order)
    ensures registry.persisted == old(registry.persisted)
    ensures token in old(registry.shares) && old(registry.shares)[token].Download? ==>
      registry.shares == WithFileKeys(old(registry.shares), token, DropMissing(old(registry.shares)[token].fileKeys, keys, stored))
    ensures !(token in old(registry.shares) && old(registry.shares)[token].Download?) ==> registry.shares == old(registry.shares)
    ensures files == ArchivedFiles(keys, stored, root, normalized, now)
    ensures directories == ArchiveDirectories(files)
  {
    files := [];
    directories := {""};
    ghost var start := registry.shares;
    for i := 0 to |keys|
      invariant registry.Valid() && registry.order == old(registry.order)
      invariant registry.persisted == old(registry.persisted)
      invariant start == old(registry.shares)
      invariant registry.shares == SharesAfter(start, token, keys[..i], stored)
      invariant files == ArchivedFiles(keys[..i], stored, root, normalized, now)
      invariant directories == ArchiveDirectories(files)
    {
      var key := keys[i];
      ArchivedFilesLast(keys, i, stored, root, normalized, now);
      assert keys[..i + 1][..i] == keys[..i];
      if key !in stored {
        RemoveMissingFileFromShare(registry, token, key);
        continue;
      }
      ArchiveDirectoriesLast(files, ArchivedFor(key, stored[key], root, normalized, now));
      files, directories := AddArchivedFile(files, directories, key, stored[key], root, normalized, now);
    }
    assert keys[..|keys|] == keys;
    SharesAfterDrops(start, token, keys, stored);
  }

  function EntriesOf(files: seq<ArchivedFile>): (r: seq<ZipEntry>)
    ensures |r| == |files|
    ensures forall i :: 0 <= i < |r| ==> r[i] == files[i].entry
  {
    if files == [] then [] else [files[0].entry] + EntriesOf(files[1..])
  }

  /** The entry list: directory entries for the sorted directory set, then the file entries
      sorted by name. */
  function ArchiveEntries(root: string, directories: seq<string>, files: seq<ArchivedFile>, now: int): (r: seq<ZipEntry>)
    requires forall i :: 0 <= i < |files| ==> files[i].entry.kind == FileEntry
    ensures |r| == |directories| + |files|
    ensures forall i :: 0 <= i < |directories| ==> r[i] == DirectoryEntryFor(root, SortStrings(directories)[i], now)
    ensures forall i :: |directories| <= i < |r| ==> r[i].kind == FileEntry
    ensures multiset(r[|directories|..]) == multiset(EntriesOf(files))
    ensures forall i, j :: |directories| <= i < j < |r| ==> LexLe(r[i].name, r[j].name)
  {
    var dirs := DirectoryEntries(root, SortStrings(directories), now);
    var entries := EntriesOf(files);
    var sorted := SortByName(entries);
    SameMembers(sorted, entries);
    assert forall i :: 0 <= i < |sorted| ==> sorted[i].kind == FileEntry by {
      forall i | 0 <= i < |sorted| ensures sorted[i].kind == FileEntry {
        assert sorted[i] in entries;
      }
    }
    assert (dirs + sorted)[|directories|..] == sorted;
    dirs + sorted
  }

  /** File entries sorted by name: an ordered permutation. */
  function SortByName(entries: seq<ZipEntry>): (r: seq<ZipEntry>)
    ensures |r| == |entries|
    ensures multiset(r) == multiset(entries)
    ensures forall i, j :: 0 <= i < j < |r| ==> LexLe(r[i].name, r[j].name)
  {
    NameLeIsTotalPreorder();
    SortSorted(entries, NameLe);
    Sort(entries, NameLe)
  }

  /** The share root: the folder's last segment, or `share-` and the token's first eight
      characters, sanitised; the `share-…` form again when sanitising leaves nothing. */
  function ArchiveRootName(normalized: string, token: string): (r: string)
    ensures r != ""
  {
    var fallback := "share-" + token[..Min(8, |token|)];
    var raw := if normalized != "" then Split(normalized, '/')[|Split(normalized, '/')| - 1] else fallback;
    var clean := SanitizedPath(raw);
    if clean != "" then clean else fallback
  }

  datatype ArchiveResult =
    | ArchiveFailed(message: string)
    | ArchiveUnavailable(message: string)
    | ArchiveReady(root: string, directories: seq<string>, entries: seq<ZipEntry>, totalSize: nat, head: ResponseHead)

  /** respondWithFolderArchive for a download share, up to the response head. */
  method RespondWithFolderArchive(registry: ShareRegistry, token: string, folder: string,
                                  stored: map<string, StoredFile>, isHead: bool,
                                  rangeHeader: Option<string>, now: int)
    returns (r: ArchiveResult)
    requires registry.Valid()
    requires token in registry.shares && registry.shares[token].Download?
    modifies registry
    ensures registry.Valid() && registry.order == old(registry.order)
    ensures NormalizeFolderPath(folder).Err? ==>
      r == ArchiveFailed("Invalid folder path.") && registry.shares == old(registry.shares)
      && registry.persisted == old(registry.persisted)
    ensures NormalizeFolderPath(folder).Ok? ==>
      var normalized := NormalizeFolderPath(folder).value;
      var keys := CollectKeysForFolder(old(registry.shares)[token].fileKeys, normalized);
      var root := ArchiveRootName(normalized, token);
      var files := ArchivedFiles(keys, stored, root, normalized, now);
      && (keys == [] <==> r == ArchiveUnavailable("Folder not found or contains no files."))
      && (keys == [] ==> registry.shares == old(registry.shares) && registry.persisted == old(registry.persisted))
      && (keys != [] && files == [] <==> r == ArchiveUnavailable("All shared files were removed."))
      && (keys != [] && files == [] ==> registry.shares == old(registry.shares) - {token} && registry.persisted == registry.shares)
      && (keys != [] && files != [] <==> r.ArchiveReady?)
      && (r.ArchiveReady? ==>
            && registry.shares == WithFileKeys(old(registry.shares), token, DropMissing(old(registry.shares)[token].fileKeys, keys, stored))
            && r.root == root
            && NoDuplicates(r.directories)
            && (forall d :: d in r.directories <==> d in ArchiveDirectories(files))
            && (forall i :: 0 <= i < |files| ==> files[i].entry.kind == FileEntry)
            && r.entries == ArchiveEntries(root, r.directories, files, now))
    ensures r.ArchiveReady? ==>
      && registry.persisted == old(registry.persisted)
      && r.totalSize == ZipSize(r.entries)
      && r.head == ArchiveResponseHead(isHead, rangeHeader, r.totalSize)
      && |r.entries| >= 2
      && r.entries[0] == DirectoryEntryFor(r.root, "", now)
      && r.entries[|r.entries| - 1].kind == FileEntry
  {
    var normalizedResult := NormalizeFolderPath(folder);
    if normalizedResult.Err? {
      return ArchiveFailed(normalizedResult.message);
    }
    var normalized := normalizedResult.value;
    var matchingKeys := CollectKeysForFolder(registry.shares[token].fileKeys, normalized);
    if |matchingKeys| == 0 {
      return ArchiveUnavailable("Folder not found or contains no files.");
    }
    var root := ArchiveRootName(normalized, token);
    var files, directories := CollectArchiveFiles(registry, token, matchingKeys, stored, root, normalized, now);
    ArchivedFilesEmpty(matchingKeys, stored, root, normalized, now);
    if |files| == 0 {
      WithFileKeysRemoved(old(registry.shares), token, DropMissing(old(registry.shares)[token].fileKeys, matchingKeys, stored));
      registry.RemoveShare(token);
      return ArchiveUnavailable("All shared files were removed.");
    }
    var directoryList := SetToSeq(directories);
    ArchivedFilesRecords(matchingKeys, stored, root, normalized, now);
    var entries := ArchiveEntries(root, directoryList, files, now);
    var totalSize := CalculateZipSize(entries);
    LeastIsEmpty(directoryList);
    return ArchiveReady(root, directoryList, entries, totalSize, ArchiveResponseHead(isHead, rangeHeader, totalSize));
  }

  /** `Array.from(set)`: the set's elements, each once. */
  method SetToSeq(s: set<string>) returns (r: seq<string>)
    ensures forall x :: x in r <==> x in s
    ensures NoDuplicates(r)
  {
    r := [];
    var rest := s;
    while rest != {}
      invariant forall x :: x in r <==> x in s && x !in rest
      invariant rest <= s
      invariant NoDuplicates(r)
      decreases |rest|
    {
      var x :| x in rest;
      r := r + [x];
      rest := rest - {x};
    }
  }

  /** The empty path sorts first, so the root directory entry leads the archive. */
  lemma LeastIsEmpty(paths: seq<string>)
    requires "" in paths
    ensures |SortStrings(paths)| == |paths| && SortStrings(paths)[0] == ""
  {
    var sorted := SortStrings(paths);
    assert "" in multiset(sorted);
    var i :| 0 <= i < |sorted| && sorted[i] == "";
    if i > 0 {
      LexLeAntisymmetric(sorted[0], "");
    }
  }
}
