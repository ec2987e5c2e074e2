/** upload.tsx: the upload share's action. A resumable request (X-Upload-Mode: resumable)
    carries one chunk: it is validated, checked against the share's quota and the staged
    metadata, written to the staging slot, and the file is delivered once the last chunk has
    arrived. A multipart request carries whole files, checked against the quota together. */
module Upload {
  import opened Wrappers
  import opened Strings
  import opened JsNumbers
  import opened Unicode
  import opened Forms
  import opened ShareStore
  import opened Uploads
  import opened Resumable

  /** The answers of the action. Messages built with formatBytes carry the number instead. */
  datatype UploadReply =
    | Unavailable(message: string)
    | JsonError(status: int, error: string, completed: bool)
    | RemainingOnly(remaining: int)
    | ChunkStored(uploadOffset: int, uploadLength: int)
    | Uploaded(displayName: string, size: int, closed: bool)
    | Refused(error: string)
    | RefusedRemaining(remaining: int)
    | Delivered(fileCount: nat, totalBytes: nat, folderCount: nat, skipped: nat, closed: bool)

  /** The headers and body of a resumable request; a header is None when absent. */
  datatype ChunkHeaders = ChunkHeaders(
    httpMethod: string,
    uploadId: Option<string>,
    contentRange: Option<string>,
    fileSize: Option<string>,
    fileName: Option<string>,
    relativePath: Option<string>,
    fileType: Option<string>,
    lastModified: Option<string>,
    body: seq<Byte>)

  /** What the validation steps establish about a chunk. */
  datatype ChunkRequest = ChunkRequest(
    uploadId: string,
    range: ContentRange,
    totalSize: int,
    fileName: string,
    relativePath: string,
    fileType: string,
    lastModified: int)

  datatype Checked = Refuse(status: int, error: string) | Chunk(request: ChunkRequest)

  /** `header ? Number.parseInt(header, 10) : Number.NaN` */
  function HeaderNumber(header: Option<string>): Number
  {
    if header.Some? && header.value != "" then ParseInt(header.value, 10) else NaN
  }

  /** `decodeUploadHeader(header) ?? fallback` */
  function HeaderText(header: Option<string>, fallback: string): string
  {
    var decoded := DecodeUploadHeader(header);
    if decoded.Some? then decoded.value else fallback
  }

  /** The range a chunk without Content-Range stands for: the whole body. */
  function WholeBody(length: nat, totalSize: int): ContentRange
  {
    ContentRange(0, if length > 0 then length - 1 else -1, totalSize)
  }

  /** The range checks of handleResumableUpload: without Content-Range the body must be
      the whole file; the range must be of the declared size, not empty, and match the
      body's length. */
  function ChunkRange(parsedRange: Option<ContentRange>, bodyLength: nat, totalSize: int): (r: Result<ContentRange>)
    requires parsedRange.Some? ==> 0 <= parsedRange.value.start <= parsedRange.value.end
    ensures r.Ok? ==>
      && r.value.total == totalSize
      && 0 <= r.value.start <= r.value.end
      && bodyLength == r.value.end - r.value.start + 1
      && (parsedRange.None? ==> r.value.start == 0 && bodyLength == totalSize)
      && (parsedRange.Some? ==> r.value == parsedRange.value)
  {
    if parsedRange.None? && bodyLength != totalSize then Err("Missing content range metadata.")
    else
      var range := if parsedRange.Some? then parsedRange.value else WholeBody(bodyLength, totalSize);
      if totalSize != range.total then Err("Chunk size mismatch.")
      else
        var chunkLength := range.end - range.start + 1;
        if chunkLength <= 0 then Err("Empty chunk received.")
        else if bodyLength != chunkLength then Err("Chunk payload mismatch.")
        else Ok(range)
  }

  /** The validation steps of handleResumableUpload, in order, up to the quota check.
      HTTP methods are ASCII tokens, so ASCII lower-casing decides `toUpperCase() === 'POST'`.
      `now` is the clock, which is past 1970. */
  function CheckChunk(h: ChunkHeaders, now: int): (r: Checked)
    requires now > 0
    ensures r.Chunk? ==>
      var c := r.request;
      && c.uploadId != "" && c.uploadId == SanitizeSegment(h.uploadId)
      && c.totalSize > 0 && HeaderNumber(h.fileSize) == Int(c.totalSize)
      && c.range.total == c.totalSize
      && 0 <= c.range.start <= c.range.end
      && |h.body| == c.range.end - c.range.start + 1
      && (ParseContentRange(h.contentRange).None? ==> c.range.start == 0 && |h.body| == c.totalSize)
      && (ParseContentRange(h.contentRange).Some? ==> c.range == ParseContentRange(h.contentRange).value)
      && c.lastModified > 0
    ensures r.Refuse? ==> r.status == 400 || r.status == 405
  {
    if ToLowerAscii(h.httpMethod) != "post" then Refuse(405, "Method not allowed.")
    else
      var uploadId := SanitizeSegment(h.uploadId);
      if uploadId == "" then Refuse(400, "Missing upload identifier.")
      else
        var parsedRange := ParseContentRange(h.contentRange);
        var totalSize := HeaderNumber(h.fileSize);
        if !IsFinite(totalSize) || totalSize.value <= 0 then Refuse(400, "Invalid file size.")
        else
          var fileName := HeaderText(h.fileName, "upload.bin");
          var relativePath := HeaderText(h.relativePath, "");
          var fileType := HeaderText(h.fileType, "application/octet-stream");
          var lastModifiedHeader := HeaderNumber(h.lastModified);
          var lastModified := if !IsFinite(lastModifiedHeader) || lastModifiedHeader.value <= 0 then now else lastModifiedHeader.value;
          match ChunkRange(parsedRange, |h.body|, totalSize.value)
          case Err(error) => Refuse(400, error)
          case Ok(range) => Chunk(ChunkRequest(uploadId, range, totalSize.value, fileName, relativePath, fileType, lastModified))
  }

  /** Before any chunk is looked at, a POST without a usable upload id, or without a
      positive X-File-Size, is refused with 400. */
  lemma CheckChunkIdentityFirst(h: ChunkHeaders, now: int)
    requires ToLowerAscii(h.httpMethod) == "post" && now > 0
    ensures SanitizeSegment(h.uploadId) == "" ==> CheckChunk(h, now) == Refuse(400, "Missing upload identifier.")
    ensures SanitizeSegment(h.uploadId) != "" && !(HeaderNumber(h.fileSize).Int? && HeaderNumber(h.fileSize).value > 0)
            ==> CheckChunk(h, now) == Refuse(400, "Invalid file size.")
  {
  }

  /** A POST with a good upload id, X-File-Size n and no Content-Range is accepted exactly
      when its body has n bytes, as the range [0, n-1] of n. */
  lemma CheckChunkWholeBody(h: ChunkHeaders, n: nat, now: int)
    requires ToLowerAscii(h.httpMethod) == "post" && SanitizeSegment(h.uploadId) != ""
    requires h.fileSize == Some(NatToString(n, 10)) && n > 0
    requires h.contentRange.None? && now > 0
    ensures CheckChunk(h, now).Chunk? <==> |h.body| == n
    ensures |h.body| == n ==> CheckChunk(h, now).request.range == ContentRange(0, n - 1, n)
  {
    HeaderNumberFormatted(n);
    assert ParseContentRange(h.contentRange) == None;
    WholeBodyRange(|h.body|, n);
  }

  /** Without Content-Range, the body is the whole file exactly when its length is the
      declared size. */
  lemma WholeBodyRange(bodyLength: nat, n: nat)
    requires n > 0
    ensures ChunkRange(None, bodyLength, n).Ok? <==> bodyLength == n
    ensures bodyLength == n ==> ChunkRange(None, bodyLength, n) == Ok(ContentRange(0, n - 1, n))
  {
  }

  /** A chunk sent with `Content-Range: bytes a-b/t`, X-File-Size n and b-a+1 bytes of
      body is accepted as the range [a, b] exactly when t is n; otherwise the size mismatch
      is reported. */
  lemma CheckChunkRanged(h: ChunkHeaders, a: nat, b: nat, t: nat, n: nat, now: int)
    requires ToLowerAscii(h.httpMethod) == "post" && SanitizeSegment(h.uploadId) != ""
    requires h.fileSize == Some(NatToString(n, 10)) && n > 0
    requires h.contentRange == Some(FormatContentRange(a, b, t)) && a <= b && t > 0
    requires |h.body| == b - a + 1 && now > 0
    ensures t == n ==> CheckChunk(h, now).Chunk? && CheckChunk(h, now).request.range == ContentRange(a, b, n)
    ensures t != n ==> CheckChunk(h, now) == Refuse(400, "Chunk size mismatch.")
  {
    HeaderNumberFormatted(n);
    ParseFormatContentRange(a, b, t);
    RangedHeaders(h, ContentRange(a, b, t), n, now);
  }

  lemma RangedHeaders(h: ChunkHeaders, range: ContentRange, n: nat, now: int)
    requires ToLowerAscii(h.httpMethod) == "post" && SanitizeSegment(h.uploadId) != ""
    requires HeaderNumber(h.fileSize) == Int(n) && n > 0
    requires ParseContentRange(h.contentRange) == Some(range) && 0 <= range.start <= range.end
    requires |h.body| == range.end - range.start + 1 && now > 0
    ensures range.total == n ==> CheckChunk(h, now).Chunk? && CheckChunk(h, now).request.range == range
    ensures range.total != n ==> CheckChunk(h, now) == Refuse(400, "Chunk size mismatch.")
  {
    var totalSize := HeaderNumber(h.fileSize);
    assert IsFinite(totalSize) && totalSize.value == n;
    RangedChecks(range, |h.body|, n);
    var checked := ChunkRange(ParseContentRange(h.contentRange), |h.body|, totalSize.value);
    assert checked == if range.total == n then Ok(range) else Err("Chunk size mismatch.");
  }

  /** The decimal text of n, sent as a header, reads as n. */
  lemma HeaderNumberFormatted(n: nat)
    ensures HeaderNumber(Some(NatToString(n, 10))) == Int(n)
  {
    ParseIntFormatted(n);
    assert NatToString(n, 10) != "";
  }

  lemma RangedChecks(range: ContentRange, bodyLength: nat, n: nat)
    requires 0 <= range.start <= range.end && bodyLength == range.end - range.start + 1
    ensures ChunkRange(Some(range), bodyLength, n) == if range.total == n then Ok(range) else Err("Chunk size mismatch.")
  {
  }

  // ---- Quota ----

  datatype Quota = WithinQuota | LimitReached | OverQuota(remaining: int)

  /** The quota check of a resumable chunk: only a first chunk (start 0) is compared with
      what remains, using the file's declared total. */
  function ChunkQuota(share: ShareRecord, start: int, totalSize: int): (q: Quota)
    ensures q.LimitReached? <==> QuotaCap(share).Some? && QuotaCap(share).value - share.uploadedBytes <= 0
    ensures q.OverQuota? ==> QuotaCap(share).Some? && q.remaining == QuotaCap(share).value - share.uploadedBytes
  {
    var cap := QuotaCap(share);
    if cap.None? then WithinQuota
    else
      var remaining := cap.value - share.uploadedBytes;
      if remaining <= 0 then LimitReached
      else if start == 0 && totalSize > remaining then OverQuota(remaining)
      else WithinQuota
  }

  /** The quota check of a multipart upload, on the summed size of its files. */
  function BatchQuota(share: ShareRecord, totalBytes: int): (q: Quota)
    ensures q.LimitReached? <==> QuotaCap(share).Some? && QuotaCap(share).value - share.uploadedBytes <= 0
    ensures q.OverQuota? ==> QuotaCap(share).Some? && q.remaining == QuotaCap(share).value - share.uploadedBytes
  {
    var cap := QuotaCap(share);
    if cap.None? then WithinQuota
    else
      var remaining := cap.value - share.uploadedBytes;
      if remaining <= 0 then LimitReached
      else if totalBytes > remaining then OverQuota(remaining)
      else WithinQuota
  }

  /** A first chunk that passes the quota comparison declares a file that fits in what remains. */
  lemma ChunkQuotaFits(share: ShareRecord, totalSize: int)
    requires ChunkQuota(share, 0, totalSize).WithinQuota? && QuotaCap(share).Some?
    ensures share.uploadedBytes + totalSize <= QuotaCap(share).value
  {
  }

  /** A later chunk is never held back by the quota while something remains. */
  lemma ChunkQuotaLaterChunks(share: ShareRecord, start: int, totalSize: int)
    requires start != 0
    ensures ChunkQuota(share, start, totalSize).WithinQuota?
            <==> !(QuotaCap(share).Some? && QuotaCap(share).value - share.uploadedBytes <= 0)
  {
  }

  /** A batch that passes the quota comparison never takes the share past its cap. */
  lemma BatchQuotaFits(share: ShareRecord, totalBytes: int)
    requires BatchQuota(share, totalBytes).WithinQuota? && QuotaCap(share).Some?
    ensures share.uploadedBytes + totalBytes <= QuotaCap(share).value
  {
  }

  // ---- Staged metadata and offsets ----

  datatype MetaStep = MetaConflict(error: string) | MetaCreate(meta: ResumableMeta) | MetaKeep(meta: ResumableMeta)

  /** The metadata step: a missing meta file is created by a first chunk only; an existing
      one must agree with the request on size and name. */
  function MetaFor(stored: Option<ResumableMeta>, c: ChunkRequest): (r: MetaStep)
    ensures r.MetaCreate? <==> stored.None? && c.range.start == 0
    ensures r.MetaCreate? ==> r.meta == ResumableMeta(c.fileName, c.fileType, c.totalSize, c.relativePath, c.lastModified, false)
    ensures r.MetaKeep? <==> stored.Some? && stored.value.size == c.totalSize && stored.value.name == c.fileName
    ensures r.MetaKeep? ==> r.meta == stored.value
    ensures !r.MetaConflict? ==> r.meta.size == c.totalSize && r.meta.name == c.fileName
  {
    if stored.None? then
      if c.range.start != 0 then MetaConflict("Upload metadata missing for chunk.")
      else MetaCreate(ResumableMeta(c.fileName, c.fileType, c.totalSize, c.relativePath, c.lastModified, false))
    else if stored.value.size != c.totalSize || stored.value.name != c.fileName then MetaConflict("Upload metadata mismatch.")
    else MetaKeep(stored.value)
  }

  /** The outcome of storing a chunk in its slot. */
  datatype Stored = StoreRefused(status: int, error: string) | StoreDone(meta: ResumableMeta, size: nat)

  function MetaOf(metas: map<string, ResumableMeta>, path: string): Option<ResumableMeta>
  {
    if path in metas then Some(metas[path]) else None
  }

  function DataOf(data: map<string, seq<Byte>>, path: string): Option<seq<Byte>>
  {
    if path in data then Some(data[path]) else None
  }

  /** The meta, offset and write steps of handleResumableUpload for one chunk, on the
      staged state before it. */
  function StoreOutcome(metas: map<string, ResumableMeta>, data: map<string, seq<Byte>>, slot: Slot,
                        c: ChunkRequest, body: seq<Byte>): Stored
  {
    match MetaFor(MetaOf(metas, slot.metaPath), c)
    case MetaConflict(error) => StoreRefused(409, error)
    case MetaCreate(meta) => WriteOutcome(meta, DataOf(data, slot.dataPath), c, body)
    case MetaKeep(meta) => WriteOutcome(meta, DataOf(data, slot.dataPath), c, body)
  }

  function WriteOutcome(meta: ResumableMeta, existing: Option<seq<Byte>>, c: ChunkRequest, body: seq<Byte>): Stored
  {
    if existing.Some? && c.range.start > |existing.value| then StoreRefused(409, "Unexpected chunk offset.")
    else
      match StagedWrite(existing, body, c.range.start)
      case Err(message) => StoreRefused(500, message)
      case Ok(after) => StoreDone(meta, |after|)
  }

  /** The staged metadata after a chunk's meta step: a first chunk for a fresh slot writes
      its metadata, even when the data step then refuses the chunk. */
  function MetasAfterChunk(metas: map<string, ResumableMeta>, slot: Slot, c: ChunkRequest): map<string, ResumableMeta>
  {
    var step := MetaFor(MetaOf(metas, slot.metaPath), c);
    if step.MetaCreate? then metas[slot.metaPath := step.meta] else metas
  }

  /** The staged data after a chunk's write: the data file becomes StagedWrite's result
      when the chunk is stored, and nothing changes when it is refused. */
  function DataAfterChunk(metas: map<string, ResumableMeta>, data: map<string, seq<Byte>>, slot: Slot,
                          c: ChunkRequest, body: seq<Byte>): map<string, seq<Byte>>
  {
    var existing := DataOf(data, slot.dataPath);
    var write := StagedWrite(existing, body, c.range.start);
    if StoreOutcome(metas, data, slot, c, body).StoreDone? && write.Ok? then data[slot.dataPath := write.value] else data
  }

  /** A refused chunk leaves the data as it was; a stored one gives the data file the
      stored size, keeps what was staged before as its prefix, and leaves every other file
      alone. */
  lemma DataAfterChunkSpec(metas: map<string, ResumableMeta>, data: map<string, seq<Byte>>, slot: Slot,
                           c: ChunkRequest, body: seq<Byte>)
    requires 0 <= c.range.start
    ensures var r := StoreOutcome(metas, data, slot, c, body);
      var after := DataAfterChunk(metas, data, slot, c, body);
      && (r.StoreRefused? ==> after == data)
      && (r.StoreDone? ==>
            && slot.dataPath in after && |after[slot.dataPath]| == r.size
            && (slot.dataPath in data ==> after[slot.dataPath][..|data[slot.dataPath]|] == data[slot.dataPath])
            && (forall p :: p != slot.dataPath ==> (p in after <==> p in data) && (p in data ==> after[p] == data[p])))
  {
    var existing := DataOf(data, slot.dataPath);
    if StagedWrite(existing, body, c.range.start).Ok? {
      StagedWriteSpec(existing, body, c.range.start);
    }
  }

  /** A stored chunk always leaves metadata that agrees with the request, and the staged
      data then reaches at least to the chunk's end; a chunk for a slot nobody started
      (no metadata) is accepted only when it is the first one. */
  lemma StoreOutcomeSpec(metas: map<string, ResumableMeta>, data: map<string, seq<Byte>>, slot: Slot,
                         c: ChunkRequest, body: seq<Byte>)
    requires 0 <= c.range.start && |body| == c.range.end - c.range.start + 1
    ensures var r := StoreOutcome(metas, data, slot, c, body);
      && (r.StoreDone? ==> r.meta.size == c.totalSize && r.meta.name == c.fileName && r.size >= c.range.end + 1)
      && (slot.metaPath !in metas && c.range.start != 0 ==> r == StoreRefused(409, "Upload metadata missing for chunk."))
  {
    var step := MetaFor(MetaOf(metas, slot.metaPath), c);
    if !step.MetaConflict? {
      var existing := DataOf(data, slot.dataPath);
      if !(existing.Some? && c.range.start > |existing.value|) && StagedWrite(existing, body, c.range.start).Ok? {
        StagedWriteSpec(existing, body, c.range.start);
      }
    }
  }

  function Min(a: int, b: int): int { if a <= b then a else b }

  /** `share.targetDirectory ?? `share/${token}`` */
  function DestinationPrefix(share: ShareRecord, token: string): string
    requires share.Upload?
  {
    if share.targetDirectory.Some? then share.targetDirectory.value else "share/" + token
  }

  /** The file delivered from the staged data. */
  function StagedFile(meta: ResumableMeta, contents: seq<Byte>): FileData
    requires meta.size >= 0
  {
    FileData(meta.name, meta.mediaType, meta.size, meta.lastModified, contents, false, false)
  }

  /** `meta.relativePath || meta.name` */
  function DisplayName(meta: ResumableMeta): string
  {
    if meta.relativePath != "" then meta.relativePath else meta.name
  }

  /** What storing an accepted chunk does, from the staged state, registry table and
      storage before it (`...0`) to those after it (`...1`): a refused write answers with
      its status; a chunk short of the end answers with the next offset; the last chunk
      delivers the staged bytes as the file when they have the declared size, and the slot
      directory is removed either way, every other staged file being kept. Upload-Offset is `min(end + 1, staged length)`, which is always end + 1.
      The persisted table (`persisted0`, `persisted1`) is rewritten only when a delivered
      file is charged to the share. */
  ghost predicate ChunkOutcome(shares0: Table, persisted0: Table, data0: map<string, seq<Byte>>,
                               metas0: map<string, ResumableMeta>, files0: map<string, StoredFile>,
                               token: string, share: ShareRecord,
                               c: ChunkRequest, body: seq<Byte>, slot: Slot, now: int, id: string,
                               reply: UploadReply, shares1: Table, persisted1: Table, data1: map<string, seq<Byte>>,
                               metas1: map<string, ResumableMeta>, files1: map<string, StoredFile>)
    requires share.Upload? && token in shares0 && shares0[token].Upload?
  {
    var stored := StoreOutcome(metas0, data0, slot, c, body);
    var staged := DataAfterChunk(metas0, data0, slot, c, body);
    var metas := MetasAfterChunk(metas0, slot, c);
    && (stored.StoreRefused? ==>
          reply == JsonError(stored.status, stored.error, false) && shares1 == shares0 && persisted1 == persisted0
          && files1 == files0 && data1 == data0 && metas1 == metas)
    && (stored.StoreDone? && c.range.end + 1 < c.totalSize ==>
          reply == ChunkStored(c.range.end + 1, stored.size) && shares1 == shares0 && persisted1 == persisted0
          && files1 == files0 && data1 == staged && metas1 == metas)
    && (stored.StoreDone? && c.range.end + 1 >= c.totalSize ==>
          SlotRemoved(staged, data1, slot.directory) && SlotRemoved(metas, metas1, slot.directory))
    && (stored.StoreDone? && c.range.end + 1 >= c.totalSize && stored.size != c.totalSize ==>
          reply == JsonError(400, "Incomplete upload data.", false) && shares1 == shares0 && persisted1 == persisted0
          && files1 == files0)
    && (stored.StoreDone? && c.range.end + 1 >= c.totalSize && stored.size == c.totalSize ==>
          var key := GeneratedKey(DestinationPrefix(share, token), now, id, c.fileName);
          && reply == Uploaded(DisplayName(stored.meta), c.totalSize, token !in shares1)
          && shares1 == Charged(shares0, token, c.totalSize) && persisted1 == shares1
          && files1 == files0[key := StoredFile(key, c.fileName, stored.meta.mediaType, c.totalSize, stored.meta.lastModified,
                                                staged[slot.dataPath])])
  }

  /** handleResumableUpload, with finalizeResumableUpload for the last chunk. `share` is
      the record the action found under `token`; `root` is the staging root. */
  method HandleResumableUpload(registry: ShareRegistry, staging: Staging, storage: Storage,
                               token: string, share: ShareRecord, h: ChunkHeaders,
                               root: string, now: int, id: string)
    returns (reply: UploadReply)
    requires registry.Valid() && share.Upload?
    requires token in registry.shares && registry.shares[token] == share
    requires !IsExpired(share, now) && now > 0
    modifies registry, staging, storage
    ensures registry.Valid() && registry.order == old(registry.order)
    ensures CheckChunk(h, now).Refuse? ==>
      && reply == JsonError(CheckChunk(h, now).status, CheckChunk(h, now).error, false)
      && registry.shares == old(registry.shares) && registry.persisted == old(registry.persisted)
      && staging.data == old(staging.data)
      && staging.metas == old(staging.metas) && storage.files == old(storage.files)
    ensures CheckChunk(h, now).Chunk? ==>
      var c := CheckChunk(h, now).request;
      var quota := ChunkQuota(share, c.range.start, c.totalSize);
      && (quota.LimitReached? ==>
            reply == JsonError(410, "This upload link has reached its limit.", true)
            && registry.shares == old(registry.shares) - {token} && registry.persisted == registry.shares
            && staging.data == old(staging.data) && staging.metas == old(staging.metas)
            && storage.files == old(storage.files))
      && (quota.OverQuota? ==>
            reply == RemainingOnly(quota.remaining)
            && registry.shares == old(registry.shares) && registry.persisted == old(registry.persisted)
            && staging.data == old(staging.data)
            && staging.metas == old(staging.metas) && storage.files == old(storage.files))
      && (quota.WithinQuota? ==>
            ChunkOutcome(old(registry.shares), old(registry.persisted), old(staging.data), old(staging.metas),
                         old(storage.files), token, share, c, h.body, SlotPaths(root, token, c.uploadId), now, id,
                         reply, registry.shares, registry.persisted, staging.data, staging.metas, storage.files))
  {
    var checked := CheckChunk(h, now);
    if checked.Refuse? {
      return JsonError(checked.status, checked.error, false);
    }
    var c := checked.request;
    var quota := ChunkQuota(share, c.range.start, c.totalSize);
    if quota.LimitReached? {
      registry.RemoveShare(token);
      return JsonError(410, "This upload link has reached its limit.", true);
    }
    if quota.OverQuota? {
      return RemainingOnly(quota.remaining);
    }
    var slot := SlotPaths(root, token, c.uploadId);
    SlotFiles(root, token, c.uploadId);
    reply := AcceptChunk(registry, staging, storage, token, share, c, h.body, slot, now, id);
  }

  /** The steps of handleResumableUpload after the quota check. */
  method AcceptChunk(registry: ShareRegistry, staging: Staging, storage: Storage, token: string,
                     share: ShareRecord, c: ChunkRequest, body: seq<Byte>, slot: Slot, now: int, id: string)
    returns (reply: UploadReply)
    requires registry.Valid() && share.Upload?
    requires token in registry.shares && registry.shares[token] == share
    requires !IsExpired(share, now)
    requires 0 <= c.range.start && |body| == c.range.end - c.range.start + 1 && c.totalSize > 0
    requires StartsWith(slot.dataPath, slot.directory + "/") && StartsWith(slot.metaPath, slot.directory + "/")
    modifies registry, staging, storage
    ensures registry.Valid() && registry.order == old(registry.order)
    ensures ChunkOutcome(old(registry.shares), old(registry.persisted), old(staging.data), old(staging.metas),
                         old(storage.files), token, share, c, body, slot, now, id,
                         reply, registry.shares, registry.persisted, staging.data, staging.metas, storage.files)
  {
    StoreOutcomeSpec(staging.metas, staging.data, slot, c, body);
    DataAfterChunkSpec(staging.metas, staging.data, slot, c, body);
    var stored := StoreChunk(staging, slot, c, body);
    if stored.StoreRefused? {
      return JsonError(stored.status, stored.error, false);
    }
    var nextOffset := c.range.end + 1;
    if nextOffset < c.totalSize {
      return ChunkStored(Min(nextOffset, stored.size), stored.size);
    }
    var meta := stored.meta.(completed := true);
    ghost var metas := staging.metas;
    staging.WriteResumableMeta(slot.metaPath, meta);
    reply := FinalizeResumableUpload(registry, staging, storage, token, share, meta, slot, now, id);
    SlotRemovedOverwrite(metas, slot.metaPath, meta, staging.metas, slot.directory);
  }

  /** The meta, offset and write steps for one chunk. Ahead of the write, the chunk may
      leave a fresh meta file behind even when the write then fails. */
  method StoreChunk(staging: Staging, slot: Slot, c: ChunkRequest, body: seq<Byte>) returns (r: Stored)
    modifies staging
    ensures r == StoreOutcome(old(staging.metas), old(staging.data), slot, c, body)
    ensures staging.metas == MetasAfterChunk(old(staging.metas), slot, c)
    ensures staging.data == DataAfterChunk(old(staging.metas), old(staging.data), slot, c, body)
  {
    var step := MetaFor(MetaOf(staging.metas, slot.metaPath), c);
    if step.MetaConflict? {
      return StoreRefused(409, step.error);
    }
    var meta := step.meta;
    if step.MetaCreate? {
      staging.WriteResumableMeta(slot.metaPath, meta);
    }
    var existing := DataOf(staging.data, slot.dataPath);
    if existing.Some? && c.range.start > |existing.value| {
      return StoreRefused(409, "Unexpected chunk offset.");
    }
    var written := staging.WriteResumableChunk(slot.dataPath, body, c.range.start);
    if written.Err? {
      return StoreRefused(500, written.message);
    }
    return StoreDone(meta, written.value);
  }

  /** finalizeResumableUpload: the staged data must have the declared size; the file is then
      saved under the share's destination, the share is charged the file's size, and the
      slot is removed whatever the outcome. */
  method FinalizeResumableUpload(registry: ShareRegistry, staging: Staging, storage: Storage,
                                 token: string, share: ShareRecord, meta: ResumableMeta,
                                 slot: Slot, now: int, id: string)
    returns (reply: UploadReply)
    requires registry.Valid() && share.Upload?
    requires token in registry.shares && registry.shares[token] == share
    requires !IsExpired(share, now)
    requires meta.size > 0
    requires StartsWith(slot.dataPath, slot.directory + "/") && StartsWith(slot.metaPath, slot.directory + "/")
    modifies registry, staging, storage
    ensures registry.Valid() && registry.order == old(registry.order)
    ensures SlotRemoved(old(staging.data), staging.data, slot.directory)
    ensures SlotRemoved(old(staging.metas), staging.metas, slot.directory)
    ensures var finalSize := DataOf(old(staging.data), slot.dataPath);
      if finalSize.None? || |finalSize.value| != meta.size then
        reply == JsonError(400, "Incomplete upload data.", false)
        && registry.shares == old(registry.shares) && registry.persisted == old(registry.persisted)
        && storage.files == old(storage.files)
      else
        var key := GeneratedKey(DestinationPrefix(share, token), now, id, meta.name);
        && reply == Uploaded(DisplayName(meta), meta.size, token !in registry.shares)
        && registry.shares == Charged(old(registry.shares), token, meta.size) && registry.persisted == registry.shares
        && storage.files == old(storage.files)[key := StoredFile(key, meta.name, meta.mediaType, meta.size, meta.lastModified,
                                                                 finalSize.value)]
  {
    var finalSize := DataOf(staging.data, slot.dataPath);
    if finalSize.None? || |finalSize.value| != meta.size {
      reply := JsonError(400, "Incomplete upload data.", false);
    } else {
      var file := StagedFile(meta, finalSize.value);
      var saved := storage.SaveFile(FileValue(file), SaveOptions(Some(DestinationPrefix(share, token)), None), now, id);
      var charged := registry.RegisterUpload(token, Int(meta.size));
      var updated := registry.GetShare(token, now);
      ChargedKeepsExpiry(old(registry.shares), token, meta.size, now);
      reply := Uploaded(DisplayName(meta), meta.size, updated.None? || !updated.value.Upload?);
    }
    staging.CleanupResumableSlot(slot.directory);
  }

  /** A charged share that survives is still the same upload share, not expired. */
  lemma ChargedKeepsExpiry(m: Table, token: string, bytes: nat, now: int)
    requires token in m && m[token].Upload? && !IsExpired(m[token], now)
    ensures token in Charged(m, token, bytes) ==>
      Charged(m, token, bytes)[token].Upload? && !IsExpired(Charged(m, token, bytes)[token], now)
  {
  }

  // ---- Multipart uploads ----

  /** The batch checks of handleUploadShareAction, on the files of the form. */
  function BatchRefusal(values: seq<FormValue>, share: ShareRecord): (r: Option<UploadReply>)
    requires share.Upload?
    ensures r.Some? ==> r.value.Refused? || r.value.RefusedRemaining?
    ensures WithDirectoryFlag(NotIgnored(FilesOf(values)), false) == [] ==> r.Some? && r.value.Refused?
  {
    var files := FilesOf(values);
    var fileUploads := WithDirectoryFlag(NotIgnored(files), false);
    if |fileUploads| == 0 then
      Some(Refused(if |files| > 0 then "Only system files were selected." else "Select one or more files to send."))
    else
      match BatchQuota(share, TotalSize(fileUploads))
      case LimitReached => Some(Refused("This upload link has reached its limit."))
      case OverQuota(remaining) => Some(RefusedRemaining(remaining))
      case WithinQuota => None
  }

  /** The multipart half of handleUploadShareAction. All accepted uploads are saved, the
      folder placeholders among them too, but only the real files are counted against the
      quota. */
  method HandleMultipartUpload(registry: ShareRegistry, storage: Storage, token: string, share: ShareRecord,
                               values: seq<FormValue>, now: int, ids: nat -> string)
    returns (reply: UploadReply)
    requires registry.Valid() && share.Upload?
    requires token in registry.shares && registry.shares[token] == share
    requires !IsExpired(share, now)
    modifies registry, storage
    ensures registry.Valid() && registry.order == old(registry.order)
    ensures var fileUploads := WithDirectoryFlag(NotIgnored(FilesOf(values)), false);
      var refusal := BatchRefusal(values, share);
      refusal.Some? ==>
        reply == refusal.value && storage.files == old(storage.files)
        && registry.shares == (if fileUploads != [] && BatchQuota(share, TotalSize(fileUploads)).LimitReached?
                               then old(registry.shares) - {token} else old(registry.shares))
        && registry.persisted == (if fileUploads != [] && BatchQuota(share, TotalSize(fileUploads)).LimitReached?
                                  then registry.shares else old(registry.persisted))
    ensures var files := FilesOf(values);
      var accepted := NotIgnored(files);
      var fileUploads := WithDirectoryFlag(accepted, false);
      BatchRefusal(values, share).None? ==>
        && reply == Delivered(|fileUploads|, TotalSize(fileUploads), |WithDirectoryFlag(accepted, true)|,
                              |files| - |accepted|, token !in registry.shares)
        && storage.files == SavedAll(old(storage.files), accepted, DestinationPrefix(share, token), now, ids)
        && registry.shares == Charged(old(registry.shares), token, TotalSize(fileUploads))
        && registry.persisted == registry.shares
  {
    var refusal := BatchRefusal(values, share);
    if refusal.Some? {
      reply := RefuseBatch(registry, token, share, values);
      return;
    }
    var files := FilesOf(values);
    var accepted := NotIgnored(files);
    var fileUploads := WithDirectoryFlag(accepted, false);
    var totalBytes := TotalSize(fileUploads);
    var closed := DeliverBatch(registry, storage, token, share, accepted, totalBytes, now, ids);
    reply := Delivered(|fileUploads|, totalBytes, |WithDirectoryFlag(accepted, true)|, |files| - |accepted|, closed);
  }

  /** A refused batch stores nothing; only a share that has reached its limit is revoked. */
  method RefuseBatch(registry: ShareRegistry, token: string, share: ShareRecord, values: seq<FormValue>)
    returns (reply: UploadReply)
    requires registry.Valid() && share.Upload? && BatchRefusal(values, share).Some?
    modifies registry
    ensures registry.Valid() && registry.order == old(registry.order)
    ensures reply == BatchRefusal(values, share).value
    ensures var fileUploads := WithDirectoryFlag(NotIgnored(FilesOf(values)), false);
      && registry.shares == (if fileUploads != [] && BatchQuota(share, TotalSize(fileUploads)).LimitReached?
                             then old(registry.shares) - {token} else old(registry.shares))
      && registry.persisted == (if fileUploads != [] && BatchQuota(share, TotalSize(fileUploads)).LimitReached?
                                   && token in old(registry.shares)
                                then registry.shares else old(registry.persisted))
  {
    var fileUploads := WithDirectoryFlag(NotIgnored(FilesOf(values)), false);
    reply := BatchRefusal(values, share).value;
    if fileUploads != [] && BatchQuota(share, TotalSize(fileUploads)).LimitReached? {
      registry.RemoveShare(token);
    }
  }

  /** Saving the accepted files under the share's destination, charging the share and
      looking it up again; `closed` tells whether the share is gone. */
  method DeliverBatch(registry: ShareRegistry, storage: Storage, token: string, share: ShareRecord,
                      accepted: seq<FileData>, totalBytes: nat, now: int, ids: nat -> string)
    returns (closed: bool)
    requires registry.Valid() && share.Upload?
    requires token in registry.shares && registry.shares[token] == share
    requires !IsExpired(share, now)
    modifies registry, storage
    ensures registry.Valid() && registry.order == old(registry.order)
    ensures storage.files == SavedAll(old(storage.files), accepted, DestinationPrefix(share, token), now, ids)
    ensures registry.shares == Charged(old(registry.shares), token, totalBytes)
    ensures registry.persisted == registry.shares
    ensures closed <==> token !in registry.shares
  {
    SaveAll(storage, accepted, DestinationPrefix(share, token), now, ids);
    var charged := registry.RegisterUpload(token, Int(totalBytes));
    var updated := registry.GetShare(token, now);
    ChargedKeepsExpiry(old(registry.shares), token, totalBytes, now);
    closed := updated.None? || !updated.value.Upload?;
  }

  /** A request to an upload share: one resumable chunk, or a multipart form. */
  datatype ShareRequest = ResumableChunk(headers: ChunkHeaders) | Multipart(values: seq<FormValue>)

  /** handleUploadShareAction: the share is looked up (and dropped when expired) first; a
      missing, expired or download share answers "not found". */
  method HandleUploadShareAction(registry: ShareRegistry, staging: Staging, storage: Storage,
                                 token: string, request: ShareRequest, root: string, now: int,
                                 ids: nat -> string)
    returns (reply: UploadReply)
    requires registry.Valid() && now > 0
    modifies registry, staging, storage
    ensures registry.Valid() && registry.order == old(registry.order)
    ensures !(token in old(registry.shares) && old(registry.shares)[token].Upload?
              && !IsExpired(old(registry.shares)[token], now)) ==>
      reply == Unavailable("Upload share not found or expired.")
      && staging.data == old(staging.data) && staging.metas == old(staging.metas)
      && storage.files == old(storage.files)
      && (if token in old(registry.shares) && IsExpired(old(registry.shares)[token], now)
          then registry.shares == old(registry.shares) - {token} && registry.persisted == registry.shares
          else registry.shares == old(registry.shares) && registry.persisted == old(registry.persisted))
  {
    var found := registry.GetShare(token, now);
    if found.None? || !found.value.Upload? {
      return Unavailable("Upload share not found or expired.");
    }
    var share := found.value;
    if request.ResumableChunk? {
      reply := HandleResumableUpload(registry, staging, storage, token, share, request.headers, root, now, ids(0));
    } else {
      reply := HandleMultipartUpload(registry, storage, token, share, request.values, now, ids);
    }
  }
}
