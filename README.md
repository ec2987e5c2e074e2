# File-sharing core in Dafny

This project models the core of a small file-sharing server written in TypeScript. An
administrator stores files and mints two kinds of bearer links:

- a **download share** lists stored file keys. Recipients fetch one file (with single-range
  HTTP `Range` support) or a whole folder as an uncompressed ZIP whose size is known in advance;
- an **upload share** lets recipients upload into a chosen directory, either in one multipart
  body or as a resumable sequence of `Content-Range` chunks, within an optional byte quota.

The model has one module per core source file. Each takes the source's own form:

- **Stateful parts are classes:**
  - `ShareStore.ShareRegistry`: the token table, its insertion order (the order a JavaScript Map iterates in) and its persisted copy;
  - `Resumable.Staging`: staged chunk data and metadata;
  - `Uploads.Storage`: the stored-file table;
  - `SecurityHeaders.Headers`: a response's header map;
  - `GithubWebhook.UpdateQueue`: the webhook's in-flight flag.

  Their methods carry `modifies` clauses and state the whole new state.
- **Loops are methods with invariants**, each proved against a specification function:
  - the ZIP size accumulator, the ranged stream slicer, path sanitising, the ancestor-directory set and the string hash;
  - the chunk writer, the hex decoder and the constant-time comparison;
  - set-if-absent header merging, breadcrumbs, paged listing, and the selection and key-collection loops.
- **Pure code is functions and lemmas:** range parsing, the RFC 5987 encoder, path normalisation, token classification and the response decisions.

Helper modules:

- `Wrappers`: Option and Result;
- `Strings`: the JavaScript string operations used: trim, split, join, startsWith and replace;
- `JsNumbers`: `Number.parseInt` with radix 10 or 16, and decimal or hex formatting;
- `Unicode`: UTF-8 and UTF-16 views of a string;
- `UriCodec`: `encodeURIComponent` and `decodeURIComponent`;
- `Seqs`: dedup, remove and filter over sequences;
- `Sorting`: a stable insertion sort standing in for `Array.prototype.sort`;
- `Forms`: the values of a multipart form;
- `Redirects`: the dashboard redirect carrying a flash message or error.

Time, randomness and identifiers are parameters: `now`, tokens and upload ids. Storage,
staging and the registry's JSON file are modelled as maps held by the classes above.

## Model

| member | source | states |
|---|---|---|
| ShareStore.ResolveExpiry | app/utils/share-store.ts:286-292 | no expiry iff the minutes are missing, NaN or not positive; otherwise exactly `now + minutes * 60000` |
| ShareStore.FreshShareNotExpired | app/utils/share-store.ts:294-296 | a share created now with a resolved expiry is not expired now, and it is expired at a later time iff that time has reached the expiry |
| ShareStore.NormalizeDirectoryPath | app/utils/share-store.ts:302-322 | an absent input gives an absent result; a present one succeeds iff the shared path normalisation does, with that value |
| ShareStore.NormalizePathSpec | app/utils/share-store.ts:307-321 | blank or `/` after trimming gives `''`; otherwise an error iff some non-empty segment (after `\` becomes `/`) is `.` or `..`; a success splits back into exactly those segments, each non-empty and free of `/` and `\` |
| ShareStore.NormalizePathError | app/utils/share-store.ts:315-319 | the only error the normalisation gives is `Folder path cannot contain navigation segments.` |
| ShareStore.SegmentsClean | app/utils/share-store.ts:312-313 | the kept segments are non-empty and contain neither `/` nor `\` |
| ShareStore.PurgeExpired | app/utils/share-store.ts:106-112 | the table without its expired records: a token stays iff its record is not expired, with the record unchanged |
| ShareStore.WithoutFileSpec | app/utils/share-store.ts:127-147 | after removing a key no download share lists it; upload shares and shares without the key are unchanged; a download share holding the key survives iff it holds another key, and then lists its keys minus every copy of that one; no token is added |
| ShareStore.WithoutFileShrinks | app/utils/share-store.ts:127-147 | removing a key never adds a (share, key) pair, and a removal that changes the table drops one, so a run of removals that changed the table cannot restore it |
| ShareStore.ChargedSpec | app/utils/share-store.ts:159-165 | charging `bytes` to an upload share raises uploadedBytes by exactly `bytes`; the record is deleted iff a positive cap is reached; every other token is untouched |
| ShareStore.MappingOfSpec | app/utils/share-store.ts:175-179 | a key is mapped iff some pair from it to a different key exists; the mapped value is the last such pair's, because later pairs from the same key win and identity pairs are skipped |
| ShareStore.RewriteKeys | app/utils/share-store.ts:190-201 | each key is replaced by its mapped value when that value is non-empty (`if (replacement)`) and kept otherwise, position by position |
| ShareStore.RewriteRecordSpec | app/utils/share-store.ts:187-212 | a share with no mapped key is returned unchanged; otherwise its new key list has no duplicates, every new key is a mapped image or an unmapped old key, and every old key's image is present |
| ShareStore.WithRewrittenKeysSpec | app/utils/share-store.ts:185-213 | rewriting keeps the set of tokens and leaves every share with no mapped key unchanged |
| ShareStore.NewDownloadShare | app/utils/share-store.ts:56-63 | a download record under the given token, created now, with the expiry resolved from the minutes and the keys deduplicated (the `Dedup` of the given keys: same members, no duplicates, first occurrences in order) |
| ShareStore.RewriteKeepsWellFormed | app/utils/share-store.ts:203-212 | rewriting keeps every record under its token and well formed: a download share keeps a duplicate-free key list, an upload share a non-negative byte count |
| ShareStore.ShareRegistry.constructor | app/utils/share-store.ts:220-257 | the registry starts with the loaded table, which is also the persisted copy, and with the tokens' order in the file as the Map's insertion order |
| ShareStore.ShareRegistry.CreateDownloadShare | app/utils/share-store.ts:48-68 | an empty key list is an error that changes nothing; otherwise the new record is stored under its token and persisted, and the token goes last in the insertion order unless it was already there (see NewTokenListedLast) |
| ShareStore.ShareRegistry.CreateUploadShare | app/utils/share-store.ts:70-90 | an invalid target directory fails with `Folder path cannot contain navigation segments.` and changes nothing; otherwise an upload record with uploadedBytes 0, the resolved expiry, the cap and the normalised directory is stored and persisted, its token placed in the insertion order as for a download share |
| ShareStore.ShareRegistry.GetShare | app/utils/share-store.ts:92-103 | an unknown token gives nothing; an expired record gives nothing and only its token is deleted (and persisted); otherwise the record is returned and nothing changes |
| ShareStore.ShareRegistry.UpdateEach | app/utils/share-store.ts:105-147 | the loop shared by the sweeps: applies the per-record rule to every record and reports whether any record was touched |
| ShareStore.ShareRegistry.Values | app/utils/share-store.ts:118 | every record of the table exactly once, in the Map's insertion order |
| ShareStore.ShareRegistry.ListShares | app/utils/share-store.ts:105-119 | expired records are purged (and persisted when any was), the rest are untouched, and the result lists each remaining record once, newest first, with records of equal creation time in insertion order |
| ShareStore.ShareRegistry.PurgeExpiredShares | app/utils/share-store.ts:106-116 | the live table loses exactly its expired records, and the persisted copy is replaced only when one was removed |
| ShareStore.ShareRegistry.ValuesNewestFirst | app/utils/share-store.ts:118 | the result lists each record of the table once and no other, ordered by creation time, newest first; for every creation time, the records with that time appear in the Map's insertion order (the sort is stable) |
| ShareStore.OrderAfterSet | app/utils/share-store.ts:65 | after `shares.set`, the insertion order still lists each token once and lists the token set |
| ShareStore.InsertionOrderedLists | app/utils/share-store.ts:118 | when the insertion order lists every token of the table once, iterating the Map yields every record once and no other |
| ShareStore.NewTokenListedLast | app/utils/share-store.ts:65 | a record set under a token the table does not hold is iterated after every record already there, which keep their order |
| ShareStore.RemovedTokenKeepsOrder | app/utils/share-store.ts:122 | deleting a token leaves the other records iterated in the order they had |
| ShareStore.ShareRegistry.RemoveShare | app/utils/share-store.ts:121-125 | the token is deleted; the table is persisted only when it was there |
| ShareStore.ShareRegistry.RemoveFileFromShares | app/utils/share-store.ts:127-147 | the table becomes the key-removal table (see WithoutFileSpec), persisted iff anything changed |
| ShareStore.ShareRegistry.RegisterUpload | app/utils/share-store.ts:149-168 | a missing or download token and a NaN or negative byte count are errors that change nothing; otherwise the share is charged (see ChargedSpec) and persisted |
| ShareStore.ShareRegistry.RewriteEach | app/utils/share-store.ts:185-213 | the loop over the shares: the table becomes the rewritten table; it reports whether any download share held a mapped key |
| ShareStore.ShareRegistry.ReplaceFileKeys | app/utils/share-store.ts:170-218 | the table becomes the rewritten table under the mapping built from the pairs, persisted iff some download share held a mapped key |
| Sorting.SortByKeyDescending | app/utils/share-store.ts:118 | sorting by a key, largest first, gives an ordered permutation, and the elements of each key stay in their input order |
| Sorting.SortKeepsTies | app/utils/share-store.ts:118 | the sort is stable: for every key, the elements with that key come out in the order they went in |
| Sorting.InsertKeepsTies | app/utils/share-store.ts:118 | inserting an element puts it ahead of the elements with its key and leaves their order alone |
| ShareStore.SortedDistinct | app/utils/share-store.ts:118 | sorting a list with no duplicates keeps it duplicate-free and of the same length |
| Download.RangeFromBounds | app/modules/share/download.tsx:295-326 | a NaN bound, no bound at all, or an empty file gives no range; any range it gives satisfies `0 <= start <= end <= size - 1` |
| Download.ParseRangeValue | app/modules/share/download.tsx:287-326 | a value holding `,` gives no range; any range it gives lies inside the file and names at least one bound |
| Download.ParseRangeHeader | app/modules/share/download.tsx:281-327 | a range is given only for a header starting with `bytes=` in any case, with no `,`, naming at least one bound, for a non-empty file; the range lies inside the file |
| Download.RangeHeaderValue | app/modules/share/download.tsx:286 | `bytes=v` with no surrounding spaces is read as the value `v` |
| Download.DecimalFacts | app/modules/share/download.tsx:292-293 | a decimal numeral holds no `-`, `,` or edge space and parses back to its value |
| Download.SuffixValue | app/modules/share/download.tsx:291-293 | the value `-N` reads as an end bound only |
| Download.OpenValue | app/modules/share/download.tsx:291-293 | the value `A-` reads as a start bound only |
| Download.ClosedValue | app/modules/share/download.tsx:291-293 | the value `A-B` reads as both bounds |
| Download.SuffixBounds | app/modules/share/download.tsx:307-315 | for a non-empty file the suffix bound N gives nothing when N is 0, and `[max(size - N, 0), size - 1]` otherwise |
| Download.OpenBounds | app/modules/share/download.tsx:317-326 | a start bound alone gives nothing when start >= size, and `[start, size - 1]` otherwise |
| Download.ClosedBounds | app/modules/share/download.tsx:317-326 | both bounds give nothing when start >= size or the clamped end is before start; otherwise `[start, min(end, size - 1)]` |
| Download.RangeSuffix | app/modules/share/download.tsx:281-315 | the whole header `bytes=-N` gives the suffix range, or nothing for N = 0 |
| Download.RangeOpen | app/modules/share/download.tsx:281-326 | the whole header `bytes=A-` gives `[A, size - 1]`, or nothing when A >= size |
| Download.RangeClosed | app/modules/share/download.tsx:281-326 | the whole header `bytes=A-B` gives `[A, min(B, size - 1)]`, or nothing when A is past the end or the clamped end is before A |
| Download.FileResponseHead | app/modules/share/download.tsx:79-113 | a single-file answer is 416 iff the request is not HEAD, has a non-empty Range header, and the range does not parse; a 416 has length 0 and `Content-Range: bytes */N`; a 206 is given iff the request is not HEAD, has a non-empty Range header, and the range parses, and it has the length `end - start + 1` of the parsed range (between 1 and N) and `Content-Range: bytes start-end/N`; a 200 has length N and no Content-Range |
| Download.ArchiveResponseHead | app/modules/share/download.tsx:214-252 | an archive answer is 416 iff a non-empty Range header does not parse, whatever the method; a 206 is given iff the request is not HEAD, has a non-empty Range header, and the range parses, with the parsed range's length and `Content-Range: bytes start-end/N`; a 200 has length N and no Content-Range |
| Download.HeadBeforeRangeOnlyForFiles | app/modules/share/download.tsx:84-86 | with an unsatisfiable range, HEAD on a file gives 200 while HEAD on an archive gives 416 |
| Download.CalculateZipSize | app/modules/share/download.tsx:397-413 | the loop's two running totals plus 22 equal the closed size formula: 30 + name bytes per entry, size + 16 per file, 46 + name bytes + 9 when mtime is finite per entry, and 22 |
| Download.SumOfConcat | app/modules/share/download.tsx:401-410 | the per-entry sums split over concatenated entry lists |
| Download.ZipSizePermutation | app/modules/share/download.tsx:209-210 | the archive size does not depend on the order of its entries |
| Download.ZipSizeCoversData | app/modules/share/download.tsx:397-413 | the announced size covers the end record, every file's data, and 30 + 46 header bytes per entry |
| Download.WindowExtend | app/modules/share/download.tsx:468-487 | the bytes `[start, end]` of a longer stream are those of the prefix followed by the current chunk's slice |
| Download.SliceZipStream | app/modules/share/download.tsx:449-494 | the emitted chunks concatenate to exactly the bytes at positions `[start, end]` of the stream, truncated at its length; no empty chunk is emitted; reading stops at the first chunk that reaches `end` and no earlier |
| Download.SliceChunk | app/modules/share/download.tsx:468-492 | one chunk gives its part inside the wanted window, and reading stops when the chunk starts past the window's end or reaches that end |
| Download.DropNavigation | app/modules/share/download.tsx:521-527 | the kept segments are exactly the input's segments other than `.` and `..` |
| Download.ArchiveSegmentsClean | app/modules/share/download.tsx:518-527 | every archive segment is non-empty, free of `/` and `\`, and not `.` or `..` |
| Download.SanitizedClean | app/modules/share/download.tsx:517-530 | the sanitised path is empty iff no segment survives; otherwise it is a clean `/`-path that splits back into the surviving segments; it never holds `\` |
| Download.SanitizeIdempotent | app/modules/share/download.tsx:517-530 | sanitising twice equals sanitising once |
| Download.SanitizeArchivePath | app/modules/share/download.tsx:517-530 | the push loop computes the sanitised path |
| Download.NormalizeFolderPath | app/modules/share/download.tsx:334-350 | the folder normalisation succeeds iff the shared path normalisation does, with its value; the error is `Invalid folder path.` (a 400) |
| Download.KeysUnder | app/modules/share/download.tsx:357-359 | exactly the keys that start with the prefix, a sub-multiset of the input |
| Download.CollectKeysForFolder | app/modules/share/download.tsx:352-361 | for folder `''` a reordering of all keys, otherwise exactly the keys starting with `folder/`; sorted either way |
| Download.SimpleHash | app/modules/share/download.tsx:583-589 | the loop computes `hash * 31 + unit` modulo 2^32 over the UTF-16 units and formats it in hex |
| Download.HashHexShape | app/modules/share/download.tsx:586-588 | the hash text is 1 to 8 lower-case hex digits reading back as the 32-bit hash |
| Download.KeyBelowFolder | app/modules/share/download.tsx:539-541 | for a folder, a key starting with `folder/` gives the part after that prefix; for the root folder, the whole key |
| Download.ResolveRelativePath | app/modules/share/download.tsx:532-558 | the relative path is never empty |
| Download.ResolveRelativePathCases | app/modules/share/download.tsx:539-558 | the candidates are tried in order: the sanitised part below the folder, then the sanitised whole key, then the sanitised file name, then `file-<hash>`; the first non-empty one is taken |
| Download.FolderKeyUsesWholeKey | app/modules/share/download.tsx:539-551 | the fallback to the whole key is reachable: the key `folder/` has nothing below the folder, so it is named by the whole key sanitised, when that is non-empty |
| Download.HashedNameClean | app/modules/share/download.tsx:557 | the hashed fallback name `file-<hex>` is a single clean segment |
| Download.ResolvedClean | app/modules/share/download.tsx:532-558 | whichever branch is taken, the relative path is clean: non-empty segments, none `.` or `..`, no `\` |
| Download.ZipPathsNest | app/modules/share/download.tsx:560-569 | a directory name ends in `/`, and a file's name is its parent directory's name followed by its last segment, with no trailing `/` |
| Download.CurrentIsJoin | app/modules/share/download.tsx:183-188 | the running `current` of the ancestor loop is the `/`-join of the segments read so far |
| Download.AddAncestors | app/modules/share/download.tsx:183-188 | the loop adds exactly the proper ancestors of the relative path to the directory set |
| Download.DirectoryEntries | app/modules/share/download.tsx:196-207 | one directory entry per path, in order, named by the directory-name rule |
| Download.NameLeIsTotalPreorder | app/modules/share/download.tsx:209 | ordering entries by name is a total preorder, so the sort is well defined |
| Download.NormalizeTimestamp | app/modules/share/download.tsx:571-576 | a positive timestamp is kept; any other becomes `now` |
| Download.DropMissingNoDuplicates | app/modules/share/download.tsx:164-169 | removing missing files from a duplicate-free key list keeps it duplicate-free |
| Download.WithoutMissing | app/modules/share/download.tsx:255-260 | the table after one removal: the download share loses the first copy of the key, any other table is unchanged |
| Download.RemoveMissingFileFromShare | app/modules/share/download.tsx:255-260 | the share table becomes `WithoutMissing` of the old table, in place; the persisted copy is untouched and the registry stays valid |
| Download.SharesAfterDrops | app/modules/share/download.tsx:164-169 | the removals of the loop, one per missing key in order, leave the download share with `DropMissing` of its keys and the rest of the table unchanged |
| Download.ArchivedFor | app/modules/share/download.tsx:171-181 | a stored file's record keeps its key and holds a file entry named `root/relative` |
| Download.ArchivedForClean | app/modules/share/download.tsx:171 | the recorded relative path is clean |
| Download.StoredKeys | app/modules/share/download.tsx:164-169 | exactly the keys that storage holds |
| Download.RecordsOf | app/modules/share/download.tsx:171-181 | one record per present key, in the keys' order |
| Download.RecordsOfAppend | app/modules/share/download.tsx:171-181 | a record for one more key goes at the end |
| Download.ArchivedFilesAsRecords | app/modules/share/download.tsx:164-182 | the records the loop makes are those of the stored keys, in key order |
| Download.ArchivedFileAt | app/modules/share/download.tsx:164-182 | record i is the record of the i-th stored key, which is one of the keys |
| Download.ArchivedFilesRecords | app/modules/share/download.tsx:164-182 | every record comes from a key that was listed and is stored, is that key's record, and holds a file entry |
| Download.ArchivedFilesCover | app/modules/share/download.tsx:164-182 | every listed key that storage holds has a record |
| Download.ArchivedFilesEmpty | app/modules/share/download.tsx:164-169 | no record is made exactly when storage holds none of the keys |
| Download.ArchivedFilesLast | app/modules/share/download.tsx:164-182 | one more key adds its record when stored and nothing when missing |
| Download.ArchiveDirectories | app/modules/share/download.tsx:161-188 | the directory set holds `""` and every proper ancestor of every recorded relative path, and nothing else |
| Download.ArchiveDirectoriesLast | app/modules/share/download.tsx:183-188 | one more record adds the proper ancestors of its relative path |
| Download.WithFileKeysRemoved | app/modules/share/download.tsx:191-193 | revoking a share forgets any change to its keys |
| Download.AddArchivedFile | app/modules/share/download.tsx:171-188 | one stored file: its record is appended and the proper ancestors of its path join the directory set |
| Download.CollectArchiveFiles | app/modules/share/download.tsx:164-189 | the loop over the matching keys: the download share ends with `DropMissing` of its keys and nothing else in the table changes; the records are `ArchivedFiles` of the keys; the directory set is `ArchiveDirectories` of the records |
| Download.EntriesOf | app/modules/share/download.tsx:209 | the entries of the collected files, in order |
| Download.ArchiveEntries | app/modules/share/download.tsx:196-209 | the sorted directory entries come first, then exactly the file entries, sorted by name |
| Download.SortByName | app/modules/share/download.tsx:209 | the file entries come out as a permutation of the input, ordered by name |
| Download.ArchiveRootName | app/modules/share/download.tsx:157-160 | the archive root name is never empty |
| Download.RespondWithFolderArchive | app/modules/share/download.tsx:139-253 | an invalid folder fails with `Invalid folder path.` and neither the table nor its persisted copy changes; no matching key iff `Folder not found or contains no files.`, with neither changed; keys but no stored file iff `All shared files were removed.`, with the share revoked and the table persisted; otherwise the archive is ready, nothing is persisted, the share holds `DropMissing` of its keys, the root is the archive root name, the directory list is duplicate-free with the members of `ArchiveDirectories` of the records, the entries are `ArchiveEntries` of them, starting with the root directory entry and ending with a file entry, the size is the formula's size, and the head is the archive response head |
| Download.SetToSeq | app/modules/share/download.tsx:196 | the directory set as a duplicate-free list with the same members |
| Download.LeastIsEmpty | app/modules/share/download.tsx:196-199 | `''` sorts first, so the root directory entry leads the archive |
| Resumable.MatchContentRange | app/utils/resumable.ts:26 | a match splits the trimmed header as `bytes A-B/T` with A, B and T non-empty decimal digit runs |
| Resumable.MatchContentRangeOf | app/utils/resumable.ts:26 | every text of the form `bytes A-B/T` with decimal A, B, T matches, with exactly those parts |
| Resumable.DecimalParse | app/utils/resumable.ts:30-32 | a decimal digit run parses to its value, never NaN |
| Resumable.ParseContentRange | app/utils/resumable.ts:22-40 | a missing or empty header gives nothing; any result has `0 <= start <= end` and `total > 0` (end is not checked against total) |
| Resumable.ParseContentRangeShape | app/utils/resumable.ts:26-39 | any result comes from a trimmed header that is exactly `bytes A-B/T` in decimal digits, with start, end and total their values |
| Resumable.ParseFormatContentRange | app/utils/resumable.ts:22-40 | the header formatted from A, B, T parses back to `(A, B, T)` iff `A <= B` and `T > 0`, and to nothing otherwise |
| Resumable.KeepSegmentChars | app/utils/resumable.ts:44 | only characters of `[A-Za-z0-9_-]` are kept |
| Resumable.KeepSegmentCharsSubsequence | app/utils/resumable.ts:44 | the kept characters are a subsequence of the input |
| Resumable.KeepSegmentCharsClean | app/utils/resumable.ts:44 | a clean input is kept whole |
| Resumable.KeepSegmentCharsEmpty | app/utils/resumable.ts:44-47 | nothing is kept iff no character is allowed |
| Resumable.KeepSegmentCharsCounts | app/utils/resumable.ts:44 | the replacement keeps every letter, digit, `_` and `-` of the input as often as it occurs, and no other character |
| Resumable.SanitizeSegment | app/utils/resumable.ts:42-49 | at most 120 allowed characters; `''` for a missing or empty input; for a present input, the first `min(120, n)` of the n kept characters |
| Resumable.SanitizeSegmentSpec | app/utils/resumable.ts:42-49 | the result is a subsequence of the input, and empty iff the input is missing or has no allowed character |
| Resumable.SanitizeSegmentIdempotent | app/utils/resumable.ts:42-49 | sanitising a sanitised segment changes nothing |
| Resumable.DecodeUploadHeader | app/utils/resumable.ts:51-58 | missing or empty input gives nothing; otherwise the percent-decoding, with nothing for malformed escapes |
| Resumable.DecodeUploadHeaderEncoded | app/utils/resumable.ts:51-58 | decoding an encoded non-empty name gives the name back |
| Resumable.SafeSegmentShape | app/utils/resumable.ts:69-70 | the slot's scope and id segments are non-empty, free of `/` and made of allowed characters, with `scope` and `upload` standing in for empty parts |
| Resumable.SlotPathsInjective | app/utils/resumable.ts:69-71 | two slots share a directory iff their sanitised scopes and ids agree |
| Resumable.SlotFiles | app/utils/resumable.ts:71-77 | `data.bin` and `meta.json` are different files, both inside the slot directory |
| Resumable.StagedWriteRefused | app/utils/resumable.ts:117-123 | a write is refused iff the file is missing and the offset is not 0, or the offset is past the staged length |
| Resumable.StagedWriteSpec | app/utils/resumable.ts:125-137 | an accepted write keeps the staged bytes as a prefix and appends only the part of the chunk past them; the new length is `max(size, offset + len)`, and a fully covered chunk adds nothing |
| Resumable.StagedWriteHoldsChunk | app/utils/resumable.ts:125-137 | when the staged bytes agree with the chunk where they overlap, the chunk sits at its offset afterwards |
| Resumable.StagedWriteRepeat | app/utils/resumable.ts:125-129 | sending the same chunk again is a no-op |
| Resumable.StagedWriteInOrder | app/utils/resumable.ts:136-137 | a chunk at the staged length is appended whole |
| Resumable.Staging.constructor | app/utils/resumable.ts:112-115 | the staging area starts with the given files and metadata |
| Resumable.Staging.WriteResumableChunk | app/utils/resumable.ts:112-138 | a refused write is an error that changes nothing; an accepted one stores the staged-write result at the path and returns its length; metadata is untouched |
| Resumable.Staging.WriteResumableMeta | app/utils/resumable.ts:105-110 | the metadata at the path is replaced, nothing else changes |
| Resumable.Staging.CleanupResumableSlot | app/utils/resumable.ts:140-148 | every data and metadata file inside the directory is removed; every other file is kept unchanged |
| Resumable.SlotRemovedOverwrite | app/modules/share/upload.tsx:340-341 | a file written inside the slot just before the slot is removed leaves no trace |
| Upload.ChunkRange | app/modules/share/upload.tsx:257-280 | an accepted range has the declared total, `0 <= start <= end` and a body of exactly `end - start + 1` bytes; without Content-Range it is `[0, len - 1]` and the body has the declared size; with one it is the parsed range |
| Upload.WholeBodyRange | app/modules/share/upload.tsx:257-280 | without Content-Range, the range is accepted exactly when the body length is the declared size n, and it is then `[0, n - 1]` of n |
| Upload.CheckChunk | app/modules/share/upload.tsx:223-280 | an accepted chunk has a non-empty sanitised id, a positive declared size matching its range total, a body of the range's length, the parsed range or the whole-body range, and a positive timestamp; a refusal is a 400 or a 405 |
| Upload.CheckChunkIdentityFirst | app/modules/share/upload.tsx:227-238 | for a POST, an empty sanitised X-Upload-Id is refused first with 400, then a declared size that is not a positive integer, before anything is written |
| Upload.CheckChunkWholeBody | app/modules/share/upload.tsx:257-267 | without Content-Range the body is accepted iff its length equals X-File-Size, as the range `[0, n - 1]` of total n |
| Upload.CheckChunkRanged | app/modules/share/upload.tsx:269-280 | a well-formed `bytes a-b/t` chunk is accepted with that range iff t equals X-File-Size, and refused with `Chunk size mismatch.` otherwise |
| Upload.RangedHeaders | app/modules/share/upload.tsx:269-280 | the same for any parsed range whose body has the range's length |
| Upload.HeaderNumberFormatted | app/modules/share/upload.tsx:235 | a size header written in decimal reads back as its value |
| Upload.RangedChecks | app/modules/share/upload.tsx:269-280 | a parsed range with a matching body length is accepted iff its total equals the declared size |
| Upload.ChunkQuota | app/modules/share/upload.tsx:282-297 | the link is at its limit iff a positive cap has no bytes remaining; a chunk is over quota only with a cap, carrying the bytes remaining |
| Upload.ChunkQuotaFits | app/modules/share/upload.tsx:291-296 | a first chunk that passes the quota check declares a file that fits in the cap |
| Upload.ChunkQuotaLaterChunks | app/modules/share/upload.tsx:291 | chunks after the first are checked only against the limit, not against the declared size |
| Upload.BatchQuota | app/modules/share/upload.tsx:93-107 | the same limit and remaining-bytes rule for a multipart batch |
| Upload.BatchQuotaFits | app/modules/share/upload.tsx:102-106 | a batch that passes the quota check fits in the cap |
| Upload.MetaFor | app/modules/share/upload.tsx:299-315 | metadata is created iff none is stored and the chunk starts at 0; stored metadata is kept iff its size and name match the request; any other case is a 409 conflict |
| Upload.StoreOutcomeSpec | app/modules/share/upload.tsx:299-327 | a stored chunk leaves metadata matching the request and a staged length past the chunk's end; missing metadata with a non-zero start is refused with 409 |
| Upload.DataAfterChunkSpec | app/modules/share/upload.tsx:317-327 | a refused chunk leaves the staged data unchanged; a stored one gives the data file the stored size with the earlier staged bytes as its prefix, and changes no other file |
| Upload.StoreChunk | app/modules/share/upload.tsx:299-327 | the metadata and data steps for one chunk: the metadata becomes `MetasAfterChunk` (written only when created, even if the write is then refused) and the staged data becomes `DataAfterChunk` (the staged write, only when the chunk is stored); the result is the chunk outcome |
| Upload.AcceptChunk | app/modules/share/upload.tsx:299-351 | a refused write answers with its status, leaves the share table, its persisted copy, storage and staged data unchanged, and leaves the metadata as the meta step made it; a chunk short of the end answers 204 with the next offset and the staged length, the share table and its persisted copy are unchanged, and staging holds exactly the chunk's metadata and data steps; the last chunk removes the slot directory, keeping every other staged file, and delivers the staged bytes when their length is the declared size, charging the share and persisting the table; an incomplete last chunk leaves the table and its persisted copy unchanged |
| Upload.FinalizeResumableUpload | app/modules/share/upload.tsx:353-420 | the slot is removed on every path; a staged length other than the declared size is a 400 that changes neither the table nor its persisted copy; otherwise the staged bytes are saved as the file under the share's destination, the share is charged its size and the table persisted, and the reply says whether the link closed; the slot directory's files are removed and every other staged file is kept |
| Upload.HandleResumableUpload | app/modules/share/upload.tsx:214-351 | a refused request changes nothing, the persisted table included; a link at its limit is revoked with 410 and the table persisted; a first chunk over quota is a 413 that changes nothing; otherwise the chunk outcome of Upload.AcceptChunk holds, for the whole staging state |
| Upload.ChargedKeepsExpiry | app/modules/share/upload.tsx:403-407 | a charged share that survives is still an unexpired upload share |
| Upload.BatchRefusal | app/modules/share/upload.tsx:85-107 | a batch with no non-ignored plain file is refused; any refusal is an error reply, possibly carrying the bytes remaining |
| Upload.HandleMultipartUpload | app/modules/share/upload.tsx:77-136 | a refused batch saves nothing, and revokes the link and persists the table only when it is at its limit; otherwise every accepted file is saved under the share's destination, the share is charged the plain files' total and the table persisted, and the reply counts files, folders and skipped files |
| Upload.RefuseBatch | app/modules/share/upload.tsx:85-106 | the reply is the batch's refusal, and the share is revoked only when the batch has plain files and the link is at its limit; the table is persisted only when a present share was revoked |
| Upload.DeliverBatch | app/modules/share/upload.tsx:109-113 | every accepted file is saved and the share is charged the total, the table being persisted; the link is closed iff the token is gone |
| Upload.HandleUploadShareAction | app/modules/share/upload.tsx:55-75 | a missing, expired or download token answers "not found" and changes neither staging (data and metadata) nor storage; an expired token is deleted and the table persisted, otherwise the table and its persisted copy are unchanged |
| Uploads.ExtractExtensionSpec | app/utils/uploads.ts:65-69 | no `.` gives `''`; otherwise exactly the text after the last `.` |
| Uploads.ExtractExtensionOf | app/utils/uploads.ts:65-69 | `head.e` with a dot-free `e` has the extension `e` |
| Uploads.GeneratedKeySpec | app/utils/uploads.ts:23-26 | a generated key lies under `prefix/` and carries the file's extension |
| Uploads.EncodeSegments | app/utils/uploads.ts:59-62 | each segment percent-encoded, one for one |
| Uploads.PublicPathSegments | app/utils/uploads.ts:58-63 | a public path starts with `/uploads/` and has as many `/`-segments as the key, each decoding back to the key's segment |
| Uploads.ListedStopsAtLastPage | app/utils/uploads.ts:48-53 | the listing gathers the pages up to and including the first one with no cursor, and nothing after it |
| Uploads.Storage.constructor | app/utils/uploads.ts:14 | the storage starts with the given files |
| Uploads.Storage.SaveFile | app/utils/uploads.ts:18-34 | a value that is not a file is an error that stores nothing; otherwise the file, with its bytes, is stored under the explicit key, or the generated key under the prefix (`files` by default), and its key and public path are returned |
| Uploads.Storage.DeleteStoredFile | app/utils/uploads.ts:40-42 | the key is removed, nothing else changes |
| Uploads.Storage.DeleteListed | app/models/admin.server.ts:50-53 | the folder delete removes exactly the keys the recursive listing returned, and nothing else changes |
| Uploads.ListStoredFiles | app/utils/uploads.ts:44-56 | the result holds exactly the listed pages' files (as a multiset), newest first |
| Uploads.CollectPages | app/utils/uploads.ts:45-53 | the loop gathers the files of every page in order, up to and including the first page that carries no cursor |
| Uploads.SavedAllHolds | app/utils/uploads.ts:28 | after saving a batch, each file is stored under its generated key unless a later file took that key |
| Uploads.SavedAllKeeps | app/utils/uploads.ts:28 | saving a batch keeps every stored file whose key no new file takes |
| Uploads.SaveAll | app/utils/uploads.ts:18-34 | saving each file of a batch in turn gives the batch-save table |
| AdminServer.KeysOf | app/models/admin.server.ts:116-118 | the keys of a file listing, in order |
| AdminServer.DedupSnoc | app/models/admin.server.ts:99-125 | adding a key to the insertion-ordered set appends it only when new |
| AdminServer.CollectDownloadShareKeys | app/models/admin.server.ts:98-126 | the result is the duplicate-free, first-insertion-ordered list of the non-blank file keys followed by the files listed under each non-blank directory; an empty result is the error `The selected folders do not contain any files to share yet.` |
| AdminServer.CollectFileKeys | app/models/admin.server.ts:100-104 | the first loop keeps every non-blank key, untrimmed, once, in first-occurrence order |
| AdminServer.AddListed | app/models/admin.server.ts:116-118 | adding a directory's files keeps the set equal to the deduplicated keys seen so far |
| AdminServer.FileCandidatesMembers | app/models/admin.server.ts:100-104 | a key is a file candidate iff it is selected and non-blank, verbatim |
| AdminServer.DirectoryCandidatesMembers | app/models/admin.server.ts:106-119 | a key comes from the directories iff some non-blank selected directory lists it |
| AdminServer.CollectedKeysMembers | app/models/admin.server.ts:98-125 | the collected keys have no duplicates and are exactly the non-blank selected keys and the keys listed under the non-blank selected directories |
| AdminServer.DedupPrefix | app/models/admin.server.ts:99-125 | later additions never reorder earlier keys |
| AdminServer.FileKeysFirst | app/models/admin.server.ts:100-119 | the selected file keys come first, in their own order |
| AdminServer.DeleteFileAndShares | app/models/admin.server.ts:45-48 | the file is deleted and its key is removed from every share (see ShareStore.WithoutFileSpec); the table is persisted iff it changed |
| AdminServer.WithoutFilesSpec | app/models/admin.server.ts:50-54 | after purging a list of keys no download share lists any of them, no token is added, and upload shares are untouched |
| AdminServer.DeleteDirectoryAndShares | app/models/admin.server.ts:50-54 | every file listed under the directory is deleted and each of their keys is purged from the shares; the table is persisted iff the purges changed it, since a changed table never returns to its old value (ShareStore.WithoutFileShrinks) |
| AdminServer.MoveEntriesToDirectory | app/models/admin.server.ts:60-69 | the move result is returned unchanged; share keys are rewritten with its file pairs only when some file moved, and the table is persisted iff some download share held a moved key |
| AdminServer.MoveWithoutFiles | app/models/admin.server.ts:65-67 | rewriting with no pairs would change nothing, so skipping the call is safe |
| AdminShares.SelectedFileKey | app/modules/admin/shares.ts:38-53 | a `file:k` value gives k; a value with neither prefix is taken verbatim; a result is non-empty whenever the value was |
| AdminShares.SelectedDirectory | app/modules/admin/shares.ts:46-51 | a `directory:d` value with a non-empty d gives d |
| AdminShares.CandidatesStep | app/modules/admin/shares.ts:38-54 | each value adds at most one file key and at most one directory, in order |
| AdminShares.ClassifySelection | app/modules/admin/shares.ts:35-54 | the loop fills the two insertion-ordered sets with exactly the deduplicated file keys and directories of the selection |
| AdminShares.FileKeyCandidatesMembers | app/modules/admin/shares.ts:38-54 | a key is in the file set iff some selected value names it as a file |
| AdminShares.DirectoryCandidatesOfMembers | app/modules/admin/shares.ts:46-51 | a directory is in the directory set iff some selected value names it as a directory |
| AdminShares.TokensClassify | app/modules/admin/shares.ts:38-52 | the browser's `file:` and `directory:` tokens of a non-empty key are classified back to that key, each as its own kind only |
| AdminShares.OneKindEach | app/modules/admin/shares.ts:38-53 | no value is both a file key and a directory |
| AdminShares.SelectedKeysNonBlank | app/modules/admin/shares.ts:22-53 | a trimmed selection value gives non-blank keys and directories |
| AdminShares.DownloadShareKeys | app/modules/admin/shares.ts:22-70 | no trimmed non-blank value is the first error; no valid file or directory is the second; any success is a non-empty duplicate-free key list |
| AdminShares.DownloadShareKeysMembers | app/modules/admin/shares.ts:35-70 | the share's keys are exactly the selected file keys and the keys listed under the selected directories |
| AdminShares.AdminCreateDownloadShare | app/modules/admin/shares.ts:14-82 | an error redirects with its message and creates nothing; otherwise the share is created with the collected keys, its token placed in the insertion order, the table is persisted, and the redirect carries its token |
| AdminShares.UploadLimit | app/modules/admin/shares.ts:106 | the byte cap is passed only when it is a positive integer |
| AdminShares.UploadLimitKeepsCap | app/modules/admin/shares.ts:106 | dropping a non-positive cap does not change the quota the share enforces |
| AdminShares.AdminCreateUploadShare | app/modules/admin/shares.ts:84-121 | a blank path is refused and creates nothing; an invalid folder path is refused with `Folder path cannot contain navigation segments.` and creates nothing; otherwise an upload share for the trimmed, normalised folder is created, its token placed in the insertion order, the table persisted, and its token returned |
| AdminShares.AdminRevokeShare | app/modules/admin/shares.ts:123-145 | a missing or empty token is refused without revoking or persisting anything; otherwise that token is deleted, and the table persisted iff the token was present |
| AdminFiles.NothingSkipped | app/modules/admin/files.ts:24-25 | the skipped count `files - uploadable` is 0 iff no file is ignored |
| AdminFiles.AdminUpload | app/modules/admin/files.ts:15-51 | with no non-ignored file nothing is stored and the error depends on whether any file was sent; otherwise every uploadable file is saved under the posted path and the message counts uploaded and skipped files |
| AdminFiles.AdminDeleteFile | app/modules/admin/files.ts:53-78 | a missing or empty key is refused without deleting; otherwise the file is deleted and its key purged from the shares, the table being persisted iff it changed |
| AdminFiles.AdminDeleteDirectory | app/modules/admin/files.ts:132-163 | a missing or empty directory is refused without deleting; otherwise every file listed under it is deleted and purged from the shares, the table being persisted iff it changed |
| AdminFiles.FolderName | app/modules/admin/files.ts:90-111 | an accepted name is the trimmed text field, non-empty, without `/` or `\`, and not `.` or `..`; a missing or blank field is refused with `Folder name is required.`, any other refused name with `Folder name contains invalid characters.` |
| AdminFiles.CleanFolderNameAccepted | app/modules/admin/files.ts:90-111 | any text that trims to a clean segment is accepted as that trimmed segment, so surrounding white space is dropped rather than refused |
| AdminFiles.TargetPathSegments | app/modules/admin/files.ts:113 | the new folder's path is the current path's segments followed by the name, or just the name at the root |
| AdminFiles.AdminCreateDirectory | app/modules/admin/files.ts:80-130 | a folder is created iff the name is valid, at the path above; a missing or blank name is refused with `Folder name is required.`, any other refused name with `Folder name contains invalid characters.`; success reports `Created “name”.` |
| AdminFiles.StripTokenPrefix | app/modules/admin/files.ts:177-185 | one `file:` prefix, else one `directory:` prefix, is removed; any other value is kept |
| AdminFiles.NormalizeMoveEntries | app/modules/admin/files.ts:170-189 | the normalised move list has no duplicates |
| AdminFiles.MoveCandidatesMembers | app/modules/admin/files.ts:176-187 | a value is a candidate iff it is non-empty and is some entry with its prefix stripped and trimmed |
| AdminFiles.NormalizeMoveEntriesMembers | app/modules/admin/files.ts:170-189 | the normalised entries are exactly the non-empty, trimmed, prefix-stripped selected values, each already trimmed |
| AdminFiles.MoveTokensRoundTrip | app/modules/admin/files.ts:178-183 | stripping a browser token gives back its key |
| AdminFiles.AdminMoveEntries | app/modules/admin/files.ts:165-228 | an empty normalised list is refused and changes nothing; otherwise the move runs, share keys are rewritten when files moved and the table persisted iff some download share held a moved key, and a move of zero entries is reported as an error |
| FilesSection.DropLeadingEmpty | app/components/admin/FilesSection.tsx:363-374 | what remains starts with a non-empty segment |
| FilesSection.DropLeadingEmptySpec | app/components/admin/FilesSection.tsx:363-374 | only a leading run of empty segments is dropped; the rest is kept as it was |
| FilesSection.CrumbPathStep | app/components/admin/FilesSection.tsx:368-369 | one more segment extends the crumb path with `/segment`, or starts it |
| FilesSection.BuildBreadcrumbs | app/components/admin/FilesSection.tsx:356-375 | the first crumb is `All files` at `''`, alone for an empty path; otherwise one crumb per `/`-segment, labelled with the segment and linking to the path read so far |
| FilesSection.SegmentCrumbs | app/components/admin/FilesSection.tsx:363-374 | the loop builds one crumb per segment with the running path |
| FilesSection.LastCrumbIsPath | app/components/admin/FilesSection.tsx:363-374 | for a path not starting with `/`, the last crumb links to the path itself |
| FilesSection.CrumbsArePrefixes | app/components/admin/FilesSection.tsx:363-374 | for such a path every crumb links to a prefix of it |
| FilesSection.FormatSelectionLabel | app/components/admin/FilesSection.tsx:385-397 | a string with neither prefix is returned unchanged |
| FilesSection.DirectoryTokenLabel | app/components/admin/FilesSection.tsx:377-392 | a directory token is labelled `Folder /key` |
| FilesSection.FileTokenLabel | app/components/admin/FilesSection.tsx:381-395 | a file token is labelled `File /key` |
| FilesSection.TokensDistinct | app/components/admin/FilesSection.tsx:377-383 | a directory token never equals a file token |
| FilesSection.PersistedSelections | app/components/admin/FilesSection.tsx:46-51 | the kept selections are no more than the selected ones |
| FilesSection.PersistedSelectionsMembers | app/components/admin/FilesSection.tsx:46-51 | a token is kept iff it is selected and not on screen |
| FilesSection.PersistedSelectionsAppend | app/components/admin/FilesSection.tsx:46-51 | the filter keeps the original order: it distributes over concatenation |
| FilesSection.PersistedSelectionsAllOffScreen | app/components/admin/FilesSection.tsx:46-51 | a selection with nothing on screen is kept whole |
| FilesSection.ListedFileNotPersisted | app/components/admin/FilesSection.tsx:46-51 | a file on screen is never among the persisted selections |
| FilesSection.RemoveLinkSelection | app/components/admin/FilesSection.tsx:151 | the per-item Remove link's selection is the same filter with that token alone on screen: every copy of the token removed, the rest in order |
| FilesSection.RelativeKey | app/components/admin/FilesSection.tsx:278-281 | a key under `path/` is that prefix followed by the result; any other key is returned unchanged |
| FilesSection.RelativeKeyOfChild | app/components/admin/FilesSection.tsx:278-281 | a child's key is shown as its name |
| ContentDisposition.UnescapePercentBytes | app/utils/content-disposition.ts:10 | the final unescape leaves every escape other than `%7C`, `%60` and `%5E` alone |
| ContentDisposition.PercentBytesUntouched | app/utils/content-disposition.ts:8-9 | the quote, paren and star rewrites leave percent escapes alone |
| ContentDisposition.EscapedUnreserved | app/utils/content-disposition.ts:7-9 | of the characters encodeURIComponent keeps, only `'`, `(`, `)` and `*` are escaped by the two rewrites |
| ContentDisposition.EscapedReserved | app/utils/content-disposition.ts:7-9 | the characters it escapes stay UTF-8 percent escapes through the two rewrites |
| ContentDisposition.UnescapeSpecial | app/utils/content-disposition.ts:10 | `\|`, ``` ` ``` and `^` are unescaped back to themselves |
| ContentDisposition.ExtCharStages | app/utils/content-disposition.ts:6-11 | for one character, the three rewrites give the per-character encoding |
| ContentDisposition.Encode5987ByChar | app/utils/content-disposition.ts:6-11 | the rewrite chain equals the per-character encoding over the whole name |
| ContentDisposition.ExtCharSpecials | app/utils/content-disposition.ts:8-10 | `'`, `(`, `)`, `*` become `%27`, `%28`, `%29`, `%2A`; `\|`, ``` ` ``` and `^` stay literal |
| ContentDisposition.Encode5987WellEncoded | app/utils/content-disposition.ts:6-11 | the encoded value is made only of RFC 5987 attr-chars and upper-case `%HH` triples |
| ContentDisposition.Decode5987 | app/utils/content-disposition.ts:6-11 | percent-decoding the encoded value gives the original name back |
| ContentDisposition.SplitAtFirst | app/utils/content-disposition.ts:3 | splitting at the first occurrence of a character, when there is one |
| ContentDisposition.AttachmentDispositionReadsBack | app/utils/content-disposition.ts:1-4 | the header reads back as `attachment; filename="name without quotes"; filename*=UTF-8''encoded`, the quoted part holding no `"` and the encoded part decoding to the full name |
| ContentDisposition.ParseAttachmentOf | app/utils/content-disposition.ts:1-4 | a header of the written shape, with a quoted part free of `"`, reads back as that part and the decoded extended value |
| Numbers.ParsePositiveInteger | app/utils/numbers.ts:1-5 | a number is returned exactly when the value is text whose `parseInt` reading is a number above zero, and it is that reading |
| Numbers.ParsePositiveIntegerDigits | app/utils/numbers.ts:3-5 | a leading run of decimal digits is read and anything after it ignored; a run worth zero is refused |
| Numbers.ParsePositiveIntegerNoDigits | app/utils/numbers.ts:3-4 | text without any digit is refused |
| Numbers.ParsePositiveIntegerFormatted | app/utils/numbers.ts:1-5 | every positive number written in decimal is read back as itself |
| GithubWebhook.LenientHexDecode | app/modules/webhooks/github.ts:24-35 | an odd-length value is refused; a decoded value has one byte per two characters |
| GithubWebhook.DecodedPairs | app/modules/webhooks/github.ts:28-34 | when every pair reads as a number, the decoding is exactly those numbers stored as bytes |
| GithubWebhook.HexToBytes | app/modules/webhooks/github.ts:24-35 | the loop computes the pair-by-pair `parseInt` decoding, refusing on the first pair that is not a number |
| GithubWebhook.StoreNumbers | app/modules/webhooks/github.ts:26-34 | storing a run of parsed numbers gives null exactly when one of them is NaN; otherwise each stored byte is its number modulo 256 |
| GithubWebhook.StrictHexDecode | app/modules/webhooks/github.ts:24-35 | a decoded value has one byte per two characters and the input is all lower-case hex digits |
| GithubWebhook.StrictHexUnique | app/modules/webhooks/github.ts:24-35 | whatever the strict decoding accepts is the lower-case hex of the bytes it yields, so each byte string has one accepted spelling |
| GithubWebhook.StrictHexRoundTrip | app/modules/webhooks/github.ts:24-35 | decoding the hex of any byte string gives that byte string back |
| GithubWebhook.ParseHexPair | app/modules/webhooks/github.ts:29 | `parseInt` of two hex digits in base 16 is their value |
| GithubWebhook.StoredByte | app/modules/webhooks/github.ts:31 | a byte value is stored unchanged in the byte array |
| GithubWebhook.HexPairNumber | app/modules/webhooks/github.ts:29-31 | a pair of hex digits decodes to the byte they spell |
| GithubWebhook.HexPairsParse | app/modules/webhooks/github.ts:28-32 | on an all-hex input every pair parses, each to the byte it spells |
| GithubWebhook.LenientAgreesOnHex | app/modules/webhooks/github.ts:24-35 | on even-length lower-case hex input the source's decoding and the strict one agree |
| GithubWebhook.ParseSignedDigit | app/modules/webhooks/github.ts:29 | `parseInt` reads a minus sign followed by a hex digit as a negative number |
| GithubWebhook.LenientAcceptsSignedPair | app/modules/webhooks/github.ts:24-35 | the source's decoding reads `"-1"` as the byte 255, the same as `"ff"`, where the strict decoding refuses it |
| GithubWebhook.SignedPairDecodes | app/modules/webhooks/github.ts:29-31 | a pair of `-` and a hex digit is accepted as the byte of its negated value modulo 256, and the strict decoding refuses it |
| GithubWebhook.HexPairDecodes | app/modules/webhooks/github.ts:29-31 | a pair of two hex digits decodes to the byte they name |
| GithubWebhook.BitXor | app/modules/webhooks/github.ts:41 | the exclusive or of two numbers taken on the low bits stays within that width |
| GithubWebhook.BitOr | app/modules/webhooks/github.ts:41 | the or of two numbers taken on the low bits stays within that width |
| GithubWebhook.XorZero | app/modules/webhooks/github.ts:41 | the exclusive or of two numbers of the width is zero exactly when they are equal |
| GithubWebhook.OrZero | app/modules/webhooks/github.ts:41 | the or of two numbers of the width is zero exactly when both are zero |
| GithubWebhook.TimingSafeEqual | app/modules/webhooks/github.ts:37-44 | the comparison answers true exactly when both byte strings are equal, length included |
| GithubWebhook.VerifySignature | app/modules/webhooks/github.ts:46-63 | the signature is accepted exactly when it starts with `sha256=` and `hexToBytes` (with its `parseInt` leniency) turns the rest into the HMAC of the body under the secret |
| GithubWebhook.StrictVerifySignature | app/modules/webhooks/github.ts:46-63 | with the strict decoding, the signature is accepted exactly when it is `sha256=` followed by the lower-case hex of the HMAC |
| GithubWebhook.StrictSignatureExactly | app/modules/webhooks/github.ts:46-63 | the strict test holds exactly when the signature equals `sha256=` plus the lower-case hex of the HMAC |
| GithubWebhook.GenuineSignatureMatches | app/modules/webhooks/github.ts:46-63 | the signature computed from the secret and the body is accepted by the source's test and by the strict one |
| GithubWebhook.MalformedSignatureRejected | app/modules/webhooks/github.ts:24-55 | a signature without the prefix, with a rest of odd length, or with a pair of the rest that `parseInt` reads as NaN is refused |
| GithubWebhook.TailBytes | app/modules/webhooks/github.ts:28-34 | every pair of an accepted text parses, and to the byte stored for it |
| GithubWebhook.HeadPairDecodes | app/modules/webhooks/github.ts:28-34 | a pair that parses, put before a text whose pairs parse, adds its byte in front of theirs |
| GithubWebhook.SignedSpellingDecodes | app/modules/webhooks/github.ts:24-35 | `-1` followed by the hex of the rest of a byte string starting with 0xff decodes to that byte string, and the strict decoding refuses it |
| GithubWebhook.SignedSignatureAccepted | app/modules/webhooks/github.ts:46-63 | for an HMAC starting with 0xff, `sha256=-1` followed by the hex of the other bytes passes the source's test and fails the strict one |
| GithubWebhook.PushPayloadIsObject | app/modules/webhooks/github.ts:65-76 | an accepted push payload is an object whose `repository` is an object |
| GithubWebhook.LookupAppended | app/modules/webhooks/github.ts:68-69 | members appended under other names do not change a property lookup |
| GithubWebhook.PushPayloadAccepted | app/modules/webhooks/github.ts:65-76 | any object with string `ref`, `after` and `repository.full_name`, whatever else it carries, is accepted and its `after` is read back |
| GithubWebhook.UpdateQueue.constructor | app/modules/webhooks/github.ts:22 | no update starts in flight |
| GithubWebhook.UpdateQueue.QueueUpdate | app/modules/webhooks/github.ts:89-113 | answers busy when an update is in flight and queued otherwise; afterwards one is in flight |
| GithubWebhook.UpdateQueue.Settle | app/modules/webhooks/github.ts:108-110 | once the pull has finished nothing is in flight |
| GithubWebhook.GithubWebhookHandler | app/modules/webhooks/github.ts:115-172 | the response is the handler's ordered checks over the request, and an update is started only when the push is accepted and none is running |
| GithubWebhook.WebhookCheckOrder | app/modules/webhooks/github.ts:115-131 | a missing secret gives 500, a missing signature or event header 400, a signature the source's `hexToBytes` test refuses 401, in that order |
| GithubWebhook.AcceptedOnlyVerifiedPush | app/modules/webhooks/github.ts:133-171 | an accepted answer needs the secret, a signature the source's `hexToBytes` test accepts, a `push` event and a well-formed payload, and reports the payload's `after` as its commit |
| SecurityHeaders.JoinWithCons | app/utils/security-headers.ts:12-22 | `join` puts the separator between the first part and the join of the rest |
| SecurityHeaders.ScriptSrcJoined | app/utils/security-headers.ts:3 | the script sources join to `'self' https://cdn.jsdelivr.net` |
| SecurityHeaders.JoinWithThree | app/utils/security-headers.ts:13 | three parts join with a separator between each pair |
| SecurityHeaders.StyleSrcJoined | app/utils/security-headers.ts:5 | the style sources join to `'self' 'unsafe-inline' https://cdn.jsdelivr.net` |
| SecurityHeaders.ImgSrcJoined | app/utils/security-headers.ts:7 | the image sources join to `'self' data: blob:` |
| SecurityHeaders.FontSrcJoined | app/utils/security-headers.ts:8 | the font sources join to `'self' data:` |
| SecurityHeaders.JoinWithParts | app/utils/security-headers.ts:10-22 | a join splits, at any part boundary, into the join of the parts before, the separator and the join of the parts after |
| SecurityHeaders.JoinWithContains | app/utils/security-headers.ts:10-22 | every inner part appears in the join between two separators |
| SecurityHeaders.CspContainsDirective | app/utils/security-headers.ts:10-22 | every inner directive appears in the policy delimited by `; ` on both sides |
| SecurityHeaders.MergedKeepsPresent | app/utils/security-headers.ts:36-40 | a header the response already has keeps its value |
| SecurityHeaders.MergedKeys | app/utils/security-headers.ts:36-40 | afterwards the response has exactly its own headers and the default names |
| SecurityHeaders.MergedDefaultValue | app/utils/security-headers.ts:36-40 | a default whose name the response lacks is set to the default's value |
| SecurityHeaders.MergedAllPresent | app/utils/security-headers.ts:36-40 | a response that already has every default is left as it is |
| SecurityHeaders.DefaultNamesDistinct | app/utils/security-headers.ts:24-33 | the default header names differ from each other, case aside |
| SecurityHeaders.HstsNotDefault | app/utils/security-headers.ts:24-44 | `Strict-Transport-Security` is not one of the defaults |
| SecurityHeaders.Headers.constructor | app/utils/security-headers.ts:35 | the headers start as the response's own |
| SecurityHeaders.Headers.Set | app/utils/security-headers.ts:38 | setting a name, case-insensitively, gives it the value and changes nothing else |
| SecurityHeaders.Response.constructor | app/utils/security-headers.ts:35 | a response holds its headers |
| SecurityHeaders.MergeDefaults | app/utils/security-headers.ts:36-40 | the loop leaves the headers as the merge of the defaults into the old headers |
| SecurityHeaders.ApplySecurityHeaders | app/utils/security-headers.ts:35-47 | the same response is returned, its headers updated by the merge and, when cookies are secure, the HSTS header |
| SecurityHeaders.PresentNotOverwritten | app/utils/security-headers.ts:36-44 | a header already present keeps its value unless it is the forced one on a secure deployment |
| SecurityHeaders.DefaultsPresent | app/utils/security-headers.ts:36-40 | every default is present afterwards, with the default's value when it was missing |
| SecurityHeaders.ForcedOnlyWhenSecure | app/utils/security-headers.ts:42-44 | the HSTS header is overwritten when cookies are secure and otherwise left as the response had it |
| SecurityHeaders.NothingRemoved | app/utils/security-headers.ts:35-47 | no header is removed and only defaults and HSTS are added |
| SecurityHeaders.AppliedIdempotent | app/utils/security-headers.ts:35-47 | applying the headers twice gives the same headers as once |
| SecurityHeaders.SecurityDefaultsPresent | app/utils/security-headers.ts:24-40 | each of the eight security headers is present afterwards, with its listed value when it was missing |
| SecurityHeaders.SecurityHsts | app/utils/security-headers.ts:42-44 | on a secure deployment HSTS is `max-age=31536000; includeSubDomains`; otherwise it is not touched |
| Forms.FilesOf | app/modules/share/upload.tsx:78 | the File values of a field, never more than the field's values |
| Forms.NotIgnored | app/modules/share/upload.tsx:80 | the accepted uploads, never more than the files |
| Forms.WithDirectoryFlag | app/modules/share/upload.tsx:81-82 | the folder placeholders, or the real files, never more than the accepted uploads |
| Forms.SelectionMembers | app/modules/share/upload.tsx:78-82 | a file is among the form's files exactly when it is one of its File values, among the accepted ones exactly when it is not ignored, and among the folders or real files exactly when its flag says so |
| Forms.SplitByDirectory | app/modules/share/upload.tsx:80-82 | every accepted upload is either a folder placeholder or a real file, never both |
| Forms.TrimmedTexts | app/modules/admin/shares.ts:23-26 | the trimmed, non-empty texts of a field, never more than its values |
| Forms.TrimmedTextsMembers | app/modules/admin/shares.ts:23-26 | a text is kept exactly when it is non-empty and some value of the field trims to it |
| Forms.TrimmedTextsTrimmed | app/modules/admin/shares.ts:23-26 | every kept text has nothing left to trim |

## Left out

- File and disk I/O: the upload storage, the staging directory and the registry's JSON file are maps held by classes. The move of stored entries is the exception: it does not touch the storage map (see AdminServer.MoveEntriesToDirectory below). Storage failures and their 500 answers are not modelled, because the model's storage cannot fail. For the same reason the admin routes' `catch` branches, which redirect to the dashboard with the error's message (app/modules/admin/files.ts:35-39, 68-72, 117-124, 150-156 and 220-227), are not modelled. This includes AdminFiles.AdminMoveEntries, whose `move` parameter cannot throw.
- Share persistence: `persistShares` is the assignment of the live table to the persisted copy. `loadSharesFromDisk` is the registry constructor's arguments: the table read, and its tokens in file order. The persisted copy is a map, so the order of the records in the written file is not modelled. The live table's insertion order is modelled (`ShareStore.ShareRegistry.order`).
- ShareStore.ShareRegistry.constructor: requires a well-formed table. `loadSharesFromDisk` (app/utils/share-store.ts:233-250) copies `fileKeys` as they are and reads `uploadedBytes ?? 0` without checking either. Every table the program writes is well formed, but a hand-edited shares file with repeated keys or a negative byte count is not modelled. It also requires the loaded order to list each loaded token once: a file that repeats a token is read with the token at its first position, which the caller supplies as that order.
- `readResumableMeta`, `getFileSize` and `exists`: lookups in the staging maps.
- `parseNonNegativeInteger` and `parseByteLimit`, imported by app/modules/admin/shares.ts: these are not defined in app/utils/numbers.ts, so the admin share handlers take the parsed `expiresIn` and `maxBytes` as parameters.
- The recursive `listStoredFiles({ path, recursive })` call in app/models/admin.server.ts: this takes arguments that app/utils/uploads.ts does not accept, so it is a `listing` function parameter.
- `isIgnoredUpload` and `isDirectoryUpload`: these are not defined in app/utils/uploads.ts, so they are the `ignored` and `directory` flags of each uploaded file.
- Randomness and the clock (`randomBytes`, `randomId`, `Date.now`): the token, the upload id and `now` are parameters.
- HMAC-SHA-256, `JSON.parse` and `TextDecoder`: function parameters of the webhook handler.
- The `git pull` spawned by `queueUpdate`, and its logging: only the in-flight flag is modelled, with `Settle` standing for the promise's `finally`.
- The yazl ZIP encoder: only the archive size formula and the entry list are modelled, not the bytes produced. The comment at app/modules/share/download.tsx:394 says the formula matches yazl.
- Web streams and reader cancellation: a stream is a sequence of byte chunks, and the slicer's early stop is the point where it stops reading chunks.
- `Promise.all`: the saves of a multipart batch, the saves of `storeUploadedFiles` (app/models/admin.server.ts:40-43) and the share purges of `deleteDirectoryAndShares` (app/models/admin.server.ts:50-54) happen one after another.
- `formatBytes` and other display formatting: a message that names a byte count carries the number, not its formatted text.
- The JSX of app/components/admin/FilesSection.tsx: only the computations behind it are modelled.
- `localeCompare`, used to sort keys and names: replaced by code-point order, since locale collation is not modelled.
- JavaScript numbers: an integer or NaN. Infinity, fractions and the loss of precision when `parseInt` reads very long digit strings are not modelled.
- `config.secureCookies` and the environment's webhook secret: parameters.
- SecurityHeaders.ContentSecurityPolicy: the policy is stated through its directives and their joins, not as one literal string.
- Redirect URLs: the admin redirect is modelled as the message, error and share token it carries. The `path` the routes pass is dropped, because `redirectToDashboard` does not read it. The admin handler models read the form fields the server code reads (`path`, `entries`, `name`, `token`). Which browser form posts to which handler is not part of this model.
- AdminServer.MoveEntriesToDirectory: `moveStoredEntries` is not defined in app/utils/uploads.ts, so the move is a function parameter whose result is unconstrained. Its effect on the stored files is not modelled: after a move the storage map still holds the old keys, while the shares hold the new ones. AdminFiles.AdminMoveEntries inherits this.
- Uploads.Storage.DeleteListed: `deleteStoredDirectory` is not defined in app/utils/uploads.ts. It is modelled as removing exactly the keys that the recursive listing returned for the folder, not as a recursive delete of the folder on disk.
- AdminFiles.AdminCreateDirectory: returns the path to create. Creating it is a storage effect and is not modelled.
- Upload.FinalizeResumableUpload: the `if (!saved)` branch is not modelled, because `saveFile` always returns a record and the branch is unreachable. The `Uploaded data not found.` branch is not modelled either: it follows a successful size lookup of the same data file, so the file exists.
- Upload.HandleUploadShareAction: its contract states only the not-found answer. The two request kinds it dispatches to are stated by Upload.HandleResumableUpload and Upload.HandleMultipartUpload.
- GithubWebhook.GithubWebhookHandler: checks the signature as the source does, with `hexToBytes` and its `parseInt` leniency. The strict test of GithubWebhook.StrictVerifySignature is stated beside it and is not used by the handler.
- GithubWebhook.BitXor: JavaScript's `^` and `|` work on 32-bit signed integers, while the model takes them on the low eight bits. The two agree here, because the operands are bytes and an OR of byte differences stays below 256.
- Resumable.SlotPaths: `path.join` is modelled as joining with `/`. Its normalisation of the root (a trailing `/`, `.` or `..` segments) is not modelled; the sanitised scope and id hold neither `/` nor `.`, so only the root is affected.
- Lone UTF-16 surrogates, which make `encodeURIComponent` throw: Dafny strings hold Unicode scalar values, so such names cannot occur in the model.

## Findings

| source | as written | input that shows it | evidently intended | confidence | as-written member | corrected member |
|---|---|---|---|---|---|---|
| app/modules/webhooks/github.ts:24-35 | each two-character slice is read with `Number.parseInt(pair, 16)`, which accepts a sign, leading white space or trailing junk, and the result is stored modulo 256 | the pair `-1` decodes to the byte `0xff`, as `ff` does, so `sha256=-1…` is accepted wherever `sha256=ff…` is | only lower-case hex digits are accepted, so each HMAC has exactly one accepted spelling | medium, not executed | GithubWebhook.SignedSignatureAccepted | GithubWebhook.StrictVerifySignature |
