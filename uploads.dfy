/** uploads.ts: the stored-file table, storage-key construction, public paths and the
    paged listing. The storage backend is an abstract map from key to file record. */
module Uploads {
  import opened Wrappers
  import opened Strings
  import opened Sorting
  import opened JsNumbers
  import opened UriCodec
  import opened Unicode
  import opened Forms

  /** StoredFile: what the storage reports for a key, with the file's bytes. */
  datatype StoredFile = StoredFile(key: string, name: string, mediaType: string, size: nat, lastModified: int,
                                   contents: seq<Byte>)

  /** saveFile's result: the key and its public path. */
  datatype SavedFile = SavedFile(key: string, path: string)

  /** saveFile's options; each is `undefined` (None) or a string. */
  datatype SaveOptions = SaveOptions(prefix: Option<string>, key: Option<string>)

  const DefaultPrefix: string := "files"
  const PublicRoot: string := "/uploads/"

  /** extractExtension: the last `.`-separated part, or "" for a name without a dot. */
  function ExtractExtension(filename: string): string
  {
    var parts := Split(filename, '.');
    if |parts| <= 1 then "" else parts[|parts| - 1]
  }

  /** The extension is empty for a name without `.`; otherwise it is exactly the text after
      the last `.` of the name. */
  lemma ExtractExtensionSpec(filename: string)
    ensures '.' !in filename ==> ExtractExtension(filename) == ""
    ensures '.' in filename ==>
      var ext := ExtractExtension(filename);
      '.' !in ext && |ext| < |filename| && filename[|filename| - |ext| - 1] == '.'
      && filename[|filename| - |ext|..] == ext
  {
    var parts := Split(filename, '.');
    if '.' !in filename {
      SplitNoSeparator(filename, '.');
    } else {
      SplitSeveral(filename, '.');
      JoinSplit(filename, '.');
      JoinLast(parts, '.');
      var ext := parts[|parts| - 1];
      var head := Join(parts[..|parts| - 1], '.');
      assert filename == head + ['.'] + ext;
      assert filename[|filename| - |ext|..] == ext;
    }
  }

  /** A name ending in `.e`, with no dot in `e`, has extension `e`. */
  lemma ExtractExtensionOf(head: string, e: string)
    requires '.' !in e
    ensures ExtractExtension(head + "." + e) == e
  {
    var name := head + "." + e;
    assert name[|name| - |e| - 1] == '.';
    assert '.' in name;
    ExtractExtensionSpec(name);
    var ext := ExtractExtension(name);
    assert name[|name| - |e|..] == e;
  }

  /** The key saveFile generates: `prefix/<time>-<id>` and `.ext` when the name has one. */
  function GeneratedKey(prefix: string, now: int, id: string, filename: string): string
  {
    var ext := ExtractExtension(filename);
    prefix + "/" + IntToDecimal(now) + "-" + id + (if ext != "" then "." + ext else "")
  }

  /** The generated key lies under `prefix/` and keeps the file's extension, provided the
      prefix and the random id hold no dot. */
  lemma GeneratedKeySpec(prefix: string, now: int, id: string, filename: string)
    requires '.' !in prefix && '.' !in id
    ensures StartsWith(GeneratedKey(prefix, now, id, filename), prefix + "/")
    ensures ExtractExtension(GeneratedKey(prefix, now, id, filename)) == ExtractExtension(filename)
  {
    var ext := ExtractExtension(filename);
    var stamp := IntToDecimal(now);
    var base := prefix + "/" + stamp + "-" + id;
    var key := GeneratedKey(prefix, now, id, filename);
    assert key[..|prefix + "/"|] == prefix + "/";
    if ext != "" {
      ExtractExtensionSpec(filename);
      assert key == base + "." + ext;
      ExtractExtensionOf(base, ext);
    } else {
      assert '.' !in stamp by {
        var digits := if now < 0 then NatToString(-now, 10) else NatToString(now, 10);
        assert forall i :: 0 <= i < |digits| ==> IsDigit(digits[i], 10);
      }
      assert key == base;
      assert forall i :: 0 <= i < |key| ==> key[i] != '.' by {
        forall i | 0 <= i < |key| ensures key[i] != '.' {
          if i < |prefix| {
            assert key[i] == prefix[i];
          } else if i == |prefix| {
          } else if i < |prefix| + 1 + |stamp| {
            assert key[i] == stamp[i - |prefix| - 1];
          } else if i == |prefix| + 1 + |stamp| {
          } else {
            assert key[i] == id[i - |prefix| - 2 - |stamp|];
          }
        }
      }
      ExtractExtensionSpec(key);
    }
  }

  /** Each `/`-separated segment passed through encodeURIComponent. */
  function EncodeSegments(parts: seq<string>): (r: seq<string>)
    ensures |r| == |parts|
    ensures forall i :: 0 <= i < |r| ==> r[i] == EncodeURIComponent(parts[i])
  {
    if parts == [] then [] else [EncodeURIComponent(parts[0])] + EncodeSegments(parts[1..])
  }

  /** publicPathForKey */
  function PublicPathForKey(key: string): string
  {
    PublicRoot + Join(EncodeSegments(Split(key, '/')), '/')
  }

  /** The public path is `/uploads/` followed by as many `/`-separated segments as the key
      has, each of which percent-decodes back to the key's segment. */
  lemma PublicPathSegments(key: string)
    ensures StartsWith(PublicPathForKey(key), PublicRoot)
    ensures var segments := Split(PublicPathForKey(key)[|PublicRoot|..], '/');
            |segments| == |Split(key, '/')|
            && forall i :: 0 <= i < |segments| ==>
                 DecodeURIComponent(segments[i]) == Some(Split(key, '/')[i])
  {
    var parts := Split(key, '/');
    var encoded := EncodeSegments(parts);
    var path := PublicPathForKey(key);
    assert path[..|PublicRoot|] == PublicRoot;
    assert path[|PublicRoot|..] == Join(encoded, '/');
    forall i | 0 <= i < |encoded| ensures '/' !in encoded[i] {
      EncodeNoSlash(parts[i]);
    }
    SplitJoin(encoded, '/');
    forall i | 0 <= i < |encoded| ensures DecodeURIComponent(encoded[i]) == Some(parts[i]) {
      DecodeEncode(parts[i]);
    }
  }

  /** One answer of the storage's `list`: a page of files and the cursor for the next. */
  datatype Page = Page(files: seq<StoredFile>, cursor: Option<string>)

  /** `while (cursor)`: a cursor that is present and not empty asks for another page. */
  predicate HasCursor(p: Page) { p.cursor.Some? && p.cursor.value != "" }

  /** The files the listing gathers when the storage answers its successive calls with
      `pages` (and, past the end of `pages`, with an empty last page): every page up to and
      including the first one that carries no cursor. */
  function Listed(pages: seq<Page>): seq<StoredFile>
  {
    if pages == [] then [] else pages[0].files + (if HasCursor(pages[0]) then Listed(pages[1..]) else [])
  }

  /** Pages after the first page without a cursor are never read. */
  lemma {:induction false} ListedStopsAtLastPage(pages: seq<Page>, k: nat)
    requires k < |pages| && !HasCursor(pages[k])
    requires forall i :: 0 <= i < k ==> HasCursor(pages[i])
    ensures Listed(pages) == Listed(pages[..k + 1])
  {
    if k > 0 {
      ListedStopsAtLastPage(pages[1..], k - 1);
      assert pages[1..][..k] == pages[..k + 1][1..];
    }
  }

  ghost predicate LatestFirst(files: seq<StoredFile>) {
    forall i, j :: 0 <= i < j < |files| ==> files[i].lastModified >= files[j].lastModified
  }

  /** The storage: every stored file under its key. */
  class Storage {
    var files: map<string, StoredFile>

    constructor(initial: map<string, StoredFile>)
      ensures files == initial
    {
      files := initial;
    }

    /** saveFile. A value that is not a File is refused and nothing is stored. Otherwise
        the file is stored under the explicit key when one is given, or else under a key
        generated from the prefix (default "files"), the time `now` and the random `id`. */
    method SaveFile(value: FormValue, options: SaveOptions, now: int, id: string) returns (r: Result<SavedFile>)
      modifies this
      ensures value.Text? ==> r.Err? && files == old(files)
      ensures value.FileValue? ==>
        var prefix := if options.prefix.Some? then options.prefix.value else DefaultPrefix;
        var key := if options.key.Some? then options.key.value else GeneratedKey(prefix, now, id, value.file.name);
        && r == Ok(SavedFile(key, PublicPathForKey(key)))
        && files == old(files)[key := StoredFile(key, value.file.name, value.file.mediaType, value.file.size, value.file.lastModified,
                                                   value.file.contents)]
    {
      if value.Text? {
        return Err("Expected a File instance");
      }
      var file := value.file;
      var prefix := if options.prefix.Some? then options.prefix.value else DefaultPrefix;
      var key := if options.key.Some? then options.key.value else GeneratedKey(prefix, now, id, file.name);
      files := files[key := StoredFile(key, file.name, file.mediaType, file.size, file.lastModified, file.contents)];
      r := Ok(SavedFile(key, PublicPathForKey(key)));
    }

    /** deleteStoredFile: removing a missing key is not an error. */
    method DeleteStoredFile(key: string)
      modifies this
      ensures files == old(files) - {key}
    {
      files := files - {key};
    }

    /** The effect of deleteStoredDirectory on the stored files, given the keys its
        recursive listing returned: exactly those are gone. */
    method DeleteListed(keys: set<string>)
      modifies this
      ensures files == old(files) - keys
    {
      files := files - keys;
    }
  }

  /** listStoredFiles: the do-while loop over pages, then the sort by lastModified, newest
      first. The result holds exactly the files of the pages read. */
  method ListStoredFiles(pages: seq<Page>) returns (files: seq<StoredFile>)
    ensures multiset(files) == multiset(Listed(pages))
    ensures LatestFirst(files)
  {
    var collected := CollectPages(pages);
    files := SortByKeyDescending(collected, (f: StoredFile) => f.lastModified);
  }

  /** The do-while loop of listStoredFiles: one call per page until a page has no cursor. */
  method CollectPages(pages: seq<Page>) returns (collected: seq<StoredFile>)
    ensures collected == Listed(pages)
  {
    collected := [];
    var calls := 0;
    var more := true;
    while more
      invariant calls <= |pages| + 1
      invariant more ==> calls <= |pages| && Listed(pages) == collected + Listed(pages[calls..])
      invariant !more ==> collected == Listed(pages)
      decreases |pages| + 1 - calls
    {
      var page := if calls < |pages| then pages[calls] else Page([], None);
      if calls < |pages| {
        assert pages[calls..][1..] == pages[calls + 1..];
        assert Listed(pages[calls..]) == page.files + (if HasCursor(page) then Listed(pages[calls + 1..]) else []);
      }
      collected := collected + page.files;
      calls := calls + 1;
      more := HasCursor(page);
    }
  }

  /** The storage after saving `files` in order, the i-th with the random id `ids(i)`. */
  function SavedAll(stored: map<string, StoredFile>, files: seq<FileData>, prefix: string, now: int,
                    ids: nat -> string): map<string, StoredFile>
  {
    if files == [] then stored
    else
      var before := SavedAll(stored, files[..|files| - 1], prefix, now, ids);
      var f := files[|files| - 1];
      var key := GeneratedKey(prefix, now, ids(|files| - 1), f.name);
      before[key := StoredFile(key, f.name, f.mediaType, f.size, f.lastModified, f.contents)]
  }

  /** Every saved file is found under its generated key, unless a later file of the batch
      was given the same key. */
  lemma {:induction false} SavedAllHolds(stored: map<string, StoredFile>, files: seq<FileData>, prefix: string,
                                         now: int, ids: nat -> string, i: nat)
    requires i < |files|
    requires forall j :: i < j < |files| ==>
      GeneratedKey(prefix, now, ids(j), files[j].name) != GeneratedKey(prefix, now, ids(i), files[i].name)
    ensures var key := GeneratedKey(prefix, now, ids(i), files[i].name);
      var m := SavedAll(stored, files, prefix, now, ids);
      key in m && m[key] == StoredFile(key, files[i].name, files[i].mediaType, files[i].size, files[i].lastModified,
                                            files[i].contents)
  {
    if i < |files| - 1 {
      var init := files[..|files| - 1];
      forall j | i < j < |init|
        ensures GeneratedKey(prefix, now, ids(j), init[j].name) != GeneratedKey(prefix, now, ids(i), init[i].name)
      {
        assert init[j] == files[j];
      }
      SavedAllHolds(stored, init, prefix, now, ids, i);
    }
  }

  /** Nothing stored before the batch is lost except where a batch key overwrites it. */
  lemma {:induction false} SavedAllKeeps(stored: map<string, StoredFile>, files: seq<FileData>, prefix: string,
                                         now: int, ids: nat -> string, key: string)
    requires key in stored
    requires forall j :: 0 <= j < |files| ==> GeneratedKey(prefix, now, ids(j), files[j].name) != key
    ensures var m := SavedAll(stored, files, prefix, now, ids);
      key in m && m[key] == stored[key]
  {
    if files != [] {
      var init := files[..|files| - 1];
      forall j | 0 <= j < |init| ensures GeneratedKey(prefix, now, ids(j), init[j].name) != key {
        assert init[j] == files[j];
      }
      SavedAllKeeps(stored, init, prefix, now, ids, key);
    }
  }

  /** `Promise.all(acceptedUploads.map((file) => saveFile(file, { prefix })))`, one file at a
      time. */
  method SaveAll(storage: Storage, files: seq<FileData>, prefix: string, now: int, ids: nat -> string)
    modifies storage
    ensures storage.files == SavedAll(old(storage.files), files, prefix, now, ids)
  {
    for i := 0 to |files|
      invariant storage.files == SavedAll(old(storage.files), files[..i], prefix, now, ids)
    {
      assert files[..i + 1][..i] == files[..i];
      var saved := storage.SaveFile(FileValue(files[i]), SaveOptions(Some(prefix), None), now, ids(i));
    }
    assert files[..|files|] == files;
  }
}
