/** Values read from a multipart form body (FormDataEntryValue: a string or a File). */
module Forms {
  import opened Wrappers
  import opened Strings
  import opened Unicode

  /** A File from a form body. `ignored` and `directory` are the verdicts of the upload
      filters isIgnoredUpload and isDirectoryUpload, whose bodies are not part of this model;
      they are carried as given facts about each file. */
  datatype FileData = FileData(
    name: string,
    mediaType: string,
    size: nat,
    lastModified: int,
    contents: seq<Byte>,
    ignored: bool,
    directory: bool)

  datatype FormValue = Text(text: string) | FileValue(file: FileData)

  /** `getAll(name).filter((value) => value instanceof File)` */
  function FilesOf(values: seq<FormValue>): (r: seq<FileData>)
    ensures |r| <= |values|
  {
    if values == [] then []
    else
      assert values == [values[0]] + values[1..];
      (if values[0].FileValue? then [values[0].file] else []) + FilesOf(values[1..])
  }

  /** `files.filter((file) => !isIgnoredUpload(file))` */
  function NotIgnored(files: seq<FileData>): (r: seq<FileData>)
    ensures |r| <= |files|
  {
    if files == [] then []
    else
      assert files == [files[0]] + files[1..];
      (if !files[0].ignored then [files[0]] else []) + NotIgnored(files[1..])
  }

  /** Keeps the files whose `directory` flag is `wanted`. */
  function WithDirectoryFlag(files: seq<FileData>, wanted: bool): (r: seq<FileData>)
    ensures |r| <= |files|
  {
    if files == [] then []
    else
      assert files == [files[0]] + files[1..];
      (if files[0].directory == wanted then [files[0]] else []) + WithDirectoryFlag(files[1..], wanted)
  }

  /** The form's files are exactly its File values; the accepted ones are exactly those not
      ignored; and the accepted ones split by their directory flag. */
  lemma {:induction false} SelectionMembers(values: seq<FormValue>, files: seq<FileData>, wanted: bool, f: FileData)
    ensures f in FilesOf(values) <==> FileValue(f) in values
    ensures f in NotIgnored(files) <==> f in files && !f.ignored
    ensures f in WithDirectoryFlag(files, wanted) <==> f in files && f.directory == wanted
    decreases |values| + |files|
  {
    if values != [] {
      SelectionMembers(values[1..], [], wanted, f);
      assert values == [values[0]] + values[1..];
    }
    if files != [] {
      SelectionMembers([], files[1..], wanted, f);
      assert files == [files[0]] + files[1..];
    }
  }

  /** `reduce((total, file) => total + file.size, 0)` */
  function TotalSize(files: seq<FileData>): nat
  {
    if files == [] then 0 else TotalSize(files[..|files| - 1]) + files[|files| - 1].size
  }

  /** The accepted files split into folder placeholders and real files. */
  lemma {:induction false} SplitByDirectory(files: seq<FileData>)
    ensures |WithDirectoryFlag(files, true)| + |WithDirectoryFlag(files, false)| == |files|
  {
    if files != [] {
      SplitByDirectory(files[1..]);
    }
  }

  /** `typeof field === 'string' ? field : ''` for `formData.get(name)`, which may be absent. */
  function FieldString(field: Option<FormValue>): string
  {
    if field.Some? && field.value.Text? then field.value.text else ""
  }

  /** `(typeof value === 'string' ? value : '').trim()` */
  function FieldText(v: FormValue): string
  {
    if v.Text? then Trim(v.text) else ""
  }

  /** `getAll(name).map((value) => (typeof value === 'string' ? value : '').trim())` followed
      by `.filter((value) => value.length > 0)`: the trimmed, non-empty texts, in order. */
  function TrimmedTexts(values: seq<FormValue>): (r: seq<string>)
    ensures |r| <= |values|
  {
    if values == [] then []
    else
      var text := FieldText(values[|values| - 1]);
      TrimmedTexts(values[..|values| - 1]) + (if text != "" then [text] else [])
  }

  /** A text is kept exactly when some field trims to it. */
  lemma {:induction false} TrimmedTextsMembers(values: seq<FormValue>, s: string)
    ensures s in TrimmedTexts(values) <==> s != "" && exists v :: v in values && FieldText(v) == s
  {
    if values != [] {
      var init := values[..|values| - 1];
      var last := values[|values| - 1];
      assert values == init + [last];
      TrimmedTextsMembers(init, s);
      if s != "" && exists v :: v in values && FieldText(v) == s {
        var v :| v in values && FieldText(v) == s;
        if v != last {
          assert v in init;
        }
      }
    }
  }

  /** Every kept text is its own trim. */
  lemma {:induction false} TrimmedTextsTrimmed(values: seq<FormValue>, s: string)
    requires s in TrimmedTexts(values)
    ensures Trim(s) == s
  {
    var init := values[..|values| - 1];
    var last := values[|values| - 1];
    if s in TrimmedTexts(init) {
      TrimmedTextsTrimmed(init, s);
    } else {
      assert s == FieldText(last);
      TrimTrimmed(s);
    }
  }
}
