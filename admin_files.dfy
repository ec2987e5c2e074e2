/** files.ts: the admin's file routes: upload, delete a file, create a folder, delete a
    folder and move entries. The validation of each request is modelled exactly; the
    storage work is delegated to the operations of AdminServer and Uploads. The storage
    operations here do not fail, so the routes' catch branches are not modelled. */
module AdminFiles {
  import opened Wrappers
  import opened Strings
  import opened Seqs
  import opened JsNumbers
  import opened Forms
  import opened ShareStore
  import opened Uploads
  import opened AdminServer
  import opened FilesSection
  import opened Redirects

  function Plural(n: nat): string
  {
    if n == 1 then "" else "s"
  }

  // ---- adminUpload ----

  function UploadMessage(uploaded: nat, skipped: nat): string
  {
    var base := "Uploaded " + NatToString(uploaded, 10) + " file" + Plural(uploaded) + ".";
    if skipped > 0 then base + " Skipped " + NatToString(skipped, 10) + " hidden file" + Plural(skipped) + "."
    else base
  }

  /** Nothing is skipped exactly when no file of the upload is ignored. */
  lemma {:induction false} NothingSkipped(files: seq<FileData>)
    ensures |NotIgnored(files)| == |files| <==> forall i :: 0 <= i < |files| ==> !files[i].ignored
  {
    if files != [] {
      NothingSkipped(files[1..]);
      assert forall i :: 1 <= i < |files| ==> files[i] == files[1..][i - 1];
    }
  }

  /** adminUpload: the form's files that are not ignored are saved under the folder from
      `path` (the empty string when the field is missing, which is kept as the prefix); an
      upload with nothing left is refused and nothing is stored. */
  method AdminUpload(storage: Storage, values: seq<FormValue>, pathField: Option<FormValue>,
                     now: int, ids: nat -> string)
    returns (reply: DashboardRedirect)
    modifies storage
    ensures var files := FilesOf(values);
      var uploadable := NotIgnored(files);
      && (uploadable == [] ==>
            reply == Failure(if |files| > 0 then "Only system files were selected." else "Select at least one file to upload.")
            && storage.files == old(storage.files))
      && (uploadable != [] ==>
            reply == Success(UploadMessage(|uploadable|, |files| - |uploadable|))
            && storage.files == SavedAll(old(storage.files), uploadable, FieldString(pathField), now, ids))
  {
    var files := FilesOf(values);
    var directory := FieldString(pathField);
    var uploadable := NotIgnored(files);
    var skipped := |files| - |uploadable|;
    if |uploadable| == 0 {
      var message := if |files| > 0 then "Only system files were selected." else "Select at least one file to upload.";
      return Failure(message);
    }
    SaveAll(storage, uploadable, directory, now, ids);
    return Success(UploadMessage(|uploadable|, skipped));
  }

  // ---- adminDeleteFile and adminDeleteDirectory ----

  /** adminDeleteFile: a missing, non-text or empty key is refused before anything is
      deleted; any other key is deleted from storage and from the shares. */
  method AdminDeleteFile(storage: Storage, registry: ShareRegistry, keyField: Option<FormValue>)
    returns (reply: DashboardRedirect)
    requires registry.Valid()
    modifies storage, registry
    ensures registry.Valid() && registry.order == old(registry.order)
    ensures FieldString(keyField) == "" ==>
      reply == Failure("Invalid file key.")
      && storage.files == old(storage.files)
      && registry.shares == old(registry.shares) && registry.persisted == old(registry.persisted)
    ensures FieldString(keyField) != "" ==>
      reply == Success("File deleted successfully.")
      && storage.files == old(storage.files) - {FieldString(keyField)}
      && registry.shares == WithoutFile(old(registry.shares), FieldString(keyField))
      && registry.persisted == if registry.shares != old(registry.shares) then registry.shares
                               else old(registry.persisted)
  {
    var key := FieldString(keyField);
    if key == "" {
      return Failure("Invalid file key.");
    }
    DeleteFileAndShares(storage, registry, key);
    return Success("File deleted successfully.");
  }

  /** adminDeleteDirectory: the same guard on the folder path (not trimmed), then the
      folder's files go from storage and from the shares. */
  method AdminDeleteDirectory(storage: Storage, registry: ShareRegistry, directoryField: Option<FormValue>,
                              listing: string -> seq<StoredFile>)
    returns (reply: DashboardRedirect)
    requires registry.Valid()
    modifies storage, registry
    ensures registry.Valid() && registry.order == old(registry.order)
    ensures FieldString(directoryField) == "" ==>
      reply == Failure("Invalid directory path.")
      && storage.files == old(storage.files)
      && registry.shares == old(registry.shares) && registry.persisted == old(registry.persisted)
    ensures var target := FieldString(directoryField);
      target != "" ==>
        reply == Success("Folder deleted successfully.")
        && storage.files == old(storage.files) - KeySet(listing(target))
        && registry.shares == WithoutFiles(old(registry.shares), KeysOf(listing(target)))
        && registry.persisted == if registry.shares != old(registry.shares) then registry.shares
                                 else old(registry.persisted)
  {
    var target := FieldString(directoryField);
    if target == "" {
      return Failure("Invalid directory path.");
    }
    DeleteDirectoryAndShares(storage, registry, target, listing);
    return Success("Folder deleted successfully.");
  }

  // ---- adminCreateDirectory ----

  /** The name field holds text that is not blank once trimmed. */
  predicate FolderNameGiven(nameField: Option<FormValue>)
  {
    nameField.Some? && nameField.value.Text? && Trim(nameField.value.text) != ""
  }

  /** The folder name typed by the admin, trimmed, or the reason it is refused: a missing
      or blank name is "required"; any other refused name has "invalid characters". */
  function FolderName(nameField: Option<FormValue>): (r: Result<string>)
    ensures r.Ok? ==> nameField.Some? && nameField.value.Text? && r.value == Trim(nameField.value.text)
    ensures r.Ok? ==> r.value != "" && '/' !in r.value && '\\' !in r.value && r.value != "." && r.value != ".."
    ensures !FolderNameGiven(nameField) ==> r == Err("Folder name is required.")
    ensures FolderNameGiven(nameField) && r.Err? ==> r == Err("Folder name contains invalid characters.")
  {
    if !(nameField.Some? && nameField.value.Text?) then Err("Folder name is required.")
    else
      var name := Trim(nameField.value.text);
      if name == "" then Err("Folder name is required.")
      else if '/' in name || '\\' in name || name == "." || name == ".." then Err("Folder name contains invalid characters.")
      else Ok(name)
  }

  /** Conversely, any text that trims to a clean path segment is accepted, as that
      segment: surrounding white space is dropped, not refused. */
  lemma CleanFolderNameAccepted(text: string)
    requires var name := Trim(text);
      name != "" && '/' !in name && '\\' !in name && name != "." && name != ".."
    ensures FolderName(Some(Text(text))) == Ok(Trim(text))
  {
  }

  /** `currentPath ? `${currentPath}/${name}` : name` */
  function TargetPath(currentPath: string, name: string): string
  {
    if currentPath != "" then currentPath + "/" + name else name
  }

  /** The new folder sits directly inside the current one: its path has one more segment,
      and that segment is the name. */
  lemma TargetPathSegments(currentPath: string, name: string)
    requires '/' !in name
    ensures Split(TargetPath(currentPath, name), '/')
            == if currentPath != "" then Split(currentPath, '/') + [name] else [name]
  {
    SplitNoSeparator(name, '/');
    if currentPath != "" {
      SplitConcat(currentPath, '/', name);
    }
  }

  datatype DirectoryRequest = DirectoryRequest(reply: DashboardRedirect, create: Option<string>)

  /** adminCreateDirectory: the folder to create, if any, and the reply. */
  function AdminCreateDirectory(nameField: Option<FormValue>, pathField: Option<FormValue>): (r: DirectoryRequest)
    ensures r.create.Some? <==> FolderName(nameField).Ok?
    ensures r.create.None? ==> r.reply.error.Some? && r.reply.message.None?
    ensures !FolderNameGiven(nameField) ==> r.reply == Failure("Folder name is required.")
    ensures FolderNameGiven(nameField) && r.create.None? ==> r.reply == Failure("Folder name contains invalid characters.")
    ensures r.create.Some? ==>
      var name := FolderName(nameField).value;
      var currentPath := FieldString(pathField);
      && Split(r.create.value, '/') == (if currentPath != "" then Split(currentPath, '/') + [name] else [name])
      && r.reply == Success("Created \U{201C}" + name + "\U{201D}.")
  {
    match FolderName(nameField)
    case Err(message) => DirectoryRequest(Failure(message), None)
    case Ok(name) =>
      TargetPathSegments(FieldString(pathField), name);
      DirectoryRequest(Success("Created \U{201C}" + name + "\U{201D}."), Some(TargetPath(FieldString(pathField), name)))
  }

  // ---- adminMoveEntries ----

  /** One `file:` or `directory:` prefix is removed, whichever the value starts with. */
  function StripTokenPrefix(value: string): (r: string)
    ensures StartsWith(value, FilePrefix) ==> value == FilePrefix + r
    ensures !StartsWith(value, FilePrefix) && StartsWith(value, DirectoryPrefix) ==> value == DirectoryPrefix + r
    ensures !StartsWith(value, FilePrefix) && !StartsWith(value, DirectoryPrefix) ==> r == value
  {
    if StartsWith(value, FilePrefix) then value[|FilePrefix|..]
    else if StartsWith(value, DirectoryPrefix) then value[|DirectoryPrefix|..]
    else value
  }

  /** The entries after stripping, trimming again and dropping empties, repeats included. */
  function MoveCandidates(entries: seq<string>): seq<string>
  {
    if entries == [] then []
    else
      var k := Trim(StripTokenPrefix(entries[|entries| - 1]));
      MoveCandidates(entries[..|entries| - 1]) + (if k != "" then [k] else [])
  }

  /** The normalised entries of adminMoveEntries, in first-occurrence order. */
  function NormalizeMoveEntries(values: seq<FormValue>): (r: seq<string>)
    ensures NoDuplicates(r)
  {
    Dedup(MoveCandidates(TrimmedTexts(values)))
  }

  lemma {:induction false} MoveCandidatesMembers(entries: seq<string>, k: string)
    ensures k in MoveCandidates(entries) <==> k != "" && exists v :: v in entries && Trim(StripTokenPrefix(v)) == k
  {
    if entries != [] {
      var init := entries[..|entries| - 1];
      assert entries == init + [entries[|entries| - 1]];
      MoveCandidatesMembers(init, k);
    }
  }

  /** The entries moved are exactly the non-empty, trimmed, prefix-stripped selection
      values, each once, and none has surrounding white space. */
  lemma NormalizeMoveEntriesMembers(values: seq<FormValue>, k: string)
    ensures k in NormalizeMoveEntries(values) <==>
      k != "" && exists v :: v in TrimmedTexts(values) && Trim(StripTokenPrefix(v)) == k
    ensures k in NormalizeMoveEntries(values) ==> Trim(k) == k
  {
    MoveCandidatesMembers(TrimmedTexts(values), k);
    if k in NormalizeMoveEntries(values) {
      var v :| v in TrimmedTexts(values) && Trim(StripTokenPrefix(v)) == k;
      TrimTrimmed(Trim(StripTokenPrefix(v)));
    }
  }

  /** The tokens of the file browser come back as their keys; only one prefix is removed,
      so a key that itself looks like a token is kept. */
  lemma MoveTokensRoundTrip(key: string)
    ensures StripTokenPrefix(FileToken(key)) == key
    ensures StripTokenPrefix(DirectoryToken(key)) == key
  {
    assert FileToken(key)[..|FilePrefix|] == FilePrefix;
    assert DirectoryToken(key)[..|DirectoryPrefix|] == DirectoryPrefix;
    assert DirectoryToken(key)[0] == 'd';
  }

  function DestinationLabel(destination: string): string
  {
    if destination != "" then "/" + destination else "the root folder"
  }

  function MovedMessage(count: nat, destination: string): string
  {
    "Moved " + NatToString(count, 10) + " item" + Plural(count) + " to " + DestinationLabel(destination) + "."
  }

  /** adminMoveEntries: an empty normalised selection is refused before anything moves;
      otherwise the storage's move runs (and the shares follow the moved files), and a move
      that reports no entries is an error. */
  method AdminMoveEntries(registry: ShareRegistry, values: seq<FormValue>, destinationField: Option<FormValue>,
                          move: (seq<string>, string) -> MoveResult)
    returns (reply: DashboardRedirect)
    requires registry.Valid()
    modifies registry
    ensures registry.Valid() && registry.order == old(registry.order)
    ensures var entries := NormalizeMoveEntries(values);
      var destination := Trim(FieldString(destinationField));
      && (entries == [] ==>
            reply == Failure("Select one or more items to move.")
            && registry.shares == old(registry.shares) && registry.persisted == old(registry.persisted))
      && (entries != [] ==>
            var result := move(entries, destination);
            && registry.shares == (if |result.files| > 0 then WithRewrittenKeys(old(registry.shares), MappingOf(result.files))
                                   else old(registry.shares))
            && registry.persisted == (if |result.files| > 0 && SomeShareReplaced(old(registry.shares), MappingOf(result.files))
                                      then registry.shares else old(registry.persisted))
            && reply == if |result.entries| == 0 then Failure("Nothing to move. Items may already be in that location.")
                        else Success(MovedMessage(|result.entries|, destination)))
  {
    var entries := NormalizeMoveEntries(values);
    var destination := Trim(FieldString(destinationField));
    if |entries| == 0 {
      return Failure("Select one or more items to move.");
    }
    var result := MoveEntriesToDirectory(registry, entries, destination, move);
    if |result.entries| == 0 {
      return Failure("Nothing to move. Items may already be in that location.");
    }
    return Success(MovedMessage(|result.entries|, destination));
  }
}
