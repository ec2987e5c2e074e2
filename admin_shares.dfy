/** shares.ts: the admin's share routes. A download share is made from a selection of
    `file:` and `directory:` tokens, an upload share targets the current folder, and a share
    can be revoked by token. Every route answers with a redirect to the dashboard. The
    parsed `expiresIn` and byte limit come from helpers outside this model and are
    parameters. */
module AdminShares {
  import opened Wrappers
  import opened Strings
  import opened Seqs
  import opened JsNumbers
  import opened Forms
  import opened ShareStore
  import opened Uploads
  import opened AdminServer
  import opened FilesSection
  import opened Redirects

  // ---- Classification of the selection ----

  /** The file key a selection value adds: the rest of a `file:` token when non-empty, or a
      value with neither prefix verbatim. */
  function SelectedFileKey(value: string): (r: Option<string>)
    ensures r.Some? ==> r.value != "" || value == ""
    ensures r.Some? ==> value == r.value || value == FilePrefix + r.value
    ensures !StartsWith(value, FilePrefix) && !StartsWith(value, DirectoryPrefix) ==> r == Some(value)
  {
    if StartsWith(value, FilePrefix) then
      (if |value| > |FilePrefix| then Some(value[|FilePrefix|..]) else None)
    else if StartsWith(value, DirectoryPrefix) then None
    else Some(value)
  }

  /** The directory a selection value adds: the rest of a `directory:` token when non-empty. */
  function SelectedDirectory(value: string): (r: Option<string>)
    ensures r.Some? ==> r.value != "" && value == DirectoryPrefix + r.value
  {
    if StartsWith(value, FilePrefix) then None
    else if StartsWith(value, DirectoryPrefix) then
      (if |value| > |DirectoryPrefix| then Some(value[|DirectoryPrefix|..]) else None)
    else None
  }

  function OptionSeq(o: Option<string>): seq<string>
  {
    if o.Some? then [o.value] else []
  }

  /** The file keys the classification loop adds, in order, repeats included. */
  function FileKeyCandidates(values: seq<string>): seq<string>
  {
    if values == [] then []
    else FileKeyCandidates(values[..|values| - 1]) + OptionSeq(SelectedFileKey(values[|values| - 1]))
  }

  function DirectoryCandidatesOf(values: seq<string>): seq<string>
  {
    if values == [] then []
    else DirectoryCandidatesOf(values[..|values| - 1]) + OptionSeq(SelectedDirectory(values[|values| - 1]))
  }

  lemma CandidatesStep(values: seq<string>, i: nat)
    requires i < |values|
    ensures FileKeyCandidates(values[..i + 1]) == FileKeyCandidates(values[..i]) + OptionSeq(SelectedFileKey(values[i]))
    ensures DirectoryCandidatesOf(values[..i + 1]) == DirectoryCandidatesOf(values[..i]) + OptionSeq(SelectedDirectory(values[i]))
  {
    assert values[..i + 1][..i] == values[..i];
  }

  lemma AddOption(keys: seq<string>, s: seq<string>, o: Option<string>)
    requires keys == Dedup(s)
    ensures (if o.Some? then Add(keys, o.value) else keys) == Dedup(s + OptionSeq(o))
  {
    if o.Some? {
      DedupSnoc(s, o.value);
    } else {
      assert s + OptionSeq(o) == s;
    }
  }

  /** The classification loop of adminCreateDownloadShare: two insertion-ordered Sets. */
  method ClassifySelection(values: seq<string>) returns (fileKeys: seq<string>, directoryKeys: seq<string>)
    ensures fileKeys == Dedup(FileKeyCandidates(values))
    ensures directoryKeys == Dedup(DirectoryCandidatesOf(values))
  {
    fileKeys, directoryKeys := [], [];
    for i := 0 to |values|
      invariant fileKeys == Dedup(FileKeyCandidates(values[..i]))
      invariant directoryKeys == Dedup(DirectoryCandidatesOf(values[..i]))
    {
      var value := values[i];
      CandidatesStep(values, i);
      AddOption(fileKeys, FileKeyCandidates(values[..i]), SelectedFileKey(value));
      AddOption(directoryKeys, DirectoryCandidatesOf(values[..i]), SelectedDirectory(value));
      if StartsWith(value, FilePrefix) {
        var key := value[|FilePrefix|..];
        if key != "" {
          fileKeys := Add(fileKeys, key);
        }
        continue;
      }
      if StartsWith(value, DirectoryPrefix) {
        var directory := value[|DirectoryPrefix|..];
        if directory != "" {
          directoryKeys := Add(directoryKeys, directory);
        }
        continue;
      }
      fileKeys := Add(fileKeys, value);
    }
    assert values[..|values|] == values;
  }

  lemma {:induction false} FileKeyCandidatesMembers(values: seq<string>, k: string)
    ensures k in FileKeyCandidates(values) <==> exists v :: v in values && SelectedFileKey(v) == Some(k)
  {
    if values != [] {
      var init := values[..|values| - 1];
      assert values == init + [values[|values| - 1]];
      FileKeyCandidatesMembers(init, k);
    }
  }

  lemma {:induction false} DirectoryCandidatesOfMembers(values: seq<string>, d: string)
    ensures d in DirectoryCandidatesOf(values) <==> exists v :: v in values && SelectedDirectory(v) == Some(d)
  {
    if values != [] {
      var init := values[..|values| - 1];
      assert values == init + [values[|values| - 1]];
      DirectoryCandidatesOfMembers(init, d);
    }
  }

  /** A token built for a file is classified as that file, and one built for a folder as
      that folder. */
  lemma TokensClassify(key: string)
    requires key != ""
    ensures SelectedFileKey(FileToken(key)) == Some(key) && SelectedDirectory(FileToken(key)).None?
    ensures SelectedDirectory(DirectoryToken(key)) == Some(key) && SelectedFileKey(DirectoryToken(key)).None?
  {
    assert FileToken(key)[..|FilePrefix|] == FilePrefix;
    assert FileToken(key)[|FilePrefix|..] == key;
    assert DirectoryToken(key)[..|DirectoryPrefix|] == DirectoryPrefix;
    assert DirectoryToken(key)[|DirectoryPrefix|..] == key;
    assert DirectoryToken(key)[0] == 'd';
  }

  /** No value is taken both as a file and as a folder. */
  lemma OneKindEach(value: string)
    ensures !(SelectedFileKey(value).Some? && SelectedDirectory(value).Some?)
  {
  }

  lemma NonSpaceEndNonBlank(s: string)
    requires s != "" && !IsJsSpace(s[|s| - 1])
    ensures NonBlank(s)
  {
  }

  /** Every key taken from a trimmed, non-empty value is non-blank, so the expansion of the
      selection keeps all of them. */
  lemma SelectedKeysNonBlank(value: string)
    requires value != "" && Trim(value) == value
    ensures SelectedFileKey(value).Some? ==> NonBlank(SelectedFileKey(value).value)
    ensures SelectedDirectory(value).Some? ==> NonBlank(SelectedDirectory(value).value)
  {
    var k := SelectedFileKey(value);
    if k.Some? {
      assert k.value[|k.value| - 1] == value[|value| - 1];
      NonSpaceEndNonBlank(k.value);
    }
    var d := SelectedDirectory(value);
    if d.Some? {
      assert d.value[|d.value| - 1] == value[|value| - 1];
      NonSpaceEndNonBlank(d.value);
    }
  }

  // ---- adminCreateDownloadShare ----

  /** The keys a download share is created with, or the error the route reports. */
  function DownloadShareKeys(values: seq<FormValue>, listing: string -> seq<StoredFile>): (r: Result<seq<string>>)
    ensures r.Ok? ==> r.value != [] && NoDuplicates(r.value)
    ensures TrimmedTexts(values) == [] ==> r == Err("Select at least one file or folder to share.")
    ensures TrimmedTexts(values) != [] && FileKeyCandidates(TrimmedTexts(values)) == []
            && DirectoryCandidatesOf(TrimmedTexts(values)) == [] ==>
      r == Err("Select at least one valid file or folder to share.")
  {
    var selection := TrimmedTexts(values);
    var fileKeys := Dedup(FileKeyCandidates(selection));
    var directoryKeys := Dedup(DirectoryCandidatesOf(selection));
    var keys := Dedup(ShareKeyCandidates(fileKeys, directoryKeys, listing));
    if selection == [] then Err("Select at least one file or folder to share.")
    else if fileKeys == [] && directoryKeys == [] then Err("Select at least one valid file or folder to share.")
    else if keys == [] then Err("The selected folders do not contain any files to share yet.")
    else Ok(keys)
  }

  /** A download share holds exactly the selected file keys and the keys listed under the
      selected folders. */
  lemma DownloadShareKeysMembers(values: seq<FormValue>, listing: string -> seq<StoredFile>, k: string)
    requires DownloadShareKeys(values, listing).Ok?
    ensures var selection := TrimmedTexts(values);
      k in DownloadShareKeys(values, listing).value <==>
        (exists v :: v in selection && SelectedFileKey(v) == Some(k))
        || (exists d :: d in DirectoryCandidatesOf(selection) && k in KeysOf(listing(d)))
  {
    var selection := TrimmedTexts(values);
    var fileKeys := Dedup(FileKeyCandidates(selection));
    var directoryKeys := Dedup(DirectoryCandidatesOf(selection));
    CollectedKeysMembers(fileKeys, directoryKeys, listing, k);
    FileKeyCandidatesMembers(selection, k);
    if k in fileKeys {
      var v :| v in selection && SelectedFileKey(v) == Some(k);
      TrimmedTextsTrimmed(values, v);
      TrimmedTextsMembers(values, v);
      SelectedKeysNonBlank(v);
    }
    forall d | d in DirectoryCandidatesOf(selection)
      ensures NonBlank(d)
    {
      DirectoryCandidatesOfMembers(selection, d);
      var v :| v in selection && SelectedDirectory(v) == Some(d);
      TrimmedTextsTrimmed(values, v);
      TrimmedTextsMembers(values, v);
      SelectedKeysNonBlank(v);
    }
  }

  /** adminCreateDownloadShare: a share is created only with a non-empty, valid selection
      whose expansion holds at least one key; otherwise the table is untouched. */
  method AdminCreateDownloadShare(registry: ShareRegistry, values: seq<FormValue>, expiresIn: Option<Number>,
                                  listing: string -> seq<StoredFile>, token: string, now: int)
    returns (reply: DashboardRedirect)
    requires registry.Valid()
    modifies registry
    ensures registry.Valid()
    ensures var keys := DownloadShareKeys(values, listing);
      && (keys.Err? ==> reply == Failure(keys.message)
                        && registry.shares == old(registry.shares) && registry.persisted == old(registry.persisted)
                        && registry.order == old(registry.order))
      && (keys.Ok? ==> reply == Created("Download share link created.", token)
                       && registry.shares == old(registry.shares)[token := NewDownloadShare(keys.value, expiresIn, token, now)]
                       && registry.persisted == registry.shares
                       && registry.order == OrderAfterSet(old(registry.shares), old(registry.order), token))
  {
    var selection := TrimmedTexts(values);
    if |selection| == 0 {
      return Failure("Select at least one file or folder to share.");
    }
    var fileKeys, directoryKeys := ClassifySelection(selection);
    if |fileKeys| == 0 && |directoryKeys| == 0 {
      return Failure("Select at least one valid file or folder to share.");
    }
    var collected := CollectDownloadShareKeys(fileKeys, directoryKeys, listing);
    if collected.Err? {
      return Failure(collected.message);
    }
    var created := registry.CreateDownloadShare(collected.value, expiresIn, token, now);
    match created {
      case Err(_) => assert false;
      case Ok(share) => reply := Created("Download share link created.", share.token);
    }
  }

  // ---- adminCreateUploadShare ----

  /** `maxBytes && maxBytes > 0 ? maxBytes : undefined` */
  function UploadLimit(maxBytes: Option<Number>): (r: Option<Number>)
    ensures r.Some? <==> maxBytes.Some? && maxBytes.value.Int? && maxBytes.value.value > 0
    ensures r.Some? ==> r == maxBytes
  {
    if maxBytes.Some? && maxBytes.value.Int? && maxBytes.value.value > 0 then maxBytes else None
  }

  /** Dropping a zero, negative or NaN limit does not change the quota a share enforces. */
  lemma UploadLimitKeepsCap(token: string, now: int, expiresAt: Option<int>, maxBytes: Option<Number>,
                            target: Option<string>)
    ensures QuotaCap(Upload(token, now, expiresAt, UploadLimit(maxBytes), 0, target))
            == QuotaCap(Upload(token, now, expiresAt, maxBytes, 0, target))
  {
  }

  /** adminCreateUploadShare: the current path, trimmed, must be non-blank and becomes the
      target folder; the limit is passed only when positive. */
  method AdminCreateUploadShare(registry: ShareRegistry, pathField: Option<FormValue>, expiresIn: Option<Number>,
                                maxBytes: Option<Number>, token: string, now: int)
    returns (reply: DashboardRedirect)
    requires registry.Valid()
    modifies registry
    ensures registry.Valid()
    ensures var target := Trim(FieldString(pathField));
      && (target == "" ==> reply == Failure("Choose or create a folder before generating an upload link.")
                           && registry.shares == old(registry.shares) && registry.persisted == old(registry.persisted)
                           && registry.order == old(registry.order))
      && (target != "" && NormalizeDirectoryPath(Some(target)).Err? ==>
            reply == Failure(NavigationError)
            && registry.shares == old(registry.shares) && registry.persisted == old(registry.persisted)
            && registry.order == old(registry.order))
      && (target != "" && NormalizeDirectoryPath(Some(target)).Ok? ==>
            reply == Created("Upload share link created.", token)
            && registry.shares == old(registry.shares)[token := Upload(token, now, ResolveExpiry(expiresIn, now),
                                                                   UploadLimit(maxBytes), 0,
                                                                   NormalizeDirectoryPath(Some(target)).value)]
            && registry.persisted == registry.shares
            && registry.order == OrderAfterSet(old(registry.shares), old(registry.order), token))
  {
    var currentPath := FieldString(pathField);
    var targetDirectory := Trim(currentPath);
    if targetDirectory == "" {
      return Failure("Choose or create a folder before generating an upload link.");
    }
    var created := registry.CreateUploadShare(expiresIn, UploadLimit(maxBytes), Some(targetDirectory), token, now);
    match created {
      case Err(message) => reply := Failure(message);
      case Ok(share) => reply := Created("Upload share link created.", share.token);
    }
  }

  // ---- adminRevokeShare ----

  /** adminRevokeShare: a missing, non-text or empty token is refused and nothing is
      removed; any other token is removed (known or not) and reported as revoked. */
  method AdminRevokeShare(registry: ShareRegistry, tokenField: Option<FormValue>) returns (reply: DashboardRedirect)
    requires registry.Valid()
    modifies registry
    ensures registry.Valid() && registry.order == old(registry.order)
    ensures FieldString(tokenField) == "" ==>
      reply == Failure("Unknown share token.")
      && registry.shares == old(registry.shares) && registry.persisted == old(registry.persisted)
    ensures FieldString(tokenField) != "" ==>
      reply == Success("Share token revoked.")
      && registry.shares == old(registry.shares) - {FieldString(tokenField)}
      && registry.persisted == (if FieldString(tokenField) in old(registry.shares) then registry.shares
                                else old(registry.persisted))
  {
    var token := FieldString(tokenField);
    if token == "" {
      return Failure("Unknown share token.");
    }
    registry.RemoveShare(token);
    return Success("Share token revoked.");
  }
}
