/** admin.server.ts: the admin's storage operations that keep the share registry in step,
    and the expansion of a selection into the file keys of a download share. The storage's
    recursive listing (`listStoredFiles({ path, recursive: true })`) and its move operation
    (`moveStoredEntries`) are outside this model and are given as parameters. */
module AdminServer {
  import opened Wrappers
  import opened Strings
  import opened Seqs
  import opened ShareStore
  import opened Uploads

  /** `key.trim().length > 0` */
  predicate NonBlank(s: string) { Trim(s) != "" }

  function KeysOf(files: seq<StoredFile>): (r: seq<string>)
    ensures |r| == |files|
    ensures forall i :: 0 <= i < |r| ==> r[i] == files[i].key
  {
    if files == [] then [] else KeysOf(files[..|files| - 1]) + [files[|files| - 1].key]
  }

  /** The keys the first loop of collectDownloadShareKeys adds, in order. */
  function FileCandidates(fileKeys: seq<string>): seq<string>
  {
    if fileKeys == [] then []
    else
      var last := fileKeys[|fileKeys| - 1];
      FileCandidates(fileKeys[..|fileKeys| - 1]) + (if NonBlank(last) then [last] else [])
  }

  /** The keys the second loop adds: the listing of every non-blank directory, in order. */
  function DirectoryCandidates(directoryKeys: seq<string>, listing: string -> seq<StoredFile>): seq<string>
  {
    if directoryKeys == [] then []
    else
      var last := directoryKeys[|directoryKeys| - 1];
      DirectoryCandidates(directoryKeys[..|directoryKeys| - 1], listing)
      + (if NonBlank(last) then KeysOf(listing(last)) else [])
  }

  function ShareKeyCandidates(fileKeys: seq<string>, directoryKeys: seq<string>,
                              listing: string -> seq<StoredFile>): seq<string>
  {
    FileCandidates(fileKeys) + DirectoryCandidates(directoryKeys, listing)
  }

  /** `Set.prototype.add` on a set kept in insertion order. */
  function Add(keys: seq<string>, k: string): seq<string>
  {
    if k in keys then keys else keys + [k]
  }

  /** Adding to the deduplicated sequence is deduplicating the extended sequence. */
  lemma DedupSnoc(s: seq<string>, k: string)
    ensures Dedup(s + [k]) == Add(Dedup(s), k)
  {
    assert (s + [k])[..|s|] == s;
  }

  /** collectDownloadShareKeys: the Set of all non-blank file keys, taken verbatim, and of
      every key listed under a non-blank directory, in insertion order; an empty Set is an
      error. */
  method CollectDownloadShareKeys(fileKeys: seq<string>, directoryKeys: seq<string>,
                                  listing: string -> seq<StoredFile>)
    returns (r: Result<seq<string>>)
    ensures var keys := Dedup(ShareKeyCandidates(fileKeys, directoryKeys, listing));
      r == if keys == [] then Err("The selected folders do not contain any files to share yet.") else Ok(keys)
  {
    var keys := CollectFileKeys(fileKeys);
    ghost var chosen := FileCandidates(fileKeys);
    assert chosen + DirectoryCandidates(directoryKeys[..0], listing) == chosen;
    for j := 0 to |directoryKeys|
      invariant keys == Dedup(chosen + DirectoryCandidates(directoryKeys[..j], listing))
    {
      var directory := directoryKeys[j];
      DirectoryCandidatesStep(chosen, directoryKeys, listing, j);
      if NonBlank(directory) {
        var files := listing(directory);
        if |files| > 0 {
          keys := AddListed(keys, chosen + DirectoryCandidates(directoryKeys[..j], listing), files);
        }
      }
    }
    assert directoryKeys[..|directoryKeys|] == directoryKeys;
    if |keys| == 0 {
      return Err("The selected folders do not contain any files to share yet.");
    }
    return Ok(keys);
  }

  /** The first loop: `for (const key of fileKeys) if (key.trim()) keys.add(key)` */
  method CollectFileKeys(fileKeys: seq<string>) returns (keys: seq<string>)
    ensures keys == Dedup(FileCandidates(fileKeys))
  {
    keys := [];
    for i := 0 to |fileKeys|
      invariant keys == Dedup(FileCandidates(fileKeys[..i]))
    {
      var key := fileKeys[i];
      FileCandidatesStep(fileKeys, i);
      if NonBlank(key) {
        AddStep(keys, FileCandidates(fileKeys[..i]), key);
        keys := Add(keys, key);
      }
    }
    assert fileKeys[..|fileKeys|] == fileKeys;
  }

  lemma KeysOfStep(prior: seq<string>, files: seq<StoredFile>, m: nat)
    requires m < |files|
    ensures prior + KeysOf(files[..m + 1]) == (prior + KeysOf(files[..m])) + [files[m].key]
  {
    assert files[..m + 1][..m] == files[..m];
  }

  lemma DirectoryCandidatesStep(chosen: seq<string>, directoryKeys: seq<string>,
                                listing: string -> seq<StoredFile>, j: nat)
    requires j < |directoryKeys|
    ensures var d := directoryKeys[j];
      chosen + DirectoryCandidates(directoryKeys[..j + 1], listing)
      == if NonBlank(d) && |listing(d)| > 0
         then (chosen + DirectoryCandidates(directoryKeys[..j], listing)) + KeysOf(listing(d))
         else chosen + DirectoryCandidates(directoryKeys[..j], listing)
  {
    var d := directoryKeys[j];
    var upto := directoryKeys[..j + 1];
    assert upto[..|upto| - 1] == directoryKeys[..j] && upto[|upto| - 1] == d;
    var before := DirectoryCandidates(directoryKeys[..j], listing);
    assert DirectoryCandidates(upto, listing) == before + (if NonBlank(d) then KeysOf(listing(d)) else []);
    if NonBlank(d) && |listing(d)| == 0 {
      assert KeysOf(listing(d)) == [];
      assert before + [] == before;
    }
    if !NonBlank(d) {
      assert before + [] == before;
    }
  }

  lemma FileCandidatesStep(fileKeys: seq<string>, i: nat)
    requires i < |fileKeys|
    ensures NonBlank(fileKeys[i]) ==> FileCandidates(fileKeys[..i + 1]) == FileCandidates(fileKeys[..i]) + [fileKeys[i]]
    ensures !NonBlank(fileKeys[i]) ==> FileCandidates(fileKeys[..i + 1]) == FileCandidates(fileKeys[..i])
  {
    assert fileKeys[..i + 1][..i] == fileKeys[..i];
  }

  lemma AddStep(keys: seq<string>, s: seq<string>, k: string)
    requires keys == Dedup(s)
    ensures Add(keys, k) == Dedup(s + [k])
  {
    DedupSnoc(s, k);
  }

  /** `for (let file of files) keys.add(file.key)` */
  method AddListed(keys: seq<string>, ghost prior: seq<string>, files: seq<StoredFile>) returns (r: seq<string>)
    requires keys == Dedup(prior)
    ensures r == Dedup(prior + KeysOf(files))
  {
    r := keys;
    assert prior + KeysOf(files[..0]) == prior;
    for m := 0 to |files|
      invariant r == Dedup(prior + KeysOf(files[..m]))
    {
      KeysOfStep(prior, files, m);
      AddStep(r, prior + KeysOf(files[..m]), files[m].key);
      r := Add(r, files[m].key);
    }
    assert files[..|files|] == files;
  }

  lemma {:induction false} FileCandidatesMembers(fileKeys: seq<string>, k: string)
    ensures k in FileCandidates(fileKeys) <==> k in fileKeys && NonBlank(k)
  {
    if fileKeys != [] {
      var init := fileKeys[..|fileKeys| - 1];
      assert fileKeys == init + [fileKeys[|fileKeys| - 1]];
      FileCandidatesMembers(init, k);
    }
  }

  lemma {:induction false} DirectoryCandidatesMembers(directoryKeys: seq<string>,
                                                      listing: string -> seq<StoredFile>, k: string)
    ensures k in DirectoryCandidates(directoryKeys, listing)
            <==> exists d :: d in directoryKeys && NonBlank(d) && k in KeysOf(listing(d))
  {
    if directoryKeys != [] {
      var init := directoryKeys[..|directoryKeys| - 1];
      var last := directoryKeys[|directoryKeys| - 1];
      assert directoryKeys == init + [last];
      var added := if NonBlank(last) then KeysOf(listing(last)) else [];
      assert DirectoryCandidates(directoryKeys, listing) == DirectoryCandidates(init, listing) + added;
      DirectoryCandidatesMembers(init, listing, k);
      if k in DirectoryCandidates(directoryKeys, listing) {
        if k in added {
          assert last in directoryKeys && NonBlank(last) && k in KeysOf(listing(last));
        } else {
          assert k in DirectoryCandidates(init, listing);
          var d :| d in init && NonBlank(d) && k in KeysOf(listing(d));
          assert d in directoryKeys;
        }
      }
      if exists d :: d in directoryKeys && NonBlank(d) && k in KeysOf(listing(d)) {
        var d :| d in directoryKeys && NonBlank(d) && k in KeysOf(listing(d));
        if d != last {
          assert d in init;
        }
      }
    }
  }

  /** The shared keys are exactly the non-blank file keys, verbatim, and the keys listed
      under the non-blank directories, each once. */
  lemma CollectedKeysMembers(fileKeys: seq<string>, directoryKeys: seq<string>,
                             listing: string -> seq<StoredFile>, k: string)
    ensures var keys := Dedup(ShareKeyCandidates(fileKeys, directoryKeys, listing));
      && NoDuplicates(keys)
      && (k in keys <==> (k in fileKeys && NonBlank(k))
                         || exists d :: d in directoryKeys && NonBlank(d) && k in KeysOf(listing(d)))
  {
    FileCandidatesMembers(fileKeys, k);
    DirectoryCandidatesMembers(directoryKeys, listing, k);
  }

  /** Deduplicating a longer sequence extends the deduplicated prefix. */
  lemma {:induction false} DedupPrefix(a: seq<string>, b: seq<string>)
    ensures |Dedup(a)| <= |Dedup(a + b)| && Dedup(a + b)[..|Dedup(a)|] == Dedup(a)
    decreases |b|
  {
    if b == [] {
      assert a + b == a;
    } else {
      var init := b[..|b| - 1];
      DedupPrefix(a, init);
      assert a + b == (a + init) + [b[|b| - 1]];
      DedupSnoc(a + init, b[|b| - 1]);
    }
  }

  /** The explicitly selected file keys come first, in their own order. */
  lemma FileKeysFirst(fileKeys: seq<string>, directoryKeys: seq<string>, listing: string -> seq<StoredFile>)
    ensures var keys := Dedup(ShareKeyCandidates(fileKeys, directoryKeys, listing));
      var files := Dedup(FileCandidates(fileKeys));
      |files| <= |keys| && keys[..|files|] == files
  {
    DedupPrefix(FileCandidates(fileKeys), DirectoryCandidates(directoryKeys, listing));
  }

  // ---- Deletions ----

  /** deleteFileAndShares: the file goes, then its key goes from every share. */
  method DeleteFileAndShares(storage: Storage, registry: ShareRegistry, key: string)
    requires registry.Valid()
    modifies storage, registry
    ensures registry.Valid() && registry.order == old(registry.order)
    ensures storage.files == old(storage.files) - {key}
    ensures registry.shares == WithoutFile(old(registry.shares), key)
    ensures registry.persisted == if registry.shares != old(registry.shares) then registry.shares
                                  else old(registry.persisted)
  {
    storage.DeleteStoredFile(key);
    registry.RemoveFileFromShares(key);
  }

  /** The table after the keys have been removed from the shares one after the other. */
  function WithoutFiles(m: Table, keys: seq<string>): Table
  {
    if keys == [] then m else WithoutFile(WithoutFiles(m, keys[..|keys| - 1]), keys[|keys| - 1])
  }

  /** After the purge no download share holds any of the keys, no share appeared, and
      every upload share is untouched. */
  lemma {:induction false} WithoutFilesSpec(m: Table, keys: seq<string>)
    ensures var w := WithoutFiles(m, keys);
      && (forall t, k :: t in w && w[t].Download? && k in keys ==> k !in w[t].fileKeys)
      && (forall t :: t in w ==> t in m)
      && (forall t :: t in m && m[t].Upload? ==> t in w && w[t] == m[t])
  {
    if keys != [] {
      var init := keys[..|keys| - 1];
      var last := keys[|keys| - 1];
      var before := WithoutFiles(m, init);
      WithoutFilesSpec(m, init);
      WithoutFileSpec(before, last);
      var w := WithoutFile(before, last);
      forall t, k | t in w && w[t].Download? && k in keys ensures k !in w[t].fileKeys {
        if k != last {
          assert k in init;
          assert w[t] == before[t] || w[t] == before[t].(fileKeys := RemoveAll(before[t].fileKeys, last));
        }
      }
    }
  }

  lemma WithoutFilesStep(m: Table, files: seq<StoredFile>, i: nat)
    requires i < |files|
    ensures WithoutFiles(m, KeysOf(files[..i + 1])) == WithoutFile(WithoutFiles(m, KeysOf(files[..i])), files[i].key)
  {
    assert files[..i + 1][..i] == files[..i];
    assert KeysOf(files[..i + 1]) == KeysOf(files[..i]) + [files[i].key];
    assert KeysOf(files[..i + 1])[..i] == KeysOf(files[..i]);
  }

  /** The set of keys of a listing. */
  function KeySet(files: seq<StoredFile>): set<string>
  {
    set i | 0 <= i < |files| :: files[i].key
  }

  /** deleteDirectoryAndShares: the directory's files, as the recursive listing gives them,
      are deleted, and then each of their keys goes from every share. */
  method DeleteDirectoryAndShares(storage: Storage, registry: ShareRegistry, path: string,
                                  listing: string -> seq<StoredFile>)
    requires registry.Valid()
    modifies storage, registry
    ensures registry.Valid() && registry.order == old(registry.order)
    ensures storage.files == old(storage.files) - KeySet(listing(path))
    ensures registry.shares == WithoutFiles(old(registry.shares), KeysOf(listing(path)))
    ensures registry.persisted == if registry.shares != old(registry.shares) then registry.shares
                                  else old(registry.persisted)
  {
    var files := listing(path);
    storage.DeleteListed(KeySet(files));
    for i := 0 to |files|
      invariant registry.Valid() && registry.order == old(registry.order)
      invariant storage.files == old(storage.files) - KeySet(files)
      invariant registry.shares == WithoutFiles(old(registry.shares), KeysOf(files[..i]))
      invariant SharedPairs(registry.shares) <= SharedPairs(old(registry.shares))
      invariant registry.shares != old(registry.shares) ==> SharedPairs(registry.shares) < SharedPairs(old(registry.shares))
      invariant registry.persisted == if registry.shares != old(registry.shares) then registry.shares
                                      else old(registry.persisted)
    {
      WithoutFilesStep(old(registry.shares), files, i);
      WithoutFileShrinks(registry.shares, files[i].key);
      registry.RemoveFileFromShares(files[i].key);
    }
    assert files[..|files|] == files;
  }

  // ---- Moves ----

  /** What the storage's move reports: the moved entries, and for each moved file its old
      and new key. */
  datatype MoveResult = MoveResult(entries: seq<string>, files: seq<(string, string)>)

  /** moveEntriesToDirectory: the storage moves the entries; when files moved, the shares
      are rewritten to their new keys. The storage's answer is passed on unchanged. */
  method MoveEntriesToDirectory(registry: ShareRegistry, entries: seq<string>, destination: string,
                                move: (seq<string>, string) -> MoveResult)
    returns (r: MoveResult)
    requires registry.Valid()
    modifies registry
    ensures registry.Valid() && registry.order == old(registry.order)
    ensures r == move(entries, destination)
    ensures registry.shares == if |r.files| > 0 then WithRewrittenKeys(old(registry.shares), MappingOf(r.files))
                               else old(registry.shares)
    ensures registry.persisted == if |r.files| > 0 && SomeShareReplaced(old(registry.shares), MappingOf(r.files))
                                  then registry.shares else old(registry.persisted)
  {
    r := move(entries, destination);
    if |r.files| > 0 {
      registry.ReplaceFileKeys(r.files);
    }
  }

  /** The guard only saves work: rewriting with no moved file leaves every share as it is. */
  lemma MoveWithoutFiles(m: Table)
    ensures WithRewrittenKeys(m, MappingOf([])) == m
  {
    var mapping := MappingOf([]);
    assert mapping == map[];
    WithRewrittenKeysSpec(m, mapping);
    forall t | t in m ensures !(m[t].Download? && AnyReplaced(m[t].fileKeys, mapping)) {
    }
  }
}
