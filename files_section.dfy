/** FilesSection.tsx: the computations behind the admin's file browser (not its markup):
    breadcrumbs, selection tokens and their labels, the selections that are no longer on
    screen, and keys shown relative to the current folder. */
module FilesSection {
  import opened Strings
  import opened Seqs

  /** A crumb: `title` holds the source's `label` field (`label` is a Dafny keyword). */
  datatype Breadcrumb = Breadcrumb(title: string, path: string)

  const Root := Breadcrumb("All files", "")

  // ---- Breadcrumbs ----

  /** The segments up to the first non-empty one are dropped. */
  function DropLeadingEmpty(parts: seq<string>): (r: seq<string>)
    ensures r == [] || r[0] != ""
  {
    if parts == [] then []
    else if parts[0] == "" then DropLeadingEmpty(parts[1..])
    else parts
  }

  /** What is dropped is a run of empty segments; the rest is kept as it was. */
  lemma {:induction false} DropLeadingEmptySpec(parts: seq<string>)
    ensures var r := DropLeadingEmpty(parts);
      && |r| <= |parts| && r == parts[|parts| - |r|..]
      && forall i :: 0 <= i < |parts| - |r| ==> parts[i] == ""
  {
    if parts != [] && parts[0] == "" {
      DropLeadingEmptySpec(parts[1..]);
      var r := DropLeadingEmpty(parts);
      assert parts[1..][|parts| - 1 - |r|..] == parts[|parts| - |r|..];
      forall i | 0 <= i < |parts| - |r| ensures parts[i] == "" {
        if i > 0 {
          assert parts[i] == parts[1..][i - 1];
        }
      }
    }
  }

  /** The path a crumb links to, given the segments read so far: `current` stays empty
      until the first non-empty segment, and from then on every segment is appended
      with a `/`, empty or not. */
  function CrumbPath(segments: seq<string>): string
  {
    Join(DropLeadingEmpty(segments), '/')
  }

  lemma {:induction false} DropLeadingEmptySnoc(parts: seq<string>, x: string)
    ensures DropLeadingEmpty(parts + [x])
            == if DropLeadingEmpty(parts) == [] then (if x == "" then [] else [x])
               else DropLeadingEmpty(parts) + [x]
  {
    if parts != [] {
      assert (parts + [x])[1..] == parts[1..] + [x];
      if parts[0] == "" {
        DropLeadingEmptySnoc(parts[1..], x);
      }
    }
  }

  lemma JoinStartsWithFirst(parts: seq<string>, sep: char)
    requires |parts| >= 1
    ensures StartsWith(Join(parts, sep), parts[0])
  {
    if |parts| >= 2 {
      assert Join(parts, sep)[..|parts[0]|] == parts[0];
    }
  }

  lemma JoinSnoc(parts: seq<string>, x: string, sep: char)
    requires |parts| >= 1
    ensures Join(parts + [x], sep) == Join(parts, sep) + [sep] + x
  {
    JoinLast(parts + [x], sep);
    assert (parts + [x])[..|parts|] == parts;
  }

  /** One more segment: `current = current ? current + '/' + segment : segment`. */
  lemma CrumbPathStep(segments: seq<string>, x: string)
    ensures CrumbPath(segments + [x])
            == if CrumbPath(segments) != "" then CrumbPath(segments) + "/" + x else x
  {
    DropLeadingEmptySnoc(segments, x);
    var d := DropLeadingEmpty(segments);
    if d != [] {
      JoinStartsWithFirst(d, '/');
      JoinSnoc(d, x, '/');
    }
  }

  /** buildBreadcrumbs: "All files" first, then one crumb per `/`-separated segment of a
      non-empty path, labelled with the segment and linking to the path read so far. */
  method BuildBreadcrumbs(path: string) returns (crumbs: seq<Breadcrumb>)
    ensures |crumbs| >= 1 && crumbs[0] == Root
    ensures path == "" ==> crumbs == [Root]
    ensures path != "" ==> |crumbs| == |Split(path, '/')| + 1
    ensures path != "" ==> forall i :: 0 <= i < |Split(path, '/')| ==>
      crumbs[i + 1] == Breadcrumb(Split(path, '/')[i], CrumbPath(Split(path, '/')[..i + 1]))
  {
    if path == "" {
      return [Root];
    }
    crumbs := SegmentCrumbs(Split(path, '/'));
  }

  /** The loop of buildBreadcrumbs over the segments, with `current` the path so far. */
  method SegmentCrumbs(segments: seq<string>) returns (crumbs: seq<Breadcrumb>)
    ensures |crumbs| == |segments| + 1 && crumbs[0] == Root
    ensures forall i :: 0 <= i < |segments| ==>
      crumbs[i + 1] == Breadcrumb(segments[i], CrumbPath(segments[..i + 1]))
  {
    crumbs := [Root];
    var current := "";
    assert segments[..0] == [];
    for i := 0 to |segments|
      invariant |crumbs| == i + 1 && crumbs[0] == Root
      invariant current == CrumbPath(segments[..i])
      invariant forall k :: 0 <= k < i ==>
        crumbs[k + 1] == Breadcrumb(segments[k], CrumbPath(segments[..k + 1]))
    {
      var segment := segments[i];
      CrumbPathStep(segments[..i], segment);
      assert segments[..i + 1] == segments[..i] + [segment];
      current := if current != "" then current + "/" + segment else segment;
      crumbs := crumbs + [Breadcrumb(segment, current)];
    }
  }

  lemma SplitFirstNonEmpty(path: string)
    requires path != "" && path[0] != '/'
    ensures Split(path, '/')[0] != ""
  {
    var parts := Split(path, '/');
    JoinSplit(path, '/');
    if |parts| >= 2 {
      assert Join(parts, '/') == parts[0] + ['/'] + Join(parts[1..], '/');
    }
  }

  /** For a path that does not start with `/`, the last crumb links to the path itself. */
  lemma LastCrumbIsPath(path: string)
    requires path != "" && path[0] != '/'
    ensures CrumbPath(Split(path, '/')) == path
  {
    SplitFirstNonEmpty(path);
    JoinSplit(path, '/');
  }

  lemma {:induction false} JoinPrefix(parts: seq<string>, k: nat, sep: char)
    requires 1 <= k <= |parts|
    ensures StartsWith(Join(parts, sep), Join(parts[..k], sep))
  {
    if k == |parts| {
      assert parts[..k] == parts;
    } else if k == 1 {
      JoinStartsWithFirst(parts, sep);
    } else {
      JoinPrefix(parts[1..], k - 1, sep);
      assert parts[..k][1..] == parts[1..][..k - 1];
      var rest := Join(parts[1..], sep);
      var head := Join(parts[1..][..k - 1], sep);
      assert rest[..|head|] == head;
      assert (parts[0] + [sep] + rest)[..|parts[0]| + 1 + |head|] == parts[0] + [sep] + head;
    }
  }

  /** For such a path every crumb links to a prefix of it. */
  lemma CrumbsArePrefixes(path: string, k: nat)
    requires path != "" && path[0] != '/'
    requires 1 <= k <= |Split(path, '/')|
    ensures StartsWith(path, CrumbPath(Split(path, '/')[..k]))
  {
    var parts := Split(path, '/');
    SplitFirstNonEmpty(path);
    JoinSplit(path, '/');
    JoinPrefix(parts, k, '/');
    assert parts[..k][0] == parts[0];
  }

  // ---- Selection tokens ----

  const DirectoryPrefix := "directory:"
  const FilePrefix := "file:"

  function DirectoryToken(key: string): string { DirectoryPrefix + key }

  function FileToken(key: string): string { FilePrefix + key }

  /** formatSelectionLabel: the directory prefix is looked at first. */
  function FormatSelectionLabel(token: string): (r: string)
    ensures !StartsWith(token, DirectoryPrefix) && !StartsWith(token, FilePrefix) ==> r == token
  {
    if StartsWith(token, DirectoryPrefix) then "Folder /" + token[|DirectoryPrefix|..]
    else if StartsWith(token, FilePrefix) then "File /" + token[|FilePrefix|..]
    else token
  }

  lemma DirectoryTokenLabel(key: string)
    ensures FormatSelectionLabel(DirectoryToken(key)) == "Folder /" + key
  {
    assert DirectoryToken(key)[..|DirectoryPrefix|] == DirectoryPrefix;
    assert DirectoryToken(key)[|DirectoryPrefix|..] == key;
  }

  lemma FileTokenLabel(key: string)
    ensures FormatSelectionLabel(FileToken(key)) == "File /" + key
  {
    assert FileToken(key)[0] == 'f';
    assert FileToken(key)[..|FilePrefix|] == FilePrefix;
    assert FileToken(key)[|FilePrefix|..] == key;
  }

  /** A directory token and a file token never coincide. */
  lemma TokensDistinct(d: string, f: string)
    ensures DirectoryToken(d) != FileToken(f)
  {
    assert DirectoryToken(d)[0] == 'd' && FileToken(f)[0] == 'f';
  }

  // ---- Persisted selections ----

  /** The tokens of the entries on screen. */
  function CurrentTokens(directoryKeys: seq<string>, fileKeys: seq<string>): set<string>
  {
    (set d | d in directoryKeys :: DirectoryToken(d)) + (set f | f in fileKeys :: FileToken(f))
  }

  /** `selectedEntries.filter((value) => !currentTokens.has(value))` */
  function PersistedSelections(selected: seq<string>, current: set<string>): (r: seq<string>)
    ensures |r| <= |selected|
  {
    if selected == [] then []
    else
      var last := selected[|selected| - 1];
      PersistedSelections(selected[..|selected| - 1], current) + (if last in current then [] else [last])
  }

  /** They are exactly the selected tokens not on screen. */
  lemma {:induction false} PersistedSelectionsMembers(selected: seq<string>, current: set<string>, x: string)
    ensures x in PersistedSelections(selected, current) <==> x in selected && x !in current
  {
    if selected != [] {
      var init := selected[..|selected| - 1];
      assert selected == init + [selected[|selected| - 1]];
      PersistedSelectionsMembers(init, current, x);
    }
  }

  /** The filter keeps the original order: it distributes over concatenation. */
  lemma {:induction false} PersistedSelectionsAppend(a: seq<string>, b: seq<string>, current: set<string>)
    ensures PersistedSelections(a + b, current) == PersistedSelections(a, current) + PersistedSelections(b, current)
    decreases |b|
  {
    if b == [] {
      assert a + b == a;
    } else {
      var init := b[..|b| - 1];
      assert (a + b)[..|a + b| - 1] == a + init;
      PersistedSelectionsAppend(a, init, current);
    }
  }

  /** A selection with nothing on screen is kept whole. */
  lemma {:induction false} PersistedSelectionsAllOffScreen(selected: seq<string>, current: set<string>)
    requires forall i :: 0 <= i < |selected| ==> selected[i] !in current
    ensures PersistedSelections(selected, current) == selected
  {
    if selected != [] {
      PersistedSelectionsAllOffScreen(selected[..|selected| - 1], current);
    }
  }

  /** A file listed on screen is never among the persisted selections. */
  lemma ListedFileNotPersisted(selected: seq<string>, directoryKeys: seq<string>, fileKeys: seq<string>, f: string)
    requires f in fileKeys
    ensures FileToken(f) !in PersistedSelections(selected, CurrentTokens(directoryKeys, fileKeys))
  {
    PersistedSelectionsMembers(selected, CurrentTokens(directoryKeys, fileKeys), FileToken(f));
  }

  /** The per-item "Remove" link keeps `selectedEntries.filter((value) => value !== token)`:
      the same filter as above with that token as the only one on screen, so every copy of
      the token goes and the rest keep their order. */
  lemma {:induction false} RemoveLinkSelection(selected: seq<string>, token: string)
    ensures RemoveAll(selected, token) == PersistedSelections(selected, {token})
  {
    if selected != [] {
      var head, tail := [selected[0]], selected[1..];
      RemoveLinkSelection(tail, token);
      PersistedSelectionsAppend(head, tail, {token});
      assert head + tail == selected;
      assert head[..0] == [];
      assert PersistedSelections(head, {token}) == if selected[0] == token then [] else head;
    }
  }

  // ---- Keys relative to the current folder ----

  /** relativeKey: a key under `path/` is shown without that prefix. */
  function RelativeKey(path: string, key: string): (r: string)
    ensures path != "" && StartsWith(key, path + "/") ==> path + "/" + r == key
    ensures !(path != "" && StartsWith(key, path + "/")) ==> r == key
  {
    if path != "" && StartsWith(key, path + "/") then key[|path| + 1..] else key
  }

  lemma RelativeKeyOfChild(path: string, name: string)
    requires path != ""
    ensures RelativeKey(path, path + "/" + name) == name
  {
    assert (path + "/" + name)[..|path + "/"|] == path + "/";
    assert (path + "/" + name)[|path| + 1..] == name;
  }
}
