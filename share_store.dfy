/** The share registry: a table from token to download or upload share, with lazy expiry,
    key maintenance when stored files are deleted or moved, and upload quota accounting.
    Time (`now`, in milliseconds) and fresh tokens are parameters; writing the table to disk
    is modelled by copying it into `persisted`. */
module ShareStore {
  import opened Wrappers
  import opened Strings
  import opened Seqs
  import opened Sorting
  import opened JsNumbers

  datatype ShareRecord =
    | Download(token: string, fileKeys: seq<string>, createdAt: int, expiresAt: Option<int>)
    | Upload(token: string, createdAt: int, expiresAt: Option<int>, maxBytes: Option<Number>,
             uploadedBytes: int, targetDirectory: Option<string>)

  type Table = map<string, ShareRecord>

  /** What every operation keeps: each record sits under its own token, a download share
      lists each key once, and an upload share's byte count is never negative. */
  ghost predicate WellFormedRecord(r: ShareRecord) {
    && (r.Download? ==> NoDuplicates(r.fileKeys))
    && (r.Upload? ==> r.uploadedBytes >= 0)
  }

  ghost predicate WellFormed(m: Table) {
    forall t :: t in m ==> m[t].token == t && WellFormedRecord(m[t])
  }

  // ---- Expiry ----

  /** resolveExpiry: no expiry for missing, NaN or non-positive minutes. */
  function ResolveExpiry(expiresInMinutes: Option<Number>, now: int): (r: Option<int>)
    ensures r.Some? <==> expiresInMinutes.Some? && expiresInMinutes.value.Int? && expiresInMinutes.value.value > 0
    ensures r.Some? ==> r.value == now + expiresInMinutes.value.value * 60000
  {
    match expiresInMinutes
    case None => None
    case Some(NaN) => None
    case Some(Int(minutes)) => if minutes <= 0 then None else Some(now + minutes * 60000)
  }

  /** isExpired */
  predicate IsExpired(r: ShareRecord, now: int) {
    r.expiresAt.Some? && r.expiresAt.value <= now
  }

  /** A share is never expired at the moment it is created, and one with an expiry stops
      being valid exactly `minutes` minutes later. */
  lemma FreshShareNotExpired(expiresInMinutes: Option<Number>, now: int, token: string)
    ensures !IsExpired(Download(token, [], now, ResolveExpiry(expiresInMinutes, now)), now)
    ensures var e := ResolveExpiry(expiresInMinutes, now);
      e.Some? ==> forall later :: IsExpired(Download(token, [], now, e), later) <==> later >= e.value
  {
  }

  // ---- Directory paths ----

  /** The segments normalizeDirectoryPath works on: trimmed, `\` read as `/`, split on `/`,
      empty segments dropped. */
  function PathSegments(input: string): seq<string> {
    NonEmpty(Split(ReplaceChar(Trim(input), '\\', '/'), '/'))
  }

  predicate IsNavigation(segment: string) { segment == "." || segment == ".." }

  /** The error normalizeDirectoryPath throws for a `.` or `..` segment. */
  const NavigationError: string := "Folder path cannot contain navigation segments."

  /** The body of normalizeDirectoryPath for a present string (shared with the folder
      normalisation of the download handler): `''` for blank or `/`, an error for any `.`
      or `..` segment, otherwise the segments joined with `/`. */
  function NormalizePath(input: string): (r: Result<string>)
  {
    var trimmed := Trim(input);
    if trimmed == "" || trimmed == "/" then Ok("")
    else
      var segments := PathSegments(input);
      if exists i :: 0 <= i < |segments| && IsNavigation(segments[i])
      then Err(NavigationError)
      else Ok(Join(segments, '/'))
  }

  /** normalizeDirectoryPath */
  function NormalizeDirectoryPath(input: Option<string>): (r: Result<Option<string>>)
    ensures input.None? ==> r == Ok(None)
    ensures input.Some? ==> (r.Ok? <==> NormalizePath(input.value).Ok?)
    ensures input.Some? && r.Ok? ==> r.value == Some(NormalizePath(input.value).value)
  {
    match input
    case None => Ok(None)
    case Some(s) =>
      match NormalizePath(s)
      case Ok(p) => Ok(Some(p))
      case Err(e) => Err(e)
  }

  /** Every segment is non-empty and free of `/` and `\`. */
  lemma SegmentsClean(input: string)
    ensures forall i :: 0 <= i < |PathSegments(input)| ==>
      |PathSegments(input)[i]| > 0 && '/' !in PathSegments(input)[i] && '\\' !in PathSegments(input)[i]
  {
    SlashSegmentsClean(Trim(input));
  }

  /** normalizeDirectoryPath for a present string: blank or `/` gives `''`; it fails exactly
      when a segment is `.` or `..`; otherwise splitting the result on `/` gives back the
      segments, which are non-empty and hold no `/` or `\`. */
  lemma NormalizePathSpec(input: string)
    ensures Trim(input) == "" || Trim(input) == "/" ==> NormalizePath(input) == Ok("")
    ensures Trim(input) != "" && Trim(input) != "/" ==>
      (NormalizePath(input).Err? <==> exists i :: 0 <= i < |PathSegments(input)| && IsNavigation(PathSegments(input)[i]))
    ensures NormalizePath(input).Ok? && PathSegments(input) != [] && Trim(input) != "/" ==>
      Split(NormalizePath(input).value, '/') == PathSegments(input)
    ensures forall i :: 0 <= i < |PathSegments(input)| ==>
      |PathSegments(input)[i]| > 0 && '/' !in PathSegments(input)[i] && '\\' !in PathSegments(input)[i]
  {
    var trimmed := Trim(input);
    var segments := PathSegments(input);
    SegmentsClean(input);
    if trimmed != "" && trimmed != "/" {
      assert NormalizePath(input) == if exists i :: 0 <= i < |segments| && IsNavigation(segments[i])
                                     then Err(NavigationError) else Ok(Join(segments, '/'));
      if segments != [] {
        assert forall i :: 0 <= i < |segments| ==> '/' !in segments[i];
        SplitJoin(segments, '/');
      }
    }
  }

  /** The only error of the normalisation is the navigation-segment one. */
  lemma NormalizePathError(input: string)
    ensures NormalizePath(input).Err? ==> NormalizePath(input) == Err(NavigationError)
  {
  }

  // ---- Generic per-record update of the table ----

  /** The table after `f` has been applied to every record; `None` deletes the entry. */
  function Updated(m: Table, f: ShareRecord -> Option<ShareRecord>): Table
  {
    map t | t in m && f(m[t]).Some? :: f(m[t]).value
  }

  /** The table part-way through such an update: tokens in `pending` still hold their
      original record. */
  function PartlyUpdated(m: Table, pending: set<string>, f: ShareRecord -> Option<ShareRecord>): Table
  {
    map t | t in m && (t in pending || f(m[t]).Some?) :: if t in pending then m[t] else f(m[t]).value
  }

  lemma PartlyUpdatedStep(m: Table, pending: set<string>, t: string, f: ShareRecord -> Option<ShareRecord>)
    requires t in pending && pending <= m.Keys
    ensures f(m[t]).None? ==> PartlyUpdated(m, pending - {t}, f) == PartlyUpdated(m, pending, f) - {t}
    ensures f(m[t]).Some? ==> PartlyUpdated(m, pending - {t}, f) == PartlyUpdated(m, pending, f)[t := f(m[t]).value]
  {
  }

  /** `f` keeps records well formed and under the same token. */
  ghost predicate KeepsWellFormed(f: ShareRecord -> Option<ShareRecord>) {
    forall r :: WellFormedRecord(r) && f(r).Some? ==> f(r).value.token == r.token && WellFormedRecord(f(r).value)
  }

  lemma UpdatedWellFormed(m: Table, f: ShareRecord -> Option<ShareRecord>)
    requires WellFormed(m) && KeepsWellFormed(f)
    ensures WellFormed(Updated(m, f))
  {
  }

  // ---- The record-level rules of the loops ----

  /** The listShares rule: expired records are dropped. */
  function DropExpired(now: int): ShareRecord -> Option<ShareRecord> {
    r => if IsExpired(r, now) then None else Some(r)
  }

  /** Table after the purge of listShares: exactly the unexpired records, untouched. */
  function PurgeExpired(m: Table, now: int): (r: Table)
    ensures forall t :: t in r <==> t in m && !IsExpired(m[t], now)
    ensures forall t :: t in r ==> r[t] == m[t]
  {
    Updated(m, DropExpired(now))
  }

  /** The removeFileFromShares rule for one record. */
  function StripFile(r: ShareRecord, fileKey: string): Option<ShareRecord> {
    if r.Download? then
      var filtered := RemoveAll(r.fileKeys, fileKey);
      if |filtered| != |r.fileKeys| then
        if |filtered| == 0 then None else Some(r.(fileKeys := filtered))
      else Some(r)
    else Some(r)
  }

  function StripFileRule(fileKey: string): ShareRecord -> Option<ShareRecord> {
    r => StripFile(r, fileKey)
  }

  /** Table after removeFileFromShares. */
  function WithoutFile(m: Table, fileKey: string): Table {
    Updated(m, StripFileRule(fileKey))
  }

  /** removeFileFromShares: no download share keeps the key; one that held it keeps its
      other keys in order, or is deleted when none is left; upload shares and shares
      without the key are untouched. */
  lemma WithoutFileSpec(m: Table, fileKey: string)
    ensures forall t :: t in WithoutFile(m, fileKey) && WithoutFile(m, fileKey)[t].Download? ==>
      fileKey !in WithoutFile(m, fileKey)[t].fileKeys
    ensures forall t :: t in m && (m[t].Upload? || fileKey !in m[t].fileKeys) ==>
      t in WithoutFile(m, fileKey) && WithoutFile(m, fileKey)[t] == m[t]
    ensures forall t :: t in m && m[t].Download? && fileKey in m[t].fileKeys ==>
      (t in WithoutFile(m, fileKey) <==> exists k :: k in m[t].fileKeys && k != fileKey)
    ensures forall t :: t in m && m[t].Download? && t in WithoutFile(m, fileKey) ==>
      WithoutFile(m, fileKey)[t] == m[t].(fileKeys := RemoveAll(m[t].fileKeys, fileKey))
    ensures forall t :: t in WithoutFile(m, fileKey) ==> t in m
  {
    forall t | t in m && m[t].Download? && fileKey in m[t].fileKeys
      ensures t in WithoutFile(m, fileKey) <==> exists k :: k in m[t].fileKeys && k != fileKey
    {
      var filtered := RemoveAll(m[t].fileKeys, fileKey);
      if t in WithoutFile(m, fileKey) {
        assert filtered != [] && filtered[0] in filtered;
      }
      if exists k :: k in m[t].fileKeys && k != fileKey {
        var k :| k in m[t].fileKeys && k != fileKey;
        assert k in filtered;
      }
    }
  }

  /** The (token, key) pairs held by the download shares of a table. */
  ghost function SharedPairs(m: Table): set<(string, string)> {
    set t, k | t in m && m[t].Download? && k in m[t].fileKeys :: (t, k)
  }

  /** Removing a key never adds a pair, and a removal that changes the table drops one:
      a run of removals that changed the table cannot bring it back. */
  lemma WithoutFileShrinks(m: Table, fileKey: string)
    ensures SharedPairs(WithoutFile(m, fileKey)) <= SharedPairs(m)
    ensures WithoutFile(m, fileKey) != m ==> SharedPairs(WithoutFile(m, fileKey)) < SharedPairs(m)
  {
    var w := WithoutFile(m, fileKey);
    WithoutFileSpec(m, fileKey);
    forall p | p in SharedPairs(w) ensures p in SharedPairs(m) {
      var t, k := p.0, p.1;
      assert t in w && w[t].Download? && k in w[t].fileKeys;
    }
    if w != m {
      if !exists t :: t in m && m[t].Download? && fileKey in m[t].fileKeys {
        assert false;
      }
      var t :| t in m && m[t].Download? && fileKey in m[t].fileKeys;
      assert (t, fileKey) in SharedPairs(m);
      assert (t, fileKey) !in SharedPairs(w);
    }
  }

  function QuotaCap(r: ShareRecord): Option<int> {
    if r.Upload? && r.maxBytes.Some? && r.maxBytes.value.Int? && r.maxBytes.value.value > 0
    then Some(r.maxBytes.value.value) else None
  }

  /** registerUpload's effect on the table for a valid byte count. */
  function Charged(m: Table, token: string, bytes: nat): Table
    requires token in m && m[token].Upload?
  {
    var r := m[token].(uploadedBytes := m[token].uploadedBytes + bytes);
    if QuotaCap(r).Some? && r.uploadedBytes >= QuotaCap(r).value then m - {token} else m[token := r]
  }

  /** Charging adds exactly `bytes` and deletes the share exactly when a positive cap is
      reached; no other share changes. */
  lemma ChargedSpec(m: Table, token: string, bytes: nat)
    requires token in m && m[token].Upload?
    ensures var r := Charged(m, token, bytes);
      && (token in r <==> !(QuotaCap(m[token]).Some? && m[token].uploadedBytes + bytes >= QuotaCap(m[token]).value))
      && (token in r ==> r[token] == m[token].(uploadedBytes := m[token].uploadedBytes + bytes))
      && (forall t :: t != token ==> (t in r <==> t in m) && (t in r ==> r[t] == m[t]))
  {
  }

  // ---- replaceFileKeys ----

  /** The mapping replaceFileKeys builds: pairs with `from === to` are skipped and a later
      pair overrides an earlier one. */
  function MappingOf(replacements: seq<(string, string)>): map<string, string>
  {
    if replacements == [] then map[]
    else
      var m := MappingOf(replacements[..|replacements| - 1]);
      var p := replacements[|replacements| - 1];
      if p.0 == p.1 then m else m[p.0 := p.1]
  }

  /** A key is mapped exactly when some pair moves it elsewhere, and it maps to the target
      of the last such pair. */
  lemma {:induction false} MappingOfSpec(replacements: seq<(string, string)>, k: string)
    ensures k in MappingOf(replacements) <==>
      exists i :: 0 <= i < |replacements| && replacements[i].0 == k && replacements[i].1 != k
    ensures k in MappingOf(replacements) ==>
      exists i :: 0 <= i < |replacements| && replacements[i] == (k, MappingOf(replacements)[k]) && k != MappingOf(replacements)[k]
        && forall j :: i < j < |replacements| ==> replacements[j].0 != k || replacements[j].1 == k
  {
    if replacements != [] {
      var n := |replacements| - 1;
      var init := replacements[..n];
      var p := replacements[n];
      MappingOfSpec(init, k);
      assert forall i :: 0 <= i < n ==> init[i] == replacements[i];
      if p.0 == k && p.1 != k {
        assert replacements[n] == (k, MappingOf(replacements)[k]);
      } else if k in MappingOf(replacements) {
        var i :| 0 <= i < n && init[i] == (k, MappingOf(init)[k]) && k != MappingOf(init)[k]
          && forall j :: i < j < n ==> init[j].0 != k || init[j].1 == k;
        assert replacements[i] == (k, MappingOf(replacements)[k]);
      }
    }
  }

  /** The replacement for a key, when the mapping gives a non-empty one (`if (replacement)`). */
  predicate Replaced(key: string, mapping: map<string, string>) {
    key in mapping && mapping[key] != ""
  }

  /** The inner loop of replaceFileKeys: each key replaced where the mapping says so. */
  function RewriteKeys(keys: seq<string>, mapping: map<string, string>): (r: seq<string>)
    ensures |r| == |keys|
    ensures forall i :: 0 <= i < |keys| ==> r[i] == if Replaced(keys[i], mapping) then mapping[keys[i]] else keys[i]
  {
    if keys == [] then []
    else RewriteKeys(keys[..|keys| - 1], mapping) + [if Replaced(keys[|keys| - 1], mapping) then mapping[keys[|keys| - 1]] else keys[|keys| - 1]]
  }

  predicate AnyReplaced(keys: seq<string>, mapping: map<string, string>) {
    exists i :: 0 <= i < |keys| && Replaced(keys[i], mapping)
  }

  /** Some download share of the table holds a key that the mapping replaces. */
  ghost predicate SomeShareReplaced(m: Table, mapping: map<string, string>) {
    exists t :: t in m && m[t].Download? && AnyReplaced(m[t].fileKeys, mapping)
  }

  /** The replaceFileKeys rule for one record. */
  function RewriteRecord(r: ShareRecord, mapping: map<string, string>): Option<ShareRecord> {
    if r.Download? && AnyReplaced(r.fileKeys, mapping) then
      var unique := Dedup(RewriteKeys(r.fileKeys, mapping));
      if |unique| == 0 then None else Some(r.(fileKeys := unique))
    else Some(r)
  }

  function RewriteRule(mapping: map<string, string>): ShareRecord -> Option<ShareRecord> {
    r => RewriteRecord(r, mapping)
  }

  /** replaceFileKeys never deletes a share (the empty-result branch cannot be taken); a
      rewritten share lists each resulting key once, every key it lists is a replacement
      or an unmapped original, and every original key is represented; shares that hold no
      mapped key and upload shares are unchanged. */
  lemma RewriteRecordSpec(r: ShareRecord, mapping: map<string, string>)
    ensures RewriteRecord(r, mapping).Some?
    ensures !(r.Download? && AnyReplaced(r.fileKeys, mapping)) ==> RewriteRecord(r, mapping) == Some(r)
    ensures r.Download? && AnyReplaced(r.fileKeys, mapping) ==>
      var keys := RewriteRecord(r, mapping).value.fileKeys;
      && NoDuplicates(keys)
      && (forall k :: k in keys ==>
            (exists prev :: prev in r.fileKeys && Replaced(prev, mapping) && mapping[prev] == k)
            || (k in r.fileKeys && !Replaced(k, mapping)))
      && (forall prev :: prev in r.fileKeys ==> (if Replaced(prev, mapping) then mapping[prev] else prev) in keys)
  {
    if r.Download? && AnyReplaced(r.fileKeys, mapping) {
      var next := RewriteKeys(r.fileKeys, mapping);
      var i :| 0 <= i < |r.fileKeys| && Replaced(r.fileKeys[i], mapping);
      assert next[i] in Dedup(next);
      forall k | k in Dedup(next)
        ensures (exists prev :: prev in r.fileKeys && Replaced(prev, mapping) && mapping[prev] == k)
             || (k in r.fileKeys && !Replaced(k, mapping))
      {
        var j :| 0 <= j < |next| && next[j] == k;
        assert r.fileKeys[j] in r.fileKeys;
      }
      forall prev | prev in r.fileKeys
        ensures (if Replaced(prev, mapping) then mapping[prev] else prev) in Dedup(next)
      {
        var j :| 0 <= j < |r.fileKeys| && r.fileKeys[j] == prev;
        assert next[j] in next;
      }
    }
  }

  /** Table after replaceFileKeys with a given mapping. */
  function WithRewrittenKeys(m: Table, mapping: map<string, string>): Table {
    Updated(m, RewriteRule(mapping))
  }

  lemma WithRewrittenKeysSpec(m: Table, mapping: map<string, string>)
    ensures WithRewrittenKeys(m, mapping).Keys == m.Keys
    ensures forall t :: t in m && !(m[t].Download? && AnyReplaced(m[t].fileKeys, mapping)) ==>
      WithRewrittenKeys(m, mapping)[t] == m[t]
  {
    forall t | t in m {
      RewriteRecordSpec(m[t], mapping);
    }
  }

  /** The new record createDownloadShare stores. */
  function NewDownloadShare(fileKeys: seq<string>, expiresInMinutes: Option<Number>, token: string, now: int): (r: ShareRecord)
    ensures r.Download? && r.token == token && r.createdAt == now
    ensures NoDuplicates(r.fileKeys) && (forall k :: k in r.fileKeys <==> k in fileKeys)
    ensures r.expiresAt == ResolveExpiry(expiresInMinutes, now)
    ensures r.fileKeys == Dedup(fileKeys)
  {
    Download(token, Dedup(fileKeys), now, ResolveExpiry(expiresInMinutes, now))
  }

  /** Values of a table listed one per token. */
  ghost predicate ListsValues(vs: seq<ShareRecord>, m: Table) {
    && |vs| == |m.Keys|
    && (forall r :: r in vs <==> r in m.Values)
    && NoDuplicates(vs)
  }

  function CreatedAt(record: ShareRecord): int {
    record.createdAt
  }

  /** The records of `m` in the order their tokens appear in `order`: the iteration order
      of a Map whose keys were first set in that order. */
  function InsertionOrdered(m: Table, order: seq<string>): seq<ShareRecord>
  {
    if order == [] then []
    else (if order[0] in m then [m[order[0]]] else []) + InsertionOrdered(m, order[1..])
  }

  /** The insertion order after `shares.set(token, …)`: a token already in the table keeps
      its place, a new one goes last. */
  function OrderAfterSet(m: Table, order: seq<string>, token: string): (r: seq<string>)
    ensures NoDuplicates(order) ==> NoDuplicates(r)
    ensures token in r && forall t :: t in order ==> t in r
  {
    if token in m then
      if token in order then order else order + [token]
    else
      if NoDuplicates(order) then RemoveAllNoDuplicates(order, token); RemoveAll(order, token) + [token]
      else RemoveAll(order, token) + [token]
  }

  /** Tokens `order` does not list do not change the listing. */
  lemma {:induction false} InsertionOrderedIgnores(m: Table, order: seq<string>, token: string, record: ShareRecord)
    requires token !in order
    ensures InsertionOrdered(m[token := record], order) == InsertionOrdered(m, order)
    ensures InsertionOrdered(m - {token}, order) == InsertionOrdered(m, order)
  {
    if order != [] {
      InsertionOrderedIgnores(m, order[1..], token, record);
    }
  }

  /** Tokens the table does not hold do not change the listing. */
  lemma {:induction false} InsertionOrderedSkipsAbsent(m: Table, order: seq<string>, token: string)
    requires token !in m
    ensures InsertionOrdered(m, RemoveAll(order, token)) == InsertionOrdered(m, order)
  {
    if order != [] {
      InsertionOrderedSkipsAbsent(m, order[1..], token);
      var rest := RemoveAll(order[1..], token);
      if order[0] != token {
        var o := [order[0]] + rest;
        assert o[0] == order[0] && o[1..] == rest;
      }
    }
  }

  lemma {:induction false} InsertionOrderedAppend(m: Table, order: seq<string>, token: string)
    ensures InsertionOrdered(m, order + [token]) ==
      InsertionOrdered(m, order) + (if token in m then [m[token]] else [])
  {
    if order == [] {
      assert [token][1..] == [];
    } else {
      assert (order + [token])[1..] == order[1..] + [token];
      InsertionOrderedAppend(m, order[1..], token);
    }
  }

  /** A record stored under a new token is listed after every record already there. */
  lemma NewTokenListedLast(m: Table, order: seq<string>, token: string, record: ShareRecord)
    requires token !in m
    ensures InsertionOrdered(m[token := record], OrderAfterSet(m, order, token)) ==
      InsertionOrdered(m, order) + [record]
  {
    var rest := RemoveAll(order, token);
    InsertionOrderedAppend(m[token := record], rest, token);
    InsertionOrderedIgnores(m, rest, token, record);
    InsertionOrderedSkipsAbsent(m, order, token);
  }

  /** Deleting a token lists the other records in the order they had. */
  lemma {:induction false} RemovedTokenKeepsOrder(m: Table, order: seq<string>, token: string)
    requires WellFormed(m) && token in m
    ensures InsertionOrdered(m - {token}, order) == RemoveAll(InsertionOrdered(m, order), m[token])
  {
    if order != [] {
      RemovedTokenKeepsOrder(m, order[1..], token);
      var rest := InsertionOrdered(m, order[1..]);
      if order[0] == token {
        var l := [m[token]] + rest;
        assert InsertionOrdered(m, order) == l;
        assert l[0] == m[token] && l[1..] == rest;
        assert InsertionOrdered(m - {token}, order) == InsertionOrdered(m - {token}, order[1..]);
      } else if order[0] in m {
        var l := [m[order[0]]] + rest;
        assert InsertionOrdered(m, order) == l;
        assert m[order[0]].token != m[token].token;
        assert l[0] == m[order[0]] && l[1..] == rest;
      } else {
        assert InsertionOrdered(m, order) == rest;
        assert InsertionOrdered(m - {token}, order) == InsertionOrdered(m - {token}, order[1..]);
      }
    }
  }

  /** Listing one more record first. */
  lemma ListsValuesCons(m: Table, h: string, vs: seq<ShareRecord>)
    requires WellFormed(m) && h in m
    requires ListsValues(vs, m - {h})
    ensures ListsValues([m[h]] + vs, m)
  {
    var m' := m - {h};
    assert m.Keys == m'.Keys + {h};
    forall x | x in m'.Values ensures x.token != h {
      var t :| t in m' && m'[t] == x;
      assert x.token == t;
    }
    forall x ensures x in [m[h]] + vs <==> x in m.Values {
      if x in m'.Values {
        var t :| t in m' && m'[t] == x;
        assert m[t] == x;
      }
      if x in m.Values && x != m[h] {
        var t :| t in m && m[t] == x;
        assert m'[t] == x;
      }
    }
  }

  /** When `order` lists every token of the table, each once, the listing holds every
      record of the table once. */
  lemma {:induction false} InsertionOrderedLists(m: Table, order: seq<string>)
    requires WellFormed(m) && NoDuplicates(order) && forall t :: t in m ==> t in order
    ensures ListsValues(InsertionOrdered(m, order), m)
  {
    if order == [] {
      assert m == map[];
    } else {
      var h, rest := order[0], order[1..];
      assert h !in rest;
      if h in m {
        InsertionOrderedLists(m - {h}, rest);
        InsertionOrderedIgnores(m, rest, h, m[h]);
        ListsValuesCons(m, h, InsertionOrdered(m - {h}, rest));
      } else {
        InsertionOrderedLists(m, rest);
      }
    }
  }

  class ShareRegistry {
    var shares: Table
    /** The copy last written to disk. */
    var persisted: Table
    /** The Map's insertion order: every token the table holds, each once, in the order it
        was first set (a deleted token may stay listed until it is set again). */
    var order: seq<string>

    ghost predicate Valid()
      reads this
    {
      && WellFormed(shares)
      && NoDuplicates(order)
      && forall t :: t in shares ==> t in order
    }

    /** The registry after loading the store file: `loaded` stands for what was read and
        `loadedOrder` for the order of its tokens in the file. */
    constructor(loaded: Table, loadedOrder: seq<string>)
      requires WellFormed(loaded)
      requires NoDuplicates(loadedOrder) && forall t :: t in loaded ==> t in loadedOrder
      ensures Valid() && shares == loaded && persisted == loaded && order == loadedOrder
    {
      shares := loaded;
      persisted := loaded;
      order := loadedOrder;
    }

    /** createDownloadShare */
    method CreateDownloadShare(fileKeys: seq<string>, expiresInMinutes: Option<Number>, token: string, now: int)
      returns (r: Result<ShareRecord>)
      requires Valid()
      modifies this
      ensures Valid()
      ensures fileKeys == [] ==>
        r.Err? && shares == old(shares) && persisted == old(persisted) && order == old(order)
      ensures fileKeys != [] ==>
        && r == Ok(NewDownloadShare(fileKeys, expiresInMinutes, token, now))
        && shares == old(shares)[token := r.value] && persisted == shares
        && order == OrderAfterSet(old(shares), old(order), token)
    {
      if |fileKeys| == 0 {
        return Err("At least one file key is required to create a download share");
      }
      var record := NewDownloadShare(fileKeys, expiresInMinutes, token, now);
      order := OrderAfterSet(shares, order, token);
      shares := shares[token := record];
      persisted := shares;
      return Ok(record);
    }

    /** createUploadShare: the target directory is normalised first, and a bad one fails
        before anything is stored. */
    method CreateUploadShare(expiresInMinutes: Option<Number>, maxBytes: Option<Number>,
                             targetDirectory: Option<string>, token: string, now: int)
      returns (r: Result<ShareRecord>)
      requires Valid()
      modifies this
      ensures Valid()
      ensures NormalizeDirectoryPath(targetDirectory).Err? ==>
        && r == Err(NavigationError) && shares == old(shares) && persisted == old(persisted)
        && order == old(order)
      ensures NormalizeDirectoryPath(targetDirectory).Ok? ==>
        && r == Ok(Upload(token, now, ResolveExpiry(expiresInMinutes, now), maxBytes, 0,
                          NormalizeDirectoryPath(targetDirectory).value))
        && shares == old(shares)[token := r.value] && persisted == shares
        && order == OrderAfterSet(old(shares), old(order), token)
    {
      var directory := NormalizeDirectoryPath(targetDirectory);
      if directory.Err? {
        return Err(directory.message);
      }
      var record := Upload(token, now, ResolveExpiry(expiresInMinutes, now), maxBytes, 0, directory.value);
      order := OrderAfterSet(shares, order, token);
      shares := shares[token := record];
      persisted := shares;
      return Ok(record);
    }

    /** getShare: lazy expiry on read. */
    method GetShare(token: string, now: int) returns (r: Option<ShareRecord>)
      requires Valid()
      modifies this
      ensures Valid() && order == old(order)
      ensures r.Some? ==> r.value.token == token && !IsExpired(r.value, now)
      ensures token !in old(shares) ==> r.None? && shares == old(shares) && persisted == old(persisted)
      ensures token in old(shares) && IsExpired(old(shares)[token], now) ==>
        r.None? && shares == old(shares) - {token} && persisted == shares
      ensures token in old(shares) && !IsExpired(old(shares)[token], now) ==>
        r == Some(old(shares)[token]) && shares == old(shares) && persisted == old(persisted)
    {
      if token !in shares {
        return None;
      }
      var record := shares[token];
      if IsExpired(record, now) {
        shares := shares - {token};
        persisted := shares;
        return None;
      }
      return Some(record);
    }

    /** The shared loop of listShares and removeFileFromShares: visit every token, apply
        the rule where `touched` holds, and report whether anything was touched. */
    method UpdateEach(f: ShareRecord -> Option<ShareRecord>, touched: ShareRecord -> bool) returns (changed: bool)
      requires Valid()
      requires KeepsWellFormed(f)
      requires forall r :: !touched(r) ==> f(r) == Some(r)
      modifies this
      ensures Valid() && order == old(order)
      ensures shares == Updated(old(shares), f) && persisted == old(persisted)
      ensures changed <==> exists t :: t in old(shares) && touched(old(shares)[t])
    {
      ghost var start := shares;
      var pending := shares.Keys;
      changed := false;
      while pending != {}
        invariant pending <= start.Keys
        invariant shares == PartlyUpdated(start, pending, f)
        invariant persisted == old(persisted) && order == old(order)
        invariant changed <==> exists t :: t in start && t !in pending && touched(start[t])
        decreases |pending|
      {
        var t :| t in pending;
        var record := shares[t];
        assert record == start[t];
        PartlyUpdatedStep(start, pending, t, f);
        if touched(record) {
          changed := true;
          match f(record) {
            case None => shares := shares - {t};
            case Some(next) => shares := shares[t := next];
          }
        }
        pending := pending - {t};
      }
      assert shares == Updated(start, f);
      UpdatedWellFormed(start, f);
    }

    /** Array.from(shares.values()): every record once, in insertion order. */
    method Values() returns (vs: seq<ShareRecord>)
      requires Valid()
      ensures vs == InsertionOrdered(shares, order)
      ensures ListsValues(vs, shares)
    {
      vs := [];
      var i := 0;
      while i < |order|
        invariant i <= |order|
        invariant vs + InsertionOrdered(shares, order[i..]) == InsertionOrdered(shares, order)
      {
        var t := order[i];
        assert order[i..] == [t] + order[i + 1..];
        if t in shares {
          vs := vs + [shares[t]];
        }
        i := i + 1;
      }
      assert order[i..] == [];
      InsertionOrderedLists(shares, order);
    }

    /** listShares: purge expired records, then list the rest newest first. */
    method ListShares(now: int) returns (r: seq<ShareRecord>)
      requires Valid()
      modifies this
      ensures Valid() && order == old(order)
      ensures shares == PurgeExpired(old(shares), now)
      ensures persisted == if shares != old(shares) then shares else old(persisted)
      ensures ListsValues(r, shares)
      ensures forall i, j :: 0 <= i < j < |r| ==> r[i].createdAt >= r[j].createdAt
      ensures forall c :: WithKey(r, CreatedAt, c) == WithKey(InsertionOrdered(shares, order), CreatedAt, c)
    {
      PurgeExpiredShares(now);
      r := ValuesNewestFirst();
    }

    /** The purge at the start of listShares; the table is written back only when a record
        was dropped. */
    method PurgeExpiredShares(now: int)
      requires Valid()
      modifies this
      ensures Valid() && order == old(order)
      ensures shares == PurgeExpired(old(shares), now)
      ensures persisted == if shares != old(shares) then shares else old(persisted)
    {
      var changed := UpdateEach(DropExpired(now), (record: ShareRecord) => IsExpired(record, now));
      if changed {
        persisted := shares;
        ghost var t :| t in old(shares) && IsExpired(old(shares)[t], now);
        assert t !in shares;
      }
    }

    /** The records of the table, newest first; records created at the same time keep
        their insertion order (the sort is stable). */
    method ValuesNewestFirst() returns (r: seq<ShareRecord>)
      requires Valid()
      ensures ListsValues(r, shares)
      ensures forall i, j :: 0 <= i < j < |r| ==> r[i].createdAt >= r[j].createdAt
      ensures forall c :: WithKey(r, CreatedAt, c) == WithKey(InsertionOrdered(shares, order), CreatedAt, c)
    {
      var vs := Values();
      r := SortByKeyDescending(vs, CreatedAt);
      assert forall x :: x in r <==> x in vs by {
        forall x ensures x in r <==> x in vs {
          assert x in r <==> x in multiset(r);
        }
      }
      SortedDistinct(vs, r);
    }

    /** removeShare */
    method RemoveShare(token: string)
      requires Valid()
      modifies this
      ensures Valid() && order == old(order)
      ensures shares == old(shares) - {token}
      ensures persisted == if token in old(shares) then shares else old(persisted)
    {
      if token in shares {
        shares := shares - {token};
        persisted := shares;
      }
    }

    /** removeFileFromShares */
    method RemoveFileFromShares(fileKey: string)
      requires Valid()
      modifies this
      ensures Valid() && order == old(order)
      ensures shares == WithoutFile(old(shares), fileKey)
      ensures persisted == if shares != old(shares) then shares else old(persisted)
    {
      ghost var start := shares;
      forall r | WellFormedRecord(r) && StripFile(r, fileKey).Some?
        ensures StripFile(r, fileKey).value.token == r.token && WellFormedRecord(StripFile(r, fileKey).value)
      {
        if r.Download? {
          RemoveAllNoDuplicates(r.fileKeys, fileKey);
        }
      }
      var changed := UpdateEach(StripFileRule(fileKey), (record: ShareRecord) => record.Download? && fileKey in record.fileKeys);
      if changed {
        persisted := shares;
        ghost var t :| t in start && start[t].Download? && fileKey in start[t].fileKeys;
        WithoutFileSpec(start, fileKey);
        assert t !in shares || shares[t].fileKeys != start[t].fileKeys;
      }
    }

    /** registerUpload */
    method RegisterUpload(token: string, bytes: Number) returns (r: Result<()>)
      requires Valid()
      modifies this
      ensures Valid() && order == old(order)
      ensures (token !in old(shares) || old(shares)[token].Download?) ==>
        r == Err("Upload share not found") && shares == old(shares) && persisted == old(persisted)
      ensures token in old(shares) && old(shares)[token].Upload? && (bytes.NaN? || bytes.value < 0) ==>
        r == Err("Invalid upload byte count") && shares == old(shares) && persisted == old(persisted)
      ensures token in old(shares) && old(shares)[token].Upload? && bytes.Int? && bytes.value >= 0 ==>
        r.Ok? && shares == Charged(old(shares), token, bytes.value) && persisted == shares
    {
      if token !in shares || !shares[token].Upload? {
        return Err("Upload share not found");
      }
      if !IsFinite(bytes) || bytes.value < 0 {
        return Err("Invalid upload byte count");
      }
      var record := shares[token];
      record := record.(uploadedBytes := record.uploadedBytes + bytes.value);
      var cap := QuotaCap(record);
      if cap.Some? && record.uploadedBytes >= cap.value {
        shares := shares - {token};
      } else {
        shares := shares[token := record];
      }
      persisted := shares;
      return Ok(());
    }

    /** The first loop of replaceFileKeys. */
    static method BuildMapping(replacements: seq<(string, string)>) returns (mapping: map<string, string>)
      ensures mapping == MappingOf(replacements)
    {
      mapping := map[];
      var i := 0;
      while i < |replacements|
        invariant 0 <= i <= |replacements|
        invariant mapping == MappingOf(replacements[..i])
      {
        var (from, to) := replacements[i];
        assert replacements[..i + 1][..i] == replacements[..i];
        if from != to {
          mapping := mapping[from := to];
        }
        i := i + 1;
      }
      assert replacements[..i] == replacements;
    }

    /** The inner loop of replaceFileKeys over one share's keys. */
    static method RewriteKeysOf(keys: seq<string>, mapping: map<string, string>)
      returns (next: seq<string>, updated: bool)
      ensures next == RewriteKeys(keys, mapping)
      ensures updated <==> AnyReplaced(keys, mapping)
    {
      next := [];
      updated := false;
      var i := 0;
      while i < |keys|
        invariant 0 <= i <= |keys|
        invariant next == RewriteKeys(keys[..i], mapping)
        invariant updated <==> AnyReplaced(keys[..i], mapping)
      {
        var key := keys[i];
        assert keys[..i + 1][..i] == keys[..i];
        assert keys[..i + 1][i] == key;
        if key in mapping && mapping[key] != "" {
          updated := true;
          next := next + [mapping[key]];
        } else {
          next := next + [key];
        }
        i := i + 1;
      }
      assert keys[..i] == keys;
    }

    /** The body of the outer loop of replaceFileKeys for one record. */
    static method RewriteRecordOf(record: ShareRecord, mapping: map<string, string>)
      returns (next: Option<ShareRecord>, updated: bool)
      ensures next == RewriteRecord(record, mapping)
      ensures updated <==> record.Download? && AnyReplaced(record.fileKeys, mapping)
      ensures !updated ==> next == Some(record)
    {
      next := Some(record);
      updated := false;
      if record.Download? {
        var nextKeys;
        nextKeys, updated := RewriteKeysOf(record.fileKeys, mapping);
        if updated {
          var uniqueKeys := Dedup(nextKeys);
          if |uniqueKeys| == 0 {
            next := None;
          } else {
            next := Some(record.(fileKeys := uniqueKeys));
          }
        }
      }
    }

    /** Some share outside `pending` holds a key the mapping replaces. */
    static ghost predicate TouchedOutside(m: Table, pending: set<string>, mapping: map<string, string>) {
      exists t :: t in m && t !in pending && m[t].Download? && AnyReplaced(m[t].fileKeys, mapping)
    }

    static lemma TouchedStep(m: Table, pending: set<string>, t: string, mapping: map<string, string>)
      requires t in m
      ensures TouchedOutside(m, pending - {t}, mapping)
              <==> TouchedOutside(m, pending, mapping) || (m[t].Download? && AnyReplaced(m[t].fileKeys, mapping))
    {
    }

    /** The outer loop of replaceFileKeys, for a non-empty mapping. */
    method RewriteEach(mapping: map<string, string>) returns (changed: bool)
      requires Valid()
      modifies this
      ensures Valid() && order == old(order)
      ensures shares == WithRewrittenKeys(old(shares), mapping) && persisted == old(persisted)
      ensures changed <==> exists t :: t in old(shares) && old(shares)[t].Download? && AnyReplaced(old(shares)[t].fileKeys, mapping)
    {
      ghost var start := shares;
      ghost var f := RewriteRule(mapping);
      changed := false;
      var pending := shares.Keys;
      while pending != {}
        invariant pending <= start.Keys
        invariant shares == PartlyUpdated(start, pending, f)
        invariant persisted == old(persisted) && order == old(order)
        invariant changed <==> TouchedOutside(start, pending, mapping)
        decreases |pending|
      {
        var t :| t in pending;
        var record := shares[t];
        assert record == start[t];
        PartlyUpdatedStep(start, pending, t, f);
        var next, updated := RewriteRecordOf(record, mapping);
        TouchedStep(start, pending, t, mapping);
        if updated {
          match next {
            case None => shares := shares - {t};
            case Some(r) => shares := shares[t := r];
          }
          changed := true;
        }
        pending := pending - {t};
      }
      assert shares == Updated(start, f);
      RewriteKeepsWellFormed(mapping);
      UpdatedWellFormed(start, f);
    }

    /** replaceFileKeys */
    method ReplaceFileKeys(replacements: seq<(string, string)>)
      requires Valid()
      modifies this
      ensures Valid() && order == old(order)
      ensures shares == WithRewrittenKeys(old(shares), MappingOf(replacements))
      ensures persisted == if SomeShareReplaced(old(shares), MappingOf(replacements)) then shares else old(persisted)
    {
      if |replacements| == 0 {
        return;
      }
      var mapping := BuildMapping(replacements);
      if |mapping| == 0 {
        assert forall t | t in shares && shares[t].Download? :: !AnyReplaced(shares[t].fileKeys, mapping);
        WithRewrittenKeysSpec(shares, mapping);
        return;
      }
      var changed := RewriteEach(mapping);
      if changed {
        persisted := shares;
      }
    }
  }

  lemma RewriteKeepsWellFormed(mapping: map<string, string>)
    ensures KeepsWellFormed(RewriteRule(mapping))
  {
    forall r | WellFormedRecord(r) && RewriteRecord(r, mapping).Some?
      ensures RewriteRecord(r, mapping).value.token == r.token && WellFormedRecord(RewriteRecord(r, mapping).value)
    {
      RewriteRecordSpec(r, mapping);
    }
  }

  /** A sorted rearrangement of distinct values is again a listing of them. */
  lemma SortedDistinct(vs: seq<ShareRecord>, r: seq<ShareRecord>)
    requires NoDuplicates(vs) && multiset(r) == multiset(vs)
    ensures NoDuplicates(r) && |r| == |vs|
  {
    assert |r| == |multiset(r)| == |multiset(vs)| == |vs|;
    forall i, j | 0 <= i < j < |r| ensures r[i] != r[j] {
      if r[i] == r[j] {
        assert multiset(r)[r[i]] >= 2 by {
          assert r == r[..i] + [r[i]] + r[i + 1..];
          assert r[i + 1..] == r[i + 1..j] + [r[j]] + r[j + 1..];
        }
        DistinctCount(vs, r[i]);
        assert false;
      }
    }
  }

  lemma DistinctCount(vs: seq<ShareRecord>, x: ShareRecord)
    requires NoDuplicates(vs)
    ensures multiset(vs)[x] <= 1
  {
    if vs != [] {
      assert vs == [vs[0]] + vs[1..];
      assert NoDuplicates(vs[1..]);
      DistinctCount(vs[1..], x);
      if vs[0] == x {
        assert x !in vs[1..];
      }
    }
  }
}
