/** security-headers.ts: the default security headers added to every response. A response's
    headers are a map from the lower-cased header name, as the Fetch `Headers` object keeps
    them; `has` and `set` lower-case the name they are given. Whether secure cookies are
    configured is a parameter. */
module SecurityHeaders {
  import opened Strings

  // ---- The Content-Security-Policy value ----

  /** Array.prototype.join with a separator of any length. */
  function JoinWith(parts: seq<string>, sep: string): string
  {
    if |parts| == 0 then ""
    else if |parts| == 1 then parts[0]
    else parts[0] + sep + JoinWith(parts[1..], sep)
  }

  /** Joined parts are the parts and the separators between them, in order. */
  lemma {:induction false} JoinWithCons(x: string, parts: seq<string>, sep: string)
    requires parts != []
    ensures JoinWith([x] + parts, sep) == x + sep + JoinWith(parts, sep)
  {
    assert ([x] + parts)[1..] == parts;
  }

  const ScriptSrc: seq<string> := ["'self'", "https://cdn.jsdelivr.net"]
  const StyleSrc: seq<string> := ["'self'", "'unsafe-inline'", "https://cdn.jsdelivr.net"]
  const ConnectSrc: seq<string> := ["'self'"]
  const ImgSrc: seq<string> := ["'self'", "data:", "blob:"]
  const FontSrc: seq<string> := ["'self'", "data:"]

  const CspDirectives: seq<string> := [
    "default-src 'self'",
    "script-src " + JoinWith(ScriptSrc, " "),
    "style-src " + JoinWith(StyleSrc, " "),
    "connect-src " + JoinWith(ConnectSrc, " "),
    "img-src " + JoinWith(ImgSrc, " "),
    "font-src " + JoinWith(FontSrc, " "),
    "object-src 'none'",
    "base-uri 'self'",
    "form-action 'self'",
    "frame-ancestors 'none'",
    "upgrade-insecure-requests"
  ]

  const ContentSecurityPolicy: string := JoinWith(CspDirectives, "; ")

  /** The source lists, each joined with a space. */
  lemma ScriptSrcJoined()
    ensures JoinWith(ScriptSrc, " ") == "'self' https://cdn.jsdelivr.net"
  {
    JoinWithCons("'self'", ["https://cdn.jsdelivr.net"], " ");
  }

  lemma JoinWithThree(a: string, b: string, c: string, sep: string)
    ensures JoinWith([a, b, c], sep) == a + sep + (b + sep + c)
  {
    JoinWithCons(b, [c], sep);
    assert [a, b, c] == [a] + [b, c];
    assert [b, c] == [b] + [c];
    JoinWithCons(a, [b, c], sep);
  }

  lemma StyleSrcJoined()
    ensures JoinWith(StyleSrc, " ") == "'self' 'unsafe-inline' " + "https://cdn.jsdelivr.net"
  {
    JoinWithThree("'self'", "'unsafe-inline'", "https://cdn.jsdelivr.net", " ");
  }

  lemma ImgSrcJoined()
    ensures JoinWith(ImgSrc, " ") == "'self' data: blob:"
  {
    JoinWithThree("'self'", "data:", "blob:", " ");
  }

  lemma FontSrcJoined()
    ensures JoinWith(FontSrc, " ") == "'self' data:"
  {
    JoinWithCons("'self'", ["data:"], " ");
  }

  /** The policy starts with the first directive and every later directive follows a `; `. */
  lemma {:induction false} JoinWithParts(parts: seq<string>, sep: string, k: nat)
    requires 1 <= k < |parts|
    ensures JoinWith(parts, sep)
            == JoinWith(parts[..k], sep) + sep + JoinWith(parts[k..], sep)
  {
    if k == 1 {
      assert parts[..1] == [parts[0]];
    } else {
      JoinWithParts(parts[1..], sep, k - 1);
      assert parts[1..][..k - 1] == parts[..k][1..];
      assert parts[1..][k - 1..] == parts[k..];
    }
  }

  /** Every inner part of a join sits between two separators. */
  lemma JoinWithContains(parts: seq<string>, sep: string, k: nat)
    requires 1 <= k < |parts| - 1
    ensures exists before, after :: JoinWith(parts, sep) == before + sep + parts[k] + sep + after
  {
    JoinWithParts(parts, sep, k);
    var rest := parts[k..];
    assert rest == [parts[k]] + rest[1..];
    JoinWithCons(parts[k], rest[1..], sep);
    var before := JoinWith(parts[..k], sep);
    var after := JoinWith(rest[1..], sep);
    assert JoinWith(parts, sep) == before + sep + parts[k] + sep + after;
  }

  /** Each directive of the list sits in the policy, between `; ` separators. */
  lemma CspContainsDirective(k: nat)
    requires 1 <= k < |CspDirectives| - 1
    ensures exists before, after ::
      ContentSecurityPolicy == before + "; " + CspDirectives[k] + "; " + after
  {
    JoinWithContains(CspDirectives, "; ", k);
  }

  // ---- The default headers ----

  const DefaultHeaders: seq<(string, string)> := [
    ("Content-Security-Policy", ContentSecurityPolicy),
    ("Referrer-Policy", "no-referrer"),
    ("Permissions-Policy", "camera=(), microphone=(), geolocation=()"),
    ("X-Frame-Options", "DENY"),
    ("X-Content-Type-Options", "nosniff"),
    ("Cross-Origin-Opener-Policy", "same-origin"),
    ("Cross-Origin-Resource-Policy", "same-origin"),
    ("X-DNS-Prefetch-Control", "off")
  ]

  const HstsName := "Strict-Transport-Security"
  const HstsValue := "max-age=31536000; includeSubDomains"

  /** The set-if-absent merge of `defaults`, in order, into the headers `entries`. */
  function Merged(entries: map<string, string>, defaults: seq<(string, string)>): map<string, string>
  {
    if defaults == [] then entries
    else
      var m := Merged(entries, defaults[..|defaults| - 1]);
      var (name, value) := defaults[|defaults| - 1];
      if ToLowerAscii(name) in m then m else m[ToLowerAscii(name) := value]
  }

  /** What applySecurityHeaders leaves on the response, for a list of defaults and a
      header `forced` that is set over whatever was there when secure cookies are on. */
  function Applied(entries: map<string, string>, defaults: seq<(string, string)>,
                   forced: (string, string), secureCookies: bool): map<string, string>
  {
    var m := Merged(entries, defaults);
    if secureCookies then m[ToLowerAscii(forced.0) := forced.1] else m
  }

  /** The lower-cased names of a list of headers. */
  function NameKeys(defaults: seq<(string, string)>): set<string>
  {
    if defaults == [] then {}
    else NameKeys(defaults[..|defaults| - 1]) + {ToLowerAscii(defaults[|defaults| - 1].0)}
  }

  lemma {:induction false} NameKeysMembers(defaults: seq<(string, string)>, k: string)
    ensures k in NameKeys(defaults) <==> exists i :: 0 <= i < |defaults| && k == ToLowerAscii(defaults[i].0)
  {
    if defaults != [] {
      var init := defaults[..|defaults| - 1];
      NameKeysMembers(init, k);
      if k in NameKeys(init) {
        var i :| 0 <= i < |init| && k == ToLowerAscii(init[i].0);
        assert defaults[i] == init[i];
      }
      if exists i :: 0 <= i < |defaults| && k == ToLowerAscii(defaults[i].0) {
        var i :| 0 <= i < |defaults| && k == ToLowerAscii(defaults[i].0);
        if i < |init| {
          assert defaults[i] == init[i];
        }
      }
    }
  }

  /** Header names that stay apart once lower-cased. */
  predicate DistinctNames(defaults: seq<(string, string)>)
  {
    forall i, j :: 0 <= i < j < |defaults| ==> ToLowerAscii(defaults[i].0) != ToLowerAscii(defaults[j].0)
  }

  /** A name none of the headers has once lower-cased. */
  predicate NotAmong(defaults: seq<(string, string)>, name: string)
  {
    forall i :: 0 <= i < |defaults| ==> ToLowerAscii(name) != ToLowerAscii(defaults[i].0)
  }

  /** A header already present keeps its value. */
  lemma {:induction false} MergedKeepsPresent(entries: map<string, string>, defaults: seq<(string, string)>, k: string)
    requires k in entries
    ensures k in Merged(entries, defaults) && Merged(entries, defaults)[k] == entries[k]
  {
    if defaults != [] {
      MergedKeepsPresent(entries, defaults[..|defaults| - 1], k);
    }
  }

  /** The names present afterwards are those present before and the defaults' names. */
  lemma {:induction false} MergedKeys(entries: map<string, string>, defaults: seq<(string, string)>)
    ensures Merged(entries, defaults).Keys == entries.Keys + NameKeys(defaults)
  {
    if defaults != [] {
      MergedKeys(entries, defaults[..|defaults| - 1]);
    }
  }

  /** A name absent before takes the value of the default of that name. */
  lemma {:induction false} MergedDefaultValue(entries: map<string, string>, defaults: seq<(string, string)>, i: nat)
    requires DistinctNames(defaults)
    requires i < |defaults| && ToLowerAscii(defaults[i].0) !in entries
    ensures ToLowerAscii(defaults[i].0) in Merged(entries, defaults)
    ensures Merged(entries, defaults)[ToLowerAscii(defaults[i].0)] == defaults[i].1
  {
    var k := ToLowerAscii(defaults[i].0);
    MergedKeys(entries, defaults);
    NameKeysMembers(defaults, k);
    var init := defaults[..|defaults| - 1];
    MergedKeys(entries, init);
    NameKeysMembers(init, k);
    if i < |init| {
      assert init[i] == defaults[i];
      assert DistinctNames(init) by {
        forall a, b | 0 <= a < b < |init| ensures ToLowerAscii(init[a].0) != ToLowerAscii(init[b].0) {
          assert init[a] == defaults[a] && init[b] == defaults[b];
        }
      }
      MergedDefaultValue(entries, init, i);
    } else {
      forall j | 0 <= j < |init| ensures k != ToLowerAscii(init[j].0) {
        assert init[j] == defaults[j];
      }
    }
  }

  /** Nothing changes when every default is already present. */
  lemma {:induction false} MergedAllPresent(entries: map<string, string>, defaults: seq<(string, string)>)
    requires NameKeys(defaults) <= entries.Keys
    ensures Merged(entries, defaults) == entries
  {
    if defaults != [] {
      MergedAllPresent(entries, defaults[..|defaults| - 1]);
    }
  }

  function LowerChar(c: char): char { if 'A' <= c <= 'Z' then (c as int + 32) as char else c }

  /** Two names of different lengths, or with a character that differs once lower-cased,
      stay different once lower-cased. */
  lemma LowerDiffers(a: string, b: string, k: nat)
    requires |a| != |b| || (k < |a| == |b| && LowerChar(a[k]) != LowerChar(b[k]))
    ensures ToLowerAscii(a) != ToLowerAscii(b)
  {
    if |a| == |b| {
      assert ToLowerAscii(a)[k] != ToLowerAscii(b)[k];
    }
  }

  /** The default names are different once lower-cased, and none of them is HSTS: only
      Referrer-Policy and X-Frame-Options, and X-Content-Type-Options and
      X-DNS-Prefetch-Control, have the same length, and they differ in their first and
      their third character. */
  lemma DefaultNamesDistinct()
    ensures DistinctNames(DefaultHeaders)
  {
    var d := DefaultHeaders;
    forall i, j | 0 <= i < j < |d| ensures ToLowerAscii(d[i].0) != ToLowerAscii(d[j].0) {
      assert i == 0 || i == 1 || i == 2 || i == 3 || i == 4 || i == 5 || i == 6;
      assert j == 1 || j == 2 || j == 3 || j == 4 || j == 5 || j == 6 || j == 7;
      LowerDiffers(d[i].0, d[j].0, if i == 4 && j == 7 then 2 else 0);
    }
  }

  /** A name whose length no header name has is none of them. */
  lemma OtherLengthNotAmong(defaults: seq<(string, string)>, name: string)
    requires forall i :: 0 <= i < |defaults| ==> |defaults[i].0| != |name|
    ensures NotAmong(defaults, name)
  {
    forall i | 0 <= i < |defaults| ensures ToLowerAscii(name) != ToLowerAscii(defaults[i].0) {
      LowerDiffers(name, defaults[i].0, 0);
    }
  }

  /** HSTS is not one of the defaults: its name is longer or shorter than each of theirs. */
  lemma HstsNotDefault()
    ensures NotAmong(DefaultHeaders, HstsName)
  {
    var d := DefaultHeaders;
    forall i | 0 <= i < |d| ensures |d[i].0| != |HstsName| {
      assert i == 0 || i == 1 || i == 2 || i == 3 || i == 4 || i == 5 || i == 6 || i == 7;
    }
    OtherLengthNotAmong(d, HstsName);
  }

  // ---- applySecurityHeaders ----

  /** A response's header list, keyed by lower-cased name. */
  class Headers {
    var entries: map<string, string>

    constructor(initial: map<string, string>)
      ensures entries == initial
    {
      entries := initial;
    }

    /** Headers.has: names are compared without regard to ASCII case. */
    predicate Has(name: string)
      reads this
    {
      ToLowerAscii(name) in entries
    }

    /** Headers.set: replaces any value stored under the name. */
    method Set(name: string, value: string)
      modifies this
      ensures entries == old(entries)[ToLowerAscii(name) := value]
    {
      entries := entries[ToLowerAscii(name) := value];
    }
  }

  class Response {
    const headers: Headers

    constructor(headers: Headers)
      ensures this.headers == headers
    {
      this.headers := headers;
    }
  }

  /** One more default in the loop: set when absent. */
  lemma MergedStep(entries: map<string, string>, defaults: seq<(string, string)>, i: nat)
    requires i < |defaults|
    ensures Merged(entries, defaults[..i + 1])
            == if ToLowerAscii(defaults[i].0) in Merged(entries, defaults[..i]) then Merged(entries, defaults[..i])
               else Merged(entries, defaults[..i])[ToLowerAscii(defaults[i].0) := defaults[i].1]
  {
    assert defaults[..i + 1][..i] == defaults[..i];
  }

  /** The loop of applySecurityHeaders: each header of the list is set only when absent. */
  method MergeDefaults(headers: Headers, defaults: seq<(string, string)>)
    modifies headers
    ensures headers.entries == Merged(old(headers.entries), defaults)
  {
    ghost var initial := headers.entries;
    assert defaults[..0] == [];
    for i := 0 to |defaults|
      invariant headers.entries == Merged(initial, defaults[..i])
    {
      var (name, value) := defaults[i];
      MergedStep(initial, defaults, i);
      if !headers.Has(name) {
        headers.Set(name, value);
      }
    }
    assert defaults[..|defaults|] == defaults;
  }

  /** applySecurityHeaders: the defaults are merged in, then HSTS is set when secure
      cookies are on; the same response comes back. */
  method ApplySecurityHeaders(response: Response, secureCookies: bool) returns (r: Response)
    modifies response.headers
    ensures r == response
    ensures response.headers.entries
            == Applied(old(response.headers.entries), DefaultHeaders, (HstsName, HstsValue), secureCookies)
  {
    MergeDefaults(response.headers, DefaultHeaders);
    if secureCookies {
      response.headers.Set(HstsName, HstsValue);
    }
    return response;
  }

  // ---- What the call promises ----

  /** A header that was present before is never overwritten by a default; only the forced
      header, when secure cookies are on, replaces an existing value. */
  lemma PresentNotOverwritten(entries: map<string, string>, defaults: seq<(string, string)>,
                              forced: (string, string), secureCookies: bool, k: string)
    requires k in entries && !(secureCookies && k == ToLowerAscii(forced.0))
    ensures k in Applied(entries, defaults, forced, secureCookies)
    ensures Applied(entries, defaults, forced, secureCookies)[k] == entries[k]
  {
    MergedKeepsPresent(entries, defaults, k);
  }

  /** Afterwards every default header is present, with its default value when it was
      absent before (unless it is the forced header). */
  lemma DefaultsPresent(entries: map<string, string>, defaults: seq<(string, string)>,
                        forced: (string, string), secureCookies: bool, i: nat)
    requires DistinctNames(defaults) && i < |defaults|
    ensures ToLowerAscii(defaults[i].0) in Applied(entries, defaults, forced, secureCookies)
    ensures ToLowerAscii(defaults[i].0) !in entries && ToLowerAscii(defaults[i].0) != ToLowerAscii(forced.0)
            ==> Applied(entries, defaults, forced, secureCookies)[ToLowerAscii(defaults[i].0)] == defaults[i].1
  {
    MergedKeys(entries, defaults);
    NameKeysMembers(defaults, ToLowerAscii(defaults[i].0));
    if ToLowerAscii(defaults[i].0) !in entries {
      MergedDefaultValue(entries, defaults, i);
    }
  }

  /** The forced header is set to its value exactly when secure cookies are on; otherwise,
      when it is not a default, it is whatever the response already had. */
  lemma ForcedOnlyWhenSecure(entries: map<string, string>, defaults: seq<(string, string)>,
                             forced: (string, string), secureCookies: bool)
    requires NotAmong(defaults, forced.0)
    ensures secureCookies ==> Applied(entries, defaults, forced, secureCookies)[ToLowerAscii(forced.0)] == forced.1
    ensures !secureCookies ==>
      (ToLowerAscii(forced.0) in Applied(entries, defaults, forced, secureCookies) <==> ToLowerAscii(forced.0) in entries)
    ensures !secureCookies && ToLowerAscii(forced.0) in entries ==>
      Applied(entries, defaults, forced, secureCookies)[ToLowerAscii(forced.0)] == entries[ToLowerAscii(forced.0)]
  {
    MergedKeys(entries, defaults);
    NameKeysMembers(defaults, ToLowerAscii(forced.0));
    if ToLowerAscii(forced.0) in entries {
      MergedKeepsPresent(entries, defaults, ToLowerAscii(forced.0));
    }
  }

  /** No header is removed, and only default names and the forced name are added. */
  lemma NothingRemoved(entries: map<string, string>, defaults: seq<(string, string)>,
                       forced: (string, string), secureCookies: bool)
    ensures entries.Keys <= Applied(entries, defaults, forced, secureCookies).Keys
    ensures Applied(entries, defaults, forced, secureCookies).Keys
            <= entries.Keys + NameKeys(defaults) + {ToLowerAscii(forced.0)}
  {
    MergedKeys(entries, defaults);
  }

  /** Applying the headers twice is the same as once. */
  lemma AppliedIdempotent(entries: map<string, string>, defaults: seq<(string, string)>,
                          forced: (string, string), secureCookies: bool)
    ensures var once := Applied(entries, defaults, forced, secureCookies);
      Applied(once, defaults, forced, secureCookies) == once
  {
    var once := Applied(entries, defaults, forced, secureCookies);
    MergedKeys(entries, defaults);
    MergedAllPresent(once, defaults);
  }

  /** For the headers this module sends: every default is present afterwards, with its
      value when the response did not have it. */
  lemma SecurityDefaultsPresent(entries: map<string, string>, secureCookies: bool, i: nat)
    requires i < |DefaultHeaders|
    ensures ToLowerAscii(DefaultHeaders[i].0) in Applied(entries, DefaultHeaders, (HstsName, HstsValue), secureCookies)
    ensures ToLowerAscii(DefaultHeaders[i].0) !in entries ==>
      Applied(entries, DefaultHeaders, (HstsName, HstsValue), secureCookies)[ToLowerAscii(DefaultHeaders[i].0)]
      == DefaultHeaders[i].1
  {
    DefaultNamesDistinct();
    HstsNotDefault();
    DefaultsPresent(entries, DefaultHeaders, (HstsName, HstsValue), secureCookies, i);
  }

  /** For the headers this module sends: HSTS is set exactly when secure cookies are on,
      and is otherwise left as the response had it. */
  lemma SecurityHsts(entries: map<string, string>, secureCookies: bool)
    ensures secureCookies ==>
      Applied(entries, DefaultHeaders, (HstsName, HstsValue), secureCookies)[ToLowerAscii(HstsName)] == HstsValue
    ensures !secureCookies ==>
      (ToLowerAscii(HstsName) in Applied(entries, DefaultHeaders, (HstsName, HstsValue), secureCookies)
       <==> ToLowerAscii(HstsName) in entries)
    ensures !secureCookies && ToLowerAscii(HstsName) in entries ==>
      Applied(entries, DefaultHeaders, (HstsName, HstsValue), secureCookies)[ToLowerAscii(HstsName)]
      == entries[ToLowerAscii(HstsName)]
  {
    HstsNotDefault();
    ForcedOnlyWhenSecure(entries, DefaultHeaders, (HstsName, HstsValue), secureCookies);
  }
}
