/** The REST paths: the builders, the parsers of the shared crate, and the server's access check on segments. */
module Urls {
  import opened Prelude
  import opened Percent

  // ---- Strings -------------------------------------------------------------------------------

  function TrimStartSlash(s: string): string {
    if s != "" && s[0] == '/' then TrimStartSlash(s[1..]) else s
  }

  function TrimEndSlash(s: string): string {
    if s != "" && s[|s| - 1] == '/' then TrimEndSlash(s[..|s| - 1]) else s
  }

  /** The first segment and, when there is a slash, what follows it. */
  function Cut(s: string): (string, Option<string>) {
    if s == "" then ("", None)
    else if s[0] == '/' then ("", Some(s[1..]))
    else
      var (first, rest) := Cut(s[1..]);
      ([s[0]] + first, rest)
  }

  lemma {:induction false} CutShrinks(s: string)
    ensures Cut(s).1.Some? ==> s == Cut(s).0 + "/" + Cut(s).1.value
    ensures Cut(s).1.None? ==> s == Cut(s).0
    ensures '/' !in Cut(s).0
  {
    if s != "" && s[0] != '/' {
      CutShrinks(s[1..]);
      assert s == [s[0]] + s[1..];
    }
  }

  function Split(s: string): (r: seq<string>)
    ensures r != []
    decreases |s|
  {
    CutShrinks(s);
    match Cut(s)
    case (first, None) => [first]
    case (first, Some(rest)) => [first] + Split(rest)
  }

  /** Each segment with a slash before it. */
  function Slashed(segments: seq<string>): string {
    if segments == [] then "" else "/" + segments[0] + Slashed(segments[1..])
  }

  function NonEmpty(segments: seq<string>): seq<string> {
    if segments == [] then []
    else (if segments[0] == "" then [] else [segments[0]]) + NonEmpty(segments[1..])
  }

  predicate AreSegments(segments: seq<string>) {
    forall i | 0 <= i < |segments| :: '/' !in segments[i]
  }

  lemma {:induction false} CutJoined(first: string, rest: string)
    requires '/' !in first
    ensures Cut(first + "/" + rest) == (first, Some(rest))
    ensures Cut(first) == (first, None)
  {
    var s := first + "/" + rest;
    if first == "" {
      assert s[1..] == rest;
    } else {
      CutJoined(first[1..], rest);
      assert s[1..] == first[1..] + "/" + rest;
      assert first == [first[0]] + first[1..];
    }
  }

  lemma {:induction false} SplitAppend(s: string, rest: string)
    ensures Split(s + "/" + rest) == Split(s) + Split(rest)
    decreases |s|
  {
    CutShrinks(s);
    match Cut(s)
    case (first, None) =>
      CutJoined(s, rest);
    case (first, Some(tail)) =>
      CutJoined(first, tail + "/" + rest);
      assert s + "/" + rest == first + "/" + (tail + "/" + rest);
      SplitAppend(tail, rest);
      assert [first] + (Split(tail) + Split(rest)) == Split(s) + Split(rest);
  }

  lemma SplitOne(s: string, first: string)
    requires '/' !in first
    ensures Split(s + "/" + first) == Split(s) + [first]
  {
    CutJoined(first, "");
    SplitAppend(s, first);
  }

  /** Splitting recovers appended segments. */
  lemma {:induction false} SplitSlashed(s: string, segments: seq<string>)
    requires AreSegments(segments)
    ensures Split(s + Slashed(segments)) == Split(s) + segments
    decreases |segments|
  {
    if segments == [] {
      assert s + "" == s && Split(s) + [] == Split(s);
    } else {
      var first, rest := segments[0], segments[1..];
      SplitOne(s, first);
      SplitSlashed(s + "/" + first, rest);
      Associative(s, "/" + first, Slashed(rest));
      Associative(s, "/", first);
      Associative(Split(s), [first], rest);
      assert segments == [first] + rest;
    }
  }

  // ---- Building ------------------------------------------------------------------------------

  const FAMILY_SCOPE_PREFIX := "/api/v1/family"

  function TenantScope(tenant: string): string { FAMILY_SCOPE_PREFIX + "/" + tenant }

  function BaseJoin(base: string, path: string): string {
    TrimEndSlash(base) + "/" + TrimStartSlash(path)
  }

  /** The endpoints below a tenant. */
  datatype Endpoint =
    | Children
    | Tasks
    | TenantConfig
    | ChildRemaining(child: string)
    | ChildTasks(child: string)
    | ChildReward(child: string)
    | ChildUsage(child: string)
    | ChildRegister(child: string)
    | ChildDeviceHeartbeat(child: string, device: string)
    | ChildPushSubscribe(child: string)
    | ChildPushUnsubscribe(child: string)

  /** The segments of a built path below the tenant. */
  function Segments(e: Endpoint): seq<string> {
    match e
    case Children => ["children"]
    case Tasks => ["tasks"]
    case TenantConfig => ["config"]
    case ChildRemaining(c) => ["children", Enc(c), "remaining"]
    case ChildTasks(c) => ["children", Enc(c), "tasks"]
    case ChildReward(c) => ["children", Enc(c), "reward"]
    case ChildUsage(c) => ["children", Enc(c), "usage"]
    case ChildRegister(c) => ["children", Enc(c), "register"]
    case ChildDeviceHeartbeat(c, d) => ["children", Enc(c), "device", Enc(d), "heartbeat"]
    case ChildPushSubscribe(c) => ["children", Enc(c), "push", "subscriptions"]
    case ChildPushUnsubscribe(c) => ["children", Enc(c), "push", "subscriptions", "unsubscribe"]
  }

  function Path(tenant: string, e: Endpoint): string { TenantScope(tenant) + Slashed(Segments(e)) }

  function Url(base: string, tenant: string, e: Endpoint): string { BaseJoin(base, Path(tenant, e)) }

  // ---- Parsing (path.rs) ---------------------------------------------------------------------

  function StripPrefix(path: string, prefix: string): Option<string> {
    if prefix <= path then Some(path[|prefix|..]) else None
  }

  function ChildIdFromPath(path: string, tenant: string): Option<string> {
    match StripPrefix(path, TenantScope(tenant) + "/children/")
    case None => None
    case Some(rest) =>
      var segment := Split(rest)[0];
      if segment == "" then None else Some(Decode(segment))
  }

  function ChildAndDeviceFromPath(path: string, tenant: string): Option<(string, string)> {
    match StripPrefix(path, TenantScope(tenant) + "/children/")
    case None => None
    case Some(rest) =>
      var it := Split(rest);
      if it[0] == "" then None
      else if |it| < 2 || it[1] != "device" then None
      else if |it| < 3 || it[2] == "" then None
      else Some((Decode(it[0]), Decode(it[2])))
  }

  // ---- The access check (acl.rs) -------------------------------------------------------------

  datatype Verb = Get | Post | OtherVerb

  datatype Claims = Claims(childId: Option<string>, deviceId: Option<string>)

  function Segmented(path: string): seq<string> { NonEmpty(Split(path)) }

  predicate EnsureChild(claims: Claims, segment: string) { claims.childId == Some(Decode(segment)) }

  predicate EnsureDevice(claims: Claims, segment: string) { claims.deviceId == Some(Decode(segment)) }

  predicate AllowChild(verb: Verb, rest: seq<string>, claims: Claims) {
    if rest == ["tasks"] && verb == Get then true
    else if |rest| == 3 && rest[0] == "children" && verb == Get
            && rest[2] in ["remaining", "usage", "tasks", "reward"] then EnsureChild(claims, rest[1])
    else if |rest| == 5 && rest[0] == "children" && rest[2] == "tasks" && rest[4] == "submit" && verb == Post then
      EnsureChild(claims, rest[1])
    else if |rest| == 3 && rest[0] == "children" && rest[2] == "register" && verb == Post then
      EnsureChild(claims, rest[1])
    else if |rest| == 5 && rest[0] == "children" && rest[2] == "device" && rest[4] == "heartbeat" && verb == Post then
      EnsureChild(claims, rest[1]) && EnsureDevice(claims, rest[3])
    else if |rest| == 4 && rest[0] == "children" && rest[2] == "push" && rest[3] == "subscriptions" && verb == Post then
      EnsureChild(claims, rest[1])
    else if |rest| == 5 && rest[0] == "children" && rest[2] == "push" && rest[3] == "subscriptions"
            && rest[4] == "unsubscribe" && verb == Post then EnsureChild(claims, rest[1])
    else rest == ["config"] && verb == Get
  }

  function TenantPrefix(tenant: string): seq<string> { ["api", "v1", "family", tenant] }

  /** Whether a child's token is let through to this path. */
  predicate AdmitsChild(verb: Verb, path: string, tenant: string, claims: Claims) {
    var segs := Segmented(path);
    TenantPrefix(tenant) <= segs && AllowChild(verb, segs[4..], claims)
  }

  // ---- What becomes of a built path ----------------------------------------------------------

  lemma SegmentsAreSegments(e: Endpoint)
    ensures AreSegments(Segments(e))
  {
    if e.ChildDeviceHeartbeat? {
      EncIsASegment(e.device);
    }
    if !e.Children? && !e.Tasks? && !e.TenantConfig? {
      EncIsASegment(e.child);
    }
  }

  lemma SplitFour(a: string, b: string, c: string, d: string)
    requires '/' !in a && '/' !in b && '/' !in c && '/' !in d
    ensures Split(a + "/" + b + "/" + c + "/" + d) == [a, b, c, d]
  {
    CutJoined(a, "");
    CutJoined(b, "");
    CutJoined(c, "");
    CutJoined(d, "");
    SplitAppend(a, b);
    SplitAppend(a + "/" + b, c);
    SplitAppend(a + "/" + b + "/" + c, d);
  }

  lemma PrefixPieces()
    ensures "" + "/" + "api" + "/" + "v1" + "/" + "family" == FAMILY_SCOPE_PREFIX
  {
  }

  lemma SplitPrefix()
    ensures Split(FAMILY_SCOPE_PREFIX) == ["", "api", "v1", "family"]
  {
    SplitFour("", "api", "v1", "family");
    PrefixPieces();
  }

  lemma SplitScope(tenant: string)
    ensures Split(TenantScope(tenant)) == ["", "api", "v1", "family"] + Split(tenant)
  {
    SplitPrefix();
    SplitAppend(FAMILY_SCOPE_PREFIX, tenant);
  }

  lemma SplitPath(tenant: string, e: Endpoint)
    ensures Split(Path(tenant, e)) == ["", "api", "v1", "family"] + Split(tenant) + Segments(e)
  {
    SplitScope(tenant);
    SegmentsAreSegments(e);
    SplitSlashed(TenantScope(tenant), Segments(e));
  }

  /** A built URL is the base without its trailing slashes followed by the endpoint's path. */
  lemma UrlIsBaseAndPath(base: string, tenant: string, e: Endpoint)
    ensures Url(base, tenant, e) == TrimEndSlash(base) + Path(tenant, e)
  {
    var path := Path(tenant, e);
    assert path[0] == '/' && path[1] == 'a';
    assert TrimStartSlash(path) == path[1..];
    assert path == "/" + path[1..];
    assert TrimEndSlash(base) + "/" + path[1..] == TrimEndSlash(base) + ("/" + path[1..]);
  }

  function Slashes(n: nat): string { if n == 0 then "" else Slashes(n - 1) + "/" }

  lemma {:induction false} TrimsEndSlashes(s: string, slashes: nat)
    requires s == "" || s[|s| - 1] != '/'
    ensures TrimEndSlash(s + Slashes(slashes)) == s
  {
    if slashes == 0 {
      assert s + "" == s;
    } else {
      Associative(s, Slashes(slashes - 1), "/");
      assert (s + Slashes(slashes))[..|s + Slashes(slashes)| - 1] == s + Slashes(slashes - 1);
      TrimsEndSlashes(s, slashes - 1);
    }
  }

  /** However many slashes end the base, one separates it from the path. */
  lemma SlashesDoNotMatter(base: string, slashes: nat, tenant: string, e: Endpoint)
    requires base == "" || base[|base| - 1] != '/'
    ensures Url(base + Slashes(slashes), tenant, e) == base + Path(tenant, e)
  {
    TrimsEndSlashes(base, slashes);
    UrlIsBaseAndPath(base + Slashes(slashes), tenant, e);
  }

  lemma EncInjective(a: string, b: string)
    requires Enc(a) == Enc(b)
    ensures a == b
  {
    DecodeEnc(a);
    DecodeEnc(b);
  }

  lemma SegmentsInjective(e: Endpoint, f: Endpoint)
    requires Segments(e) == Segments(f)
    ensures e == f
  {
    if |Segments(e)| > 1 {
      assert Segments(e)[1] == Segments(f)[1] && Segments(e)[2] == Segments(f)[2];
      EncInjective(e.child, f.child);
      if e.ChildDeviceHeartbeat? && f.ChildDeviceHeartbeat? {
        assert Segments(e)[3] == Segments(f)[3];
        EncInjective(e.device, f.device);
      }
    } else {
      assert Segments(e)[0] == Segments(f)[0];
    }
  }

  /** Within a tenant, different endpoints, children or devices have different URLs. */
  lemma DistinctUrls(base: string, tenant: string, e: Endpoint, f: Endpoint)
    requires Url(base, tenant, e) == Url(base, tenant, f)
    ensures e == f
  {
    UrlIsBaseAndPath(base, tenant, e);
    UrlIsBaseAndPath(base, tenant, f);
    var b := TrimEndSlash(base);
    assert Path(tenant, e) == Url(base, tenant, e)[|b|..];
    assert Path(tenant, f) == Url(base, tenant, f)[|b|..];
    SplitPath(tenant, e);
    SplitPath(tenant, f);
    var n := 4 + |Split(tenant)|;
    assert Segments(e) == Split(Path(tenant, e))[n..];
    assert Segments(f) == Split(Path(tenant, f))[n..];
    SegmentsInjective(e, f);
  }

  // ---- The parsers of the shared crate on built paths -------------------------------------------

  function ChildOf(e: Endpoint): Option<string> {
    if e.Children? || e.Tasks? || e.TenantConfig? then None else Some(e.child)
  }

  lemma ChildrenPieces()
    ensures "/" + "children" + "/" == "/children/"
  {
  }

  lemma Stripped(prefix: string, rest: string)
    ensures StripPrefix(prefix + rest, prefix) == Some(rest)
  {
    assert (prefix + rest)[|prefix|..] == rest;
  }

  lemma SlashedTwo(segments: seq<string>)
    requires |segments| >= 2
    ensures Slashed(segments) == "/" + segments[0] + "/" + (segments[1] + Slashed(segments[2..]))
  {
    var first, second, more := segments[0], segments[1], Slashed(segments[2..]);
    assert segments[1..][1..] == segments[2..];
    Associative("/", second, more);
    Associative("/" + first, "/", second + more);
  }

  lemma StripChild(tenant: string, segments: seq<string>)
    requires |segments| >= 2 && segments[0] == "children" && AreSegments(segments)
    ensures
      var rest := StripPrefix(TenantScope(tenant) + Slashed(segments), TenantScope(tenant) + "/children/");
      rest.Some? && Split(rest.value) == segments[1..]
  {
    var scope, rest := TenantScope(tenant), segments[1] + Slashed(segments[2..]);
    SlashedTwo(segments);
    ChildrenPieces();
    Associative(scope, "/children/", rest);
    Stripped(scope + "/children/", rest);
    CutJoined(segments[1], "");
    SplitSlashed(segments[1], segments[2..]);
    assert segments[1..] == [segments[1]] + segments[2..];
  }

  /** A path of one short segment below the scope is shorter than the prefix. */
  lemma StripOther(scope: string, word: string)
    requires |word| <= 8
    ensures StripPrefix(scope + Slashed([word]), scope + "/children/").None?
  {
    ChildrenPieces();
    assert Slashed([word]) == "/" + word;
    assert |scope + Slashed([word])| < |scope + "/children/"|;
  }

  /** Parsing a built path gives back exactly its child, and its device for the heartbeat endpoint. */
  lemma BuiltPathsParse(base: string, tenant: string, e: Endpoint)
    ensures Url(base, tenant, e) == TrimEndSlash(base) + Path(tenant, e)
    ensures ChildIdFromPath(Path(tenant, e), tenant)
            == if ChildOf(e).Some? && ChildOf(e).value != "" then ChildOf(e) else None
    ensures ChildAndDeviceFromPath(Path(tenant, e), tenant)
            == if e.ChildDeviceHeartbeat? && e.child != "" && e.device != "" then Some((e.child, e.device)) else None
  {
    UrlIsBaseAndPath(base, tenant, e);
    SegmentsAreSegments(e);
    if ChildOf(e).None? {
      StripOther(TenantScope(tenant), Segments(e)[0]);
    } else {
      StripChild(tenant, Segments(e));
      EncIsASegment(e.child);
      DecodeEnc(e.child);
      assert Segments(e)[1..][0] == Enc(e.child) && Segments(e)[1..][1] == Segments(e)[2];
      if e.ChildDeviceHeartbeat? {
        EncIsASegment(e.device);
        DecodeEnc(e.device);
        assert Segments(e)[1..][2] == Enc(e.device);
      }
    }
  }

  // ---- The access check on built paths -----------------------------------------------------------

  /** What a child's token may call: its own child's endpoints, from its own device where one is named. */
  predicate MayCall(claims: Claims, verb: Verb, e: Endpoint) {
    match e
    case Children => false
    case Tasks => verb == Get
    case TenantConfig => verb == Get
    case ChildRemaining(c) => verb == Get && c != "" && claims.childId == Some(c)
    case ChildTasks(c) => verb == Get && c != "" && claims.childId == Some(c)
    case ChildReward(c) => verb == Get && c != "" && claims.childId == Some(c)
    case ChildUsage(c) => verb == Get && c != "" && claims.childId == Some(c)
    case ChildRegister(c) => verb == Post && c != "" && claims.childId == Some(c)
    case ChildDeviceHeartbeat(c, d) =>
      verb == Post && c != "" && d != "" && claims.childId == Some(c) && claims.deviceId == Some(d)
    case ChildPushSubscribe(c) => verb == Post && c != "" && claims.childId == Some(c)
    case ChildPushUnsubscribe(c) => verb == Post && c != "" && claims.childId == Some(c)
  }

  lemma {:induction false} NonEmptyAppend(a: seq<string>, b: seq<string>)
    ensures NonEmpty(a + b) == NonEmpty(a) + NonEmpty(b)
  {
    if a == [] {
      assert a + b == b;
    } else {
      var head := if a[0] == "" then [] else [a[0]];
      NonEmptyAppend(a[1..], b);
      assert (a + b)[1..] == a[1..] + b && (a + b)[0] == a[0];
      assert NonEmpty(a + b) == head + (NonEmpty(a[1..]) + NonEmpty(b));
      assert NonEmpty(a) == head + NonEmpty(a[1..]);
    }
  }

  lemma {:induction false} NonEmptyAreSegments(a: seq<string>)
    requires AreSegments(a)
    ensures AreSegments(NonEmpty(a)) && forall i | 0 <= i < |NonEmpty(a)| :: NonEmpty(a)[i] != ""
  {
    if a != [] {
      NonEmptyAreSegments(a[1..]);
    }
  }

  lemma {:induction false} NonEmptyAll(a: seq<string>)
    requires forall i | 0 <= i < |a| :: a[i] != ""
    ensures NonEmpty(a) == a
  {
    if a != [] {
      NonEmptyAll(a[1..]);
    }
  }

  lemma NonEmptyCons(first: string, rest: seq<string>)
    ensures NonEmpty([first] + rest) == (if first == "" then [] else [first]) + NonEmpty(rest)
  {
    assert ([first] + rest)[1..] == rest;
  }

  lemma NonEmptyStep(it: seq<string>)
    requires it != [] && it[0] != ""
    ensures NonEmpty(it) == [it[0]] + NonEmpty(it[1..])
  {
  }

  lemma NonEmptyHead(it: seq<string>)
    requires |it| >= 3 && it[0] != "" && it[1] != "" && it[2] != ""
    ensures NonEmpty(it) == [it[0], it[1], it[2]] + NonEmpty(it[3..])
  {
    var more := NonEmpty(it[3..]);
    NonEmptyStep(it);
    NonEmptyStep(it[1..]);
    NonEmptyStep(it[2..]);
    assert it[1..][1..] == it[2..] && it[2..][1..] == it[3..];
    assert [it[0]] + ([it[1]] + ([it[2]] + more)) == [it[0], it[1], it[2]] + more;
  }

  lemma NonEmptyScope(a: string, b: string, c: string)
    requires a != "" && b != "" && c != ""
    ensures NonEmpty(["", a, b, c]) == [a, b, c]
  {
    assert ["", a, b, c][1..] == [a, b, c];
    NonEmptyHead([a, b, c]);
    assert [a, b, c][3..] == [] && [a, b, c] + [] == [a, b, c];
  }

  /** The segments of any path that splits into a scope, a tenant and the rest. */
  lemma NonEmptyParts(scope: seq<string>, tenant: seq<string>, tail: seq<string>)
    ensures NonEmpty(scope + tenant + tail) == NonEmpty(scope) + NonEmpty(tenant) + NonEmpty(tail)
  {
    NonEmptyAppend(scope + tenant, tail);
    NonEmptyAppend(scope, tenant);
  }

  lemma SegmentedScope(tenant: string, tail: seq<string>, path: string)
    requires Split(path) == ["", "api", "v1", "family"] + Split(tenant) + tail
    ensures Segmented(path) == ["api", "v1", "family"] + NonEmpty(Split(tenant)) + NonEmpty(tail)
  {
    NonEmptyScope("api", "v1", "family");
    NonEmptyParts(["", "api", "v1", "family"], Split(tenant), tail);
  }

  lemma {:induction false} SplitIntoSegments(s: string)
    ensures AreSegments(Split(s))
    decreases |s|
  {
    CutShrinks(s);
    if Cut(s).1.Some? {
      SplitIntoSegments(Cut(s).1.value);
    }
  }

  lemma OneSegment(tenant: string)
    requires '/' !in tenant && tenant != ""
    ensures NonEmpty(Split(tenant)) == [tenant]
  {
    CutJoined(tenant, "");
    NonEmptyCons(tenant, []);
    assert [tenant] + [] == [tenant];
  }

  /** A path can only match the prefix of a tenant that is one non-empty segment. */
  lemma MatchedTenant(tenant: string, path: string)
    requires TenantPrefix(tenant) <= Segmented(path)
    ensures '/' !in tenant && tenant != ""
  {
    SplitIntoSegments(path);
    NonEmptyAreSegments(Split(path));
    assert Segmented(path)[3] == TenantPrefix(tenant)[3] == tenant;
  }

  lemma ScopeMatches(tenant: string, tail: seq<string>, path: string)
    requires Split(path) == ["", "api", "v1", "family"] + Split(tenant) + tail
    requires '/' !in tenant && tenant != ""
    ensures TenantPrefix(tenant) <= Segmented(path) && Segmented(path)[4..] == NonEmpty(tail)
  {
    SegmentedScope(tenant, tail, path);
    OneSegment(tenant);
    assert Segmented(path) == TenantPrefix(tenant) + NonEmpty(tail);
  }

  lemma KeptSegments(e: Endpoint)
    ensures
      var complete := (ChildOf(e).Some? ==> e.child != "") && (e.ChildDeviceHeartbeat? ==> e.device != "");
      complete ==> NonEmpty(Segments(e)) == Segments(e)
  {
    if ChildOf(e).Some? {
      EncIsASegment(e.child);
      if e.ChildDeviceHeartbeat? {
        EncIsASegment(e.device);
      }
    }
    if (ChildOf(e).Some? ==> e.child != "") && (e.ChildDeviceHeartbeat? ==> e.device != "") {
      NonEmptyAll(Segments(e));
    }
  }

  lemma AllowsHeartbeat(verb: Verb, c: string, d: string, claims: Claims)
    requires c != "" && d != ""
    ensures AllowChild(verb, Segments(ChildDeviceHeartbeat(c, d)), claims)
            <==> verb == Post && claims.childId == Some(c) && claims.deviceId == Some(d)
  {
    DecodeEnc(c);
    DecodeEnc(d);
  }

  lemma AllowsChild(verb: Verb, e: Endpoint, claims: Claims)
    requires ChildOf(e).Some? && e.child != "" && !e.ChildDeviceHeartbeat?
    ensures AllowChild(verb, Segments(e), claims) <==> MayCall(claims, verb, e)
  {
    DecodeEnc(e.child);
    assert Segments(e)[1] == Enc(e.child);
  }

  lemma AllowsComplete(verb: Verb, e: Endpoint, claims: Claims)
    requires (ChildOf(e).Some? ==> e.child != "") && (e.ChildDeviceHeartbeat? ==> e.device != "")
    ensures AllowChild(verb, Segments(e), claims) <==> MayCall(claims, verb, e)
  {
    if e.ChildDeviceHeartbeat? {
      AllowsHeartbeat(verb, e.child, e.device, claims);
    } else if ChildOf(e).Some? {
      AllowsChild(verb, e, claims);
    }
  }

  /** No rule is this long with this ending. */
  lemma RefusedByEnding(verb: Verb, rest: seq<string>, claims: Claims)
    requires |rest| == 2
             || (|rest| == 3 && rest[2] in ["subscriptions", "heartbeat"])
             || (|rest| == 4 && rest[3] in ["unsubscribe", "heartbeat"])
    ensures !AllowChild(verb, rest, claims)
  {
  }

  lemma NonEmptyAfter(word: string, s: seq<string>)
    requires word != "" && |s| >= 2 && s[0] == word
    ensures NonEmpty(s) == (if s[1] == "" then [word] else [word, s[1]]) + NonEmpty(s[2..])
  {
    var rest := NonEmpty(s[2..]);
    NonEmptyStep(s);
    assert s[1..][1..] == s[2..] && s[1..][0] == s[1];
    if s[1] == "" {
      assert NonEmpty(s[1..]) == rest;
    } else {
      NonEmptyStep(s[1..]);
      assert [word] + ([s[1]] + rest) == [word, s[1]] + rest;
    }
  }

  lemma KeptAfterChildren(e: Endpoint)
    requires ChildOf(e).Some?
    ensures
      var c, rest := Enc(e.child), NonEmpty(Segments(e)[2..]);
      NonEmpty(Segments(e)) == (if e.child == "" then ["children"] else ["children", c]) + rest
  {
    EncIsASegment(e.child);
    NonEmptyAfter("children", Segments(e));
  }

  lemma RefusesIncompleteHeartbeat(verb: Verb, e: Endpoint, claims: Claims)
    requires e.ChildDeviceHeartbeat? && (e.child == "" || e.device == "")
    ensures !AllowChild(verb, NonEmpty(Segments(e)), claims)
  {
    KeptAfterChildren(e);
    EncIsASegment(e.device);
    NonEmptyTail(Enc(e.device));
    assert Segments(e)[2..] == ["device", Enc(e.device), "heartbeat"];
    var rest := NonEmpty(Segments(e));
    assert 3 <= |rest| <= 4 && rest[|rest| - 1] == "heartbeat";
    RefusedByEnding(verb, rest, claims);
  }

  lemma NonEmptyTail(d: string)
    ensures NonEmpty(["device", d, "heartbeat"])
            == if d == "" then ["device", "heartbeat"] else ["device", d, "heartbeat"]
  {
    var s := ["device", d, "heartbeat"];
    NonEmptyAfter("device", s);
    assert s[2..] == ["heartbeat"];
    NonEmptyAll(["heartbeat"]);
  }

  lemma LiteralsRemain(e: Endpoint)
    requires ChildOf(e) == Some("") && !e.ChildDeviceHeartbeat?
    ensures NonEmpty(Segments(e)) == ["children"] + Segments(e)[2..]
  {
    KeptAfterChildren(e);
    NonEmptyAll(Segments(e)[2..]);
  }

  lemma RefusesNoChild(verb: Verb, e: Endpoint, claims: Claims)
    requires ChildOf(e) == Some("") && !e.ChildDeviceHeartbeat?
    ensures !AllowChild(verb, NonEmpty(Segments(e)), claims)
  {
    LiteralsRemain(e);
    var segments, rest := Segments(e), NonEmpty(Segments(e));
    assert |rest| == |segments| - 1 && rest[|rest| - 1] == segments[|rest|];
    RefusedByEnding(verb, rest, claims);
  }

  /** An empty child or device is dropped as a segment, and no rule matches what is left. */
  lemma RefusesIncomplete(verb: Verb, e: Endpoint, claims: Claims)
    requires ChildOf(e).Some?
    requires e.child == "" || (e.ChildDeviceHeartbeat? && e.device == "")
    ensures !AllowChild(verb, NonEmpty(Segments(e)), claims)
  {
    if e.ChildDeviceHeartbeat? {
      RefusesIncompleteHeartbeat(verb, e, claims);
    } else {
      RefusesNoChild(verb, e, claims);
    }
  }

  /** The access check lets a child's token through to a built path if and only if the tenant is one
    * segment and the token is that child's, and that device's for a heartbeat. */
  lemma AdmitsBuiltPaths(verb: Verb, tenant: string, e: Endpoint, claims: Claims)
    ensures AdmitsChild(verb, Path(tenant, e), tenant, claims)
            <==> '/' !in tenant && tenant != "" && MayCall(claims, verb, e)
  {
    var path := Path(tenant, e);
    if '/' !in tenant && tenant != "" {
      SplitPath(tenant, e);
      ScopeMatches(tenant, Segments(e), path);
      if ChildOf(e).Some? && (e.child == "" || (e.ChildDeviceHeartbeat? && e.device == "")) {
        RefusesIncomplete(verb, e, claims);
      } else {
        KeptSegments(e);
        AllowsComplete(verb, e, claims);
      }
    } else if TenantPrefix(tenant) <= Segmented(path) {
      MatchedTenant(tenant, path);
    }
  }

  // ---- The two parsers agree ---------------------------------------------------------------------

  lemma SplitBelow(scope: string, word: string, rest: string)
    requires '/' !in word
    ensures Split(scope + ("/" + word + "/") + rest) == Split(scope) + ([word] + Split(rest))
  {
    CutJoined(word, "");
    SplitAppend(word, rest);
    SplitAppend(scope, word + "/" + rest);
    Associative(scope, "/" + word + "/", rest);
    Associative("/", word, "/");
    Associative("/", word + "/", rest);
    Associative(scope, "/", word + "/" + rest);
    Associative(Split(scope), [word], Split(rest));
  }

  lemma SplitBelowChildren(tenant: string, rest: string)
    ensures Split(TenantScope(tenant) + "/children/" + rest)
            == ["", "api", "v1", "family"] + Split(tenant) + (["children"] + Split(rest))
  {
    SplitScope(tenant);
    ChildrenPieces();
    SplitBelow(TenantScope(tenant), "children", rest);
  }

  lemma ParsedSegments(path: string, tenant: string)
    requires ChildAndDeviceFromPath(path, tenant).Some? && TenantPrefix(tenant) <= Segmented(path)
    ensures
      var it := Split(path[|TenantScope(tenant) + "/children/"|..]);
      && |it| >= 3 && it[1] == "device"
      && Segmented(path)[4..] == ["children"] + ([it[0], it[1], it[2]] + NonEmpty(it[3..]))
  {
    MatchedTenant(tenant, path);
    var prefix := TenantScope(tenant) + "/children/";
    var rest := path[|prefix|..];
    assert path == prefix + rest;
    SplitBelowChildren(tenant, rest);
    ScopeMatches(tenant, ["children"] + Split(rest), path);
    NonEmptyCons("children", Split(rest));
    NonEmptyHead(Split(rest));
  }

  lemma OnlyHeartbeatNamesADevice(verb: Verb, rest: seq<string>, claims: Claims)
    requires |rest| >= 4 && rest[2] == "device" && AllowChild(verb, rest, claims)
    ensures verb == Post && EnsureChild(claims, rest[1]) && EnsureDevice(claims, rest[3])
  {
  }

  /** Whatever the path, if the access check admits it and the shared parser finds a child and a device in
    * it, they are the ones the token names. */
  lemma ParsersAgree(verb: Verb, path: string, tenant: string, claims: Claims)
    requires AdmitsChild(verb, path, tenant, claims) && ChildAndDeviceFromPath(path, tenant).Some?
    ensures
      var (child, device) := ChildAndDeviceFromPath(path, tenant).value;
      verb == Post && claims == Claims(Some(child), Some(device))
  {
    ParsedSegments(path, tenant);
    OnlyHeartbeatNamesADevice(verb, Segmented(path)[4..], claims);
  }

  // ---- The access check on any path --------------------------------------------------------------

  /** What a child's token may do with its own child's path, by what follows the child's segment. */
  predicate OwnChildMay(verb: Verb, after: seq<string>, claims: Claims) {
    || (verb == Get && after in [["remaining"], ["usage"], ["tasks"], ["reward"]])
    || (verb == Post && after in [["register"], ["push", "subscriptions"], ["push", "subscriptions", "unsubscribe"]])
    || (verb == Post && |after| == 3 && after[0] == "tasks" && after[2] == "submit")
    || (verb == Post && |after| == 3 && after[0] == "device" && after[2] == "heartbeat"
        && claims.deviceId == Some(Decode(after[1])))
  }

  lemma ShortPaths(verb: Verb, rest: seq<string>, claims: Claims)
    requires |rest| < 3
    ensures AllowChild(verb, rest, claims) <==> verb == Get && (rest == ["tasks"] || rest == ["config"])
  {
  }

  lemma OtherPaths(verb: Verb, rest: seq<string>, claims: Claims)
    requires |rest| >= 3 && rest[0] != "children"
    ensures !AllowChild(verb, rest, claims)
  {
  }

  lemma ChildPathOfThree(verb: Verb, rest: seq<string>, claims: Claims)
    requires |rest| == 3 && rest[0] == "children"
    ensures AllowChild(verb, rest, claims)
            <==> claims.childId == Some(Decode(rest[1])) && OwnChildMay(verb, [rest[2]], claims)
  {
  }

  lemma ChildPathOfFour(verb: Verb, rest: seq<string>, claims: Claims)
    requires |rest| == 4 && rest[0] == "children"
    ensures AllowChild(verb, rest, claims)
            <==> claims.childId == Some(Decode(rest[1])) && OwnChildMay(verb, [rest[2], rest[3]], claims)
  {
    assert [rest[2], rest[3]][0] == rest[2] && [rest[2], rest[3]][1] == rest[3];
  }

  lemma ChildPathOfFive(verb: Verb, rest: seq<string>, claims: Claims)
    requires |rest| == 5 && rest[0] == "children"
    ensures AllowChild(verb, rest, claims)
            <==> claims.childId == Some(Decode(rest[1])) && OwnChildMay(verb, [rest[2], rest[3], rest[4]], claims)
  {
    var after := [rest[2], rest[3], rest[4]];
    assert after[0] == rest[2] && after[1] == rest[3] && after[2] == rest[4];
  }

  /** Which segments below the tenant a child's token is let through to, whatever they are. */
  lemma AllowsExactly(verb: Verb, rest: seq<string>, claims: Claims)
    ensures AllowChild(verb, rest, claims) <==>
      || (verb == Get && (rest == ["tasks"] || rest == ["config"]))
      || (|rest| >= 3 && rest[0] == "children" && claims.childId == Some(Decode(rest[1]))
          && OwnChildMay(verb, rest[2..], claims))
  {
    if |rest| < 3 {
      ShortPaths(verb, rest, claims);
    } else if rest[0] != "children" {
      OtherPaths(verb, rest, claims);
    } else if |rest| == 3 {
      ChildPathOfThree(verb, rest, claims);
      assert rest[2..] == [rest[2]];
    } else if |rest| == 4 {
      ChildPathOfFour(verb, rest, claims);
      assert rest[2..] == [rest[2], rest[3]];
    } else if |rest| == 5 {
      ChildPathOfFive(verb, rest, claims);
      assert rest[2..] == [rest[2], rest[3], rest[4]];
    }
  }

  /** A child's token is let through to its own child's paths, and to the tenant's tasks and configuration to read;
    * to nothing else, whatever the path. */
  lemma OnlyOwnChild(verb: Verb, path: string, tenant: string, claims: Claims)
    requires AdmitsChild(verb, path, tenant, claims)
    ensures
      var rest := Segmented(path)[4..];
      if rest != [] && rest[0] == "children" then |rest| >= 3 && claims.childId == Some(Decode(rest[1]))
      else verb == Get && (rest == ["tasks"] || rest == ["config"])
  {
    AllowsExactly(verb, Segmented(path)[4..], claims);
  }

  /** The path on which a child submits a task, its two ids encoded in any way. */
  function SubmitPath(tenant: string, child: string, task: string): string {
    TenantScope(tenant) + Slashed(["children", child, "tasks", task, "submit"])
  }

  /** It is let through if and only if the tenant is one segment, it is posted, and the child's segment decodes to
    * the token's child. */
  lemma AdmitsSubmit(verb: Verb, tenant: string, child: string, task: string, claims: Claims)
    requires '/' !in child && child != "" && '/' !in task && task != ""
    ensures AdmitsChild(verb, SubmitPath(tenant, child, task), tenant, claims)
            <==> '/' !in tenant && tenant != "" && verb == Post && claims.childId == Some(Decode(child))
  {
    var tail, path := ["children", child, "tasks", task, "submit"], SubmitPath(tenant, child, task);
    if '/' !in tenant && tenant != "" {
      SplitScope(tenant);
      SplitSlashed(TenantScope(tenant), tail);
      ScopeMatches(tenant, tail, path);
      NonEmptyAll(tail);
      SubmitRule(verb, child, task, claims);
    } else if TenantPrefix(tenant) <= Segmented(path) {
      MatchedTenant(tenant, path);
    }
  }

  lemma SubmitRule(verb: Verb, child: string, task: string, claims: Claims)
    ensures AllowChild(verb, ["children", child, "tasks", task, "submit"], claims)
            <==> verb == Post && claims.childId == Some(Decode(child))
  {
  }

  // ---- What is built, literally ------------------------------------------------------------------

  lemma SlashedThree(a: string, b: string, c: string)
    ensures Slashed([a, b, c]) == "/" + a + ("/" + b + ("/" + c))
  {
    SlashedOne(c);
    SlashedCons(b, [c]);
    SlashedCons(a, [b, c]);
    assert [a] + [b, c] == [a, b, c] && [b] + [c] == [b, c];
  }

  lemma SlashedOne(a: string)
    ensures Slashed([a]) == "/" + a
  {
    assert [a][1..] == [] && "/" + a + "" == "/" + a;
  }

  lemma SlashedCons(a: string, rest: seq<string>)
    ensures Slashed([a] + rest) == "/" + a + Slashed(rest)
  {
    assert ([a] + rest)[1..] == rest;
  }

  lemma HeartbeatSegments(c: string, d: string)
    ensures Slashed(["children", c, "device", d, "heartbeat"])
            == "/" + "children" + ("/" + c + ("/" + "device" + ("/" + d + ("/" + "heartbeat"))))
  {
    var s := ["children", c, "device", d, "heartbeat"];
    assert s[1..] == [c, "device", d, "heartbeat"];
    SlashedThree("device", d, "heartbeat");
    assert s[1..][1..] == ["device", d, "heartbeat"];
  }

  lemma HeartbeatPieces()
    ensures "/" + "children" + "/" == "/children/" && "/" + "device" + "/" == "/device/"
    ensures "/" + "heartbeat" == "/heartbeat"
  {
  }

  lemma Regroup(a: string, c: string, b: string, d: string, e: string)
    ensures "/" + a + ("/" + c + ("/" + b + ("/" + d + e))) == ("/" + a + "/") + c + ("/" + b + "/") + d + e
  {
    var right := "/" + b + ("/" + d + e);
    Associative("/" + b, "/", d + e);
    Associative("/" + b + "/", d, e);
    Associative("/", d, e);
    assert right == ("/" + b + "/") + d + e;
    Associative("/" + a, "/" + c, right);
    Associative("/" + a, "/", c);
    Associative(("/" + a + "/") + c, ("/" + b + "/") + d, e);
    Associative(("/" + a + "/") + c, "/" + b + "/", d);
  }

  /** The heartbeat's path, as the source formats it. */
  lemma HeartbeatPath(tenant: string, c: string, d: string)
    ensures Path(tenant, ChildDeviceHeartbeat(c, d))
            == "/api/v1/family" + "/" + tenant + ("/children/" + Enc(c) + "/device/" + Enc(d) + "/heartbeat")
  {
    HeartbeatSegments(Enc(c), Enc(d));
    Regroup("children", Enc(c), "device", Enc(d), "/" + "heartbeat");
    HeartbeatPieces();
  }
}
