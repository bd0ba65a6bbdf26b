/** The cookie jar (crates/voleeo-cookies/src/matching.rs), after sections 5.1.3, 5.1.4, 5.3 and 5.4 of
    RFC 6265. Times are integers (seconds); header parsing has already happened. */
module Cookies {
  import opened Text
  import opened Sequences

  datatype SameSite = Strict | Lax | NoSite

  datatype StoredCookie = StoredCookie(
    id: Bytes, domain: Bytes, hostOnly: bool, path: Bytes, name: Bytes, value: Bytes, valueEncrypted: bool,
    secure: bool, httpOnly: bool, sameSite: Option<SameSite>, expires: Option<int>, createdAt: int, updatedAt: int)

  /** What matching reads from a URL; `ip`: the host is an IP literal. */
  datatype Url = Url(host: Option<Bytes>, ip: bool, path: Bytes, https: bool)

  /** A parsed `Set-Cookie` header, its name trimmed. */
  datatype SetCookie = SetCookie(
    name: Bytes, value: Bytes, domain: Option<Bytes>, path: Option<Bytes>, secure: bool, httpOnly: bool,
    sameSite: Option<SameSite>, maxAge: Option<int>, expires: Option<int>)

  // ---- domains ----

  function TrimDots(d: Bytes): Bytes {
    if d != [] && d[0] == DOT then TrimDots(d[1..]) else d
  }

  predicate DomainMatch(cookieDomain: Bytes, requestHost: Bytes, hostOnly: bool, ip: bool) {
    var cd, rh := Lower(TrimDots(cookieDomain)), Lower(requestHost);
    if cd == rh then true
    else if hostOnly then false
    else if ip then false
    else EndsWith(rh, cd) && |rh| > |cd| && rh[|rh| - |cd| - 1] == DOT
  }

  /** Section 5.1.3: identical after canonicalisation, or a dot-separated suffix of a host name. */
  lemma DomainMatchMeaning(cookieDomain: Bytes, requestHost: Bytes, hostOnly: bool, ip: bool)
    ensures var cd, rh := Lower(TrimDots(cookieDomain)), Lower(requestHost);
            DomainMatch(cookieDomain, requestHost, hostOnly, ip)
            <==> (cd == rh || (!hostOnly && !ip && EndsWith(rh, [DOT] + cd)))
  {
    EndsWithDotted(Lower(requestHost), Lower(TrimDots(cookieDomain)));
  }

  lemma EndsWithDotted(rh: Bytes, cd: Bytes)
    ensures EndsWith(rh, [DOT] + cd) <==> EndsWith(rh, cd) && |rh| > |cd| && rh[|rh| - |cd| - 1] == DOT
  {
    if |rh| > |cd| {
      var at := |rh| - |cd| - 1;
      assert rh[at..] == [rh[at]] + rh[at + 1..];
      assert ([DOT] + cd)[0] == DOT && ([DOT] + cd)[1..] == cd;
    }
  }

  // ---- paths ----

  predicate PathMatch(cookiePath: Bytes, requestPath: Bytes) {
    if cookiePath == requestPath then true
    else if !StartsWith(requestPath, cookiePath) then false
    else
      || EndsWith(cookiePath, [SLASH])
      || (|cookiePath| < |requestPath| && requestPath[|cookiePath|] == SLASH)
  }

  /** Index of the last `/` before `n`, or 0. */
  function LastSlash(path: Bytes, n: nat): (k: nat)
    requires n <= |path|
    ensures forall i :: k < i < n ==> path[i] != SLASH
    ensures k < n && k > 0 ==> path[k] == SLASH
    ensures k < n || k == 0
  {
    if n == 0 then 0 else if path[n - 1] == SLASH then n - 1 else LastSlash(path, n - 1)
  }

  function DefaultPath(uriPath: Bytes): Bytes {
    if !StartsWith(uriPath, [SLASH]) then [SLASH]
    else
      var k := LastSlash(uriPath, |uriPath|);
      if k == 0 then [SLASH] else uriPath[..k]
  }

  lemma SplitConcat(a: Bytes, b: Bytes, sep: Byte)
    ensures Split(a + [sep] + b, sep) == Split(a, sep) + Split(b, sep)
  {
    JoinConcat(Split(a, sep), Split(b, sep), sep);
    SplitJoin(Split(a, sep) + Split(b, sep), sep);
  }

  lemma {:induction false} JoinConcat(a: seq<Bytes>, b: seq<Bytes>, sep: Byte)
    requires a != [] && b != []
    ensures Join(a + b, sep) == Join(a, sep) + [sep] + Join(b, sep)
  {
    if |a| == 1 {
      assert (a + b)[1..] == b;
    } else {
      JoinConcat(a[1..], b, sep);
      assert (a + b)[1..] == a[1..] + b;
    }
  }

  predicate ProperPrefix(a: seq<Bytes>, b: seq<Bytes>) { a < b }

  /** The directory a cookie path stands for: one final slash does not count. */
  function Directory(cookiePath: Bytes): Bytes {
    if EndsWith(cookiePath, [SLASH]) then cookiePath[..|cookiePath| - 1] else cookiePath
  }

  /** What a matching path looks like: the directory, a slash, and the rest. */
  lemma MatchSplits(cookiePath: Bytes, requestPath: Bytes)
    requires PathMatch(cookiePath, requestPath) && cookiePath != requestPath
    ensures var dir := Directory(cookiePath);
            |dir| < |requestPath| && requestPath == dir + [SLASH] + requestPath[|dir| + 1..]
  {
    var dir := Directory(cookiePath);
    if EndsWith(cookiePath, [SLASH]) {
      assert cookiePath[|dir|..] == [SLASH] && requestPath[..|cookiePath|][|dir|] == SLASH;
      assert requestPath[..|dir|] == requestPath[..|cookiePath|][..|dir|];
    }
  }

  lemma SplitMatches(cookiePath: Bytes, tail: Bytes)
    ensures PathMatch(cookiePath, Directory(cookiePath) + [SLASH] + tail)
  {
    var dir := Directory(cookiePath);
    var path := dir + [SLASH] + tail;
    if EndsWith(cookiePath, [SLASH]) {
      assert cookiePath[|dir|..] == [SLASH] && cookiePath == dir + [SLASH];
      assert path[..|cookiePath|] == cookiePath;
    }
  }

  /** Section 5.1.4, in terms of path segments: the same path, or everything below the directory. */
  lemma PathMatchMeaning(cookiePath: Bytes, requestPath: Bytes)
    ensures PathMatch(cookiePath, requestPath)
       <==> cookiePath == requestPath || ProperPrefix(Split(Directory(cookiePath), SLASH), Split(requestPath, SLASH))
  {
    var dir := Directory(cookiePath);
    if PathMatch(cookiePath, requestPath) && cookiePath != requestPath {
      MatchSplits(cookiePath, requestPath);
      SplitConcat(dir, requestPath[|dir| + 1..], SLASH);
    }
    if ProperPrefix(Split(dir, SLASH), Split(requestPath, SLASH)) {
      var tail := PrefixLeaves(dir, requestPath);
      SplitMatches(cookiePath, tail);
    }
  }

  lemma PrefixLeaves(dir: Bytes, path: Bytes) returns (tail: Bytes)
    requires ProperPrefix(Split(dir, SLASH), Split(path, SLASH))
    ensures path == dir + [SLASH] + tail
  {
    var s, t := Split(dir, SLASH), Split(path, SLASH);
    assert t == s + t[|s|..];
    JoinConcat(s, t[|s|..], SLASH);
    tail := Join(t[|s|..], SLASH);
  }

  /** The default path always covers the URL it was taken from, unless the path is not absolute. */
  lemma DefaultPathCovers(uriPath: Bytes)
    ensures PathMatch(DefaultPath(uriPath), RequestPath(uriPath)) <==> uriPath == [] || StartsWith(uriPath, [SLASH])
  {
    if StartsWith(uriPath, [SLASH]) {
      assert uriPath[..1][0] == SLASH;
      assert EndsWith([SLASH], [SLASH]);
    }
  }

  /** The default path is the directory of the URL: everything before its last slash, or the root. */
  lemma DefaultPathIsDirectory(dir: Bytes, last: Bytes)
    requires SLASH !in last && (dir == [] || dir[0] == SLASH)
    ensures DefaultPath(dir + [SLASH] + last) == if dir == [] then [SLASH] else dir
  {
    var path := dir + [SLASH] + last;
    assert path[..1] == [SLASH] && path[|dir|] == SLASH && path[..|dir|] == dir;
    assert forall i :: |dir| < i < |path| ==> path[i] == last[i - |dir| - 1];
  }

  lemma RelativeDefaultPath(uriPath: Bytes)
    requires uriPath == [] || uriPath[0] != SLASH
    ensures DefaultPath(uriPath) == [SLASH]
  {
  }

  function RequestPath(path: Bytes): Bytes { if path == [] then [SLASH] else path }

  // ---- matching ----

  predicate Unexpired(c: StoredCookie, now: int) { c.expires.Some? ==> c.expires.value > now }

  predicate Sendable(c: StoredCookie, host: Bytes, url: Url, now: int) {
    && (c.secure ==> url.https)
    && Unexpired(c, now)
    && DomainMatch(c.domain, host, c.hostOnly, url.ip)
    && PathMatch(c.path, RequestPath(url.path))
  }

  /** Section 5.4: longer paths first, then earlier creation. */
  predicate CookieLeq(a: StoredCookie, b: StoredCookie) {
    |a.path| > |b.path| || (|a.path| == |b.path| && a.createdAt <= b.createdAt)
  }

  function Matching(cookies: seq<StoredCookie>, url: Url, now: int): seq<StoredCookie> {
    match url.host
    case None => []
    case Some(h) => SortBy(Filter(cookies, c => Sendable(c, Lower(h), url, now)), CookieLeq)
  }

  // ---- the jar ----

  predicate MatchesIdentity(c: StoredCookie, domain: Bytes, path: Bytes, name: Bytes) {
    Lower(c.domain) == Lower(domain) && c.path == path && c.name == name
  }

  predicate SameIdentity(a: StoredCookie, b: StoredCookie) { MatchesIdentity(a, b.domain, b.path, b.name) }

  /** Index of the first cookie with this identity, or the length. */
  function Position(cookies: seq<StoredCookie>, domain: Bytes, path: Bytes, name: Bytes): (k: nat)
    ensures k <= |cookies|
    ensures forall i :: 0 <= i < k ==> !MatchesIdentity(cookies[i], domain, path, name)
    ensures k < |cookies| ==> MatchesIdentity(cookies[k], domain, path, name)
  {
    if cookies == [] || MatchesIdentity(cookies[0], domain, path, name) then 0
    else
      var k := Position(cookies[1..], domain, path, name);
      assert forall i :: 0 <= i < k ==> cookies[1..][i] == cookies[i + 1];
      k + 1
  }

  /** The cookie's domain and host-only flag, or `None` when the header is rejected. */
  function CookieDomain(s: SetCookie, host: Bytes, ip: bool): Option<(Bytes, bool)> {
    match s.domain
    case None => Some((host, true))
    case Some(raw) =>
      var d := Lower(TrimDots(raw));
      if d == [] then Some((host, true))
      else if !DomainMatch(d, host, false, ip) then None
      else Some((d, false))
  }

  function CookiePath(s: SetCookie, url: Url): Bytes {
    if s.path.Some? && StartsWith(s.path.value, [SLASH]) then s.path.value else DefaultPath(url.path)
  }

  function Expiry(s: SetCookie, now: int): Option<int> {
    match s.maxAge
    case Some(secs) => Some(if secs <= 0 then now - 1 else now + secs)
    case None => s.expires
  }

  /** The effect of one header: the new jar, and the stored cookie unless rejected. */
  function IngestStep(cookies: seq<StoredCookie>, s: SetCookie, url: Url, now: int, id: Bytes)
    : (seq<StoredCookie>, Option<StoredCookie>)
  {
    if s.name == [] || url.host.None? then (cookies, None)
    else
      var host := Lower(url.host.value);
      match CookieDomain(s, host, url.ip)
      case None => (cookies, None)
      case Some((domain, hostOnly)) =>
        var path := CookiePath(s, url);
        if s.secure && !url.https then (cookies, None)
        else
          var k := Position(cookies, domain, path, s.name);
          if k < |cookies| then
            var c := cookies[k].(value := s.value, hostOnly := hostOnly, secure := s.secure, httpOnly := s.httpOnly,
                                 sameSite := s.sameSite, expires := Expiry(s, now), updatedAt := now);
            (cookies[k := c], Some(c))
          else
            var c := StoredCookie(id, domain, hostOnly, path, s.name, s.value, false, s.secure, s.httpOnly,
                                  s.sameSite, Expiry(s, now), now, now);
            (cookies + [c], Some(c))
  }

  // ---- what a header does, in its own terms ----

  /** The domain a header names, without leading dots and in lower case; empty if it names none. */
  function NamedDomain(s: SetCookie): Bytes { if s.domain.Some? then Lower(TrimDots(s.domain.value)) else [] }

  /** The host is in the domain: the same, or a host name below it. */
  predicate Within(host: Bytes, domain: Bytes, ip: bool) { host == domain || (!ip && EndsWith(host, [DOT] + domain)) }

  predicate Foreign(s: SetCookie, url: Url)
    requires url.host.Some?
  {
    NamedDomain(s) != [] && !Within(Lower(url.host.value), NamedDomain(s), url.ip)
  }

  /** No name, no host, a foreign domain, or `Secure` without https. */
  predicate Rejected(s: SetCookie, url: Url) {
    s.name == [] || url.host.None? || Foreign(s, url) || (s.secure && !url.https)
  }

  /** What the header says about the cookie. */
  predicate CarriesHeader(c: StoredCookie, s: SetCookie, url: Url, now: int)
    requires url.host.Some?
  {
    && c.name == s.name && c.value == s.value && c.secure == s.secure && c.httpOnly == s.httpOnly
    && c.sameSite == s.sameSite && c.updatedAt == now
    && c.hostOnly == (NamedDomain(s) == [])
    && Lower(c.domain) == (if NamedDomain(s) == [] then Lower(url.host.value) else NamedDomain(s))
    && c.path == (if s.path.Some? && s.path.value != [] && s.path.value[0] == SLASH then s.path.value
                  else DefaultPath(url.path))
    && c.expires == match s.maxAge
                    case Some(secs) => if secs > 0 then Some(now + secs) else Some(now - 1)
                    case None => s.expires
  }

  /** The new cookie takes the place of the one with its domain, path and name, and keeps that one's id, spelling of the
      domain, creation time and encryption mark; if there is none, it is appended. Every other cookie stays. */
  ghost predicate Accepted(before: seq<StoredCookie>, after: seq<StoredCookie>, c: StoredCookie, s: SetCookie, url: Url,
                           now: int, id: Bytes)
  {
    && url.host.Some? && CarriesHeader(c, s, url, now)
    && ((exists k: nat :: k < |before| && Replaced(before, after, c, k)) || Appended(before, after, c, now, id))
  }

  predicate Appended(before: seq<StoredCookie>, after: seq<StoredCookie>, c: StoredCookie, now: int, id: Bytes) {
    && (forall i :: 0 <= i < |before| ==> !Same(before[i], c))
    && after == before + [c] && c.id == id && c.createdAt == now && !c.valueEncrypted
  }

  predicate Same(a: StoredCookie, b: StoredCookie) {
    Lower(a.domain) == Lower(b.domain) && a.path == b.path && a.name == b.name
  }

  /** The first of the same domain, path and name is replaced. */
  ghost predicate Replaced(before: seq<StoredCookie>, after: seq<StoredCookie>, c: StoredCookie, k: nat)
    requires k < |before|
  {
    var b := before[k];
    && Same(b, c) && (forall i :: 0 <= i < k ==> !Same(before[i], c))
    && |after| == |before| && after[k] == c && (forall i :: 0 <= i < |before| && i != k ==> after[i] == before[i])
    && c.id == b.id && c.domain == b.domain && c.createdAt == b.createdAt && c.valueEncrypted == b.valueEncrypted
  }

  lemma IngestMeaning(cookies: seq<StoredCookie>, s: SetCookie, url: Url, now: int, id: Bytes)
    ensures var (jar, stored) := IngestStep(cookies, s, url, now, id);
            && (stored.None? <==> Rejected(s, url))
            && if stored.None? then jar == cookies else Accepted(cookies, jar, stored.value, s, url, now, id)
  {
    if s.name != [] && url.host.Some? {
      var host := Lower(url.host.value);
      DomainMeaning(s, host, url.ip);
      if CookieDomain(s, host, url.ip).Some? && !(s.secure && !url.https) {
        AcceptedMeaning(cookies, s, url, now, id);
      }
    }
  }

  lemma DomainMeaning(s: SetCookie, host: Bytes, ip: bool)
    requires Lower(host) == host
    ensures CookieDomain(s, host, ip)
         == if NamedDomain(s) == [] then Some((host, true))
            else if Within(host, NamedDomain(s), ip) then Some((NamedDomain(s), false)) else None
  {
    if s.domain.Some? {
      var d := NamedDomain(s);
      TrimDotsTrims(s.domain.value);
      TrimDotsTrims(d);
      LowerIdempotent(TrimDots(s.domain.value));
      DomainMatchMeaning(d, host, false, ip);
    }
  }

  lemma AcceptedMeaning(cookies: seq<StoredCookie>, s: SetCookie, url: Url, now: int, id: Bytes)
    requires IngestStep(cookies, s, url, now, id).1.Some?
    ensures var (jar, stored) := IngestStep(cookies, s, url, now, id);
            Accepted(cookies, jar, stored.value, s, url, now, id)
  {
    var (jar, stored) := IngestStep(cookies, s, url, now, id);
    StoredCarries(cookies, s, url, now, id);
    var (domain, hostOnly) := CookieDomain(s, Lower(url.host.value), url.ip).value;
    var k := Position(cookies, domain, CookiePath(s, url), s.name);
    if k < |cookies| {
      assert Replaced(cookies, jar, stored.value, k);
    } else {
      assert Appended(cookies, jar, stored.value, now, id);
    }
  }

  lemma StoredCarries(cookies: seq<StoredCookie>, s: SetCookie, url: Url, now: int, id: Bytes)
    requires IngestStep(cookies, s, url, now, id).1.Some?
    ensures CarriesHeader(IngestStep(cookies, s, url, now, id).1.value, s, url, now)
  {
    LowerIdempotent(url.host.value);
    if s.domain.Some? { LowerIdempotent(TrimDots(s.domain.value)); }
    DomainMeaning(s, Lower(url.host.value), url.ip);
    PathGiven(s, url);
  }

  lemma PathGiven(s: SetCookie, url: Url)
    ensures CookiePath(s, url) == if s.path.Some? && s.path.value != [] && s.path.value[0] == SLASH then s.path.value
                                  else DefaultPath(url.path)
  {
    if s.path.Some? && s.path.value != [] { assert s.path.value[..1] == [s.path.value[0]]; }
  }

  function PruneStep(cookies: seq<StoredCookie>, now: int): seq<StoredCookie> {
    Filter(cookies, c => Unexpired(c, now))
  }

  class CookieJar {
    var cookies: seq<StoredCookie>

    constructor ()
      ensures cookies == []
    {
      cookies := [];
    }

    method IngestSetCookie(s: SetCookie, url: Url, now: int, id: Bytes) returns (stored: Option<StoredCookie>)
      modifies this
      ensures (cookies, stored) == IngestStep(old(cookies), s, url, now, id)
      ensures stored.None? <==> Rejected(s, url)
      ensures if stored.None? then cookies == old(cookies)
              else Accepted(old(cookies), cookies, stored.value, s, url, now, id)
    {
      IngestMeaning(cookies, s, url, now, id);
      if s.name == [] {
        return None;
      }
      if url.host.None? {
        return None;
      }
      var host := Lower(url.host.value);
      var accepted := CookieDomain(s, host, url.ip);
      if accepted.None? {
        return None;
      }
      var (domain, hostOnly) := accepted.value;
      var path := CookiePath(s, url);
      if s.secure && !url.https {
        return None;
      }
      var expires := Expiry(s, now);
      var k := Position(cookies, domain, path, s.name);
      if k < |cookies| {
        var existing := cookies[k];
        existing := existing.(value := s.value);
        existing := existing.(hostOnly := hostOnly);
        existing := existing.(secure := s.secure);
        existing := existing.(httpOnly := s.httpOnly);
        existing := existing.(sameSite := s.sameSite);
        existing := existing.(expires := expires);
        existing := existing.(updatedAt := now);
        cookies := cookies[k := existing];
        return Some(existing);
      }
      var cookie := StoredCookie(id, domain, hostOnly, path, s.name, s.value, false, s.secure, s.httpOnly,
                                 s.sameSite, expires, now, now);
      cookies := cookies + [cookie];
      return Some(cookie);
    }

    method PruneExpired(now: int) returns (pruned: nat)
      modifies this
      ensures cookies == PruneStep(old(cookies), now)
      ensures forall c :: multiset(cookies)[c] == if c.expires == None || now < c.expires.value
                                                  then multiset(old(cookies))[c] else 0
      ensures pruned == |old(cookies)| - |cookies|
    {
      var before := |cookies|;
      forall c ensures multiset(PruneStep(cookies, now))[c] == if Unexpired(c, now) then multiset(cookies)[c] else 0 {
        FilterCount(cookies, c => Unexpired(c, now), c);
      }
      cookies := Filter(cookies, c => Unexpired(c, now));
      pruned := before - |cookies|;
    }
  }

  // ---- what is sent ----

  lemma CookieOrderPreorder()
    ensures TotalPreorder(CookieLeq)
  {
  }

  /** The cookie goes with a request to this URL: not `Secure` without https, not expired, for this host or a domain
      above it, and for this path or a directory above it. */
  predicate GoesWith(c: StoredCookie, url: Url, now: int)
    requires url.host.Some?
  {
    var host, domain, path := Lower(url.host.value), Lower(TrimDots(c.domain)), RequestPath(url.path);
    && (url.https || !c.secure)
    && (c.expires == None || now < c.expires.value)
    && (if c.hostOnly then host == domain else Within(host, domain, url.ip))
    && (c.path == path || ProperPrefix(Split(Directory(c.path), SLASH), Split(path, SLASH)))
  }

  lemma SendableMeaning(c: StoredCookie, url: Url, now: int)
    requires url.host.Some?
    ensures Sendable(c, Lower(url.host.value), url, now) <==> GoesWith(c, url, now)
  {
    var host := Lower(url.host.value);
    LowerIdempotent(url.host.value);
    DomainMatchMeaning(c.domain, host, c.hostOnly, url.ip);
    PathMatchMeaning(c.path, RequestPath(url.path));
  }

  /** Longer paths come first, and of equally long ones the cookie created earlier. */
  predicate SentInOrder(sent: seq<StoredCookie>) {
    forall i, j :: 0 <= i < j < |sent| ==>
        |sent[i].path| > |sent[j].path|
          || (|sent[i].path| == |sent[j].path| && sent[i].createdAt <= sent[j].createdAt)
  }

  /** A cookie is sent exactly when it is in the jar and goes with the request; the list is ordered as section 5.4
      asks, and cookies the order does not separate keep their jar order. */
  lemma MatchingMeaning(cookies: seq<StoredCookie>, url: Url, now: int, c: StoredCookie)
    requires url.host.Some?
    ensures c in Matching(cookies, url, now) <==> c in cookies && Sendable(c, Lower(url.host.value), url, now)
    ensures c in Matching(cookies, url, now) <==> c in cookies && GoesWith(c, url, now)
    ensures SentInOrder(Matching(cookies, url, now))
    ensures var tied := (d: StoredCookie) => |d.path| == |c.path| && d.createdAt == c.createdAt;
            var sendable := (d: StoredCookie) => Sendable(d, Lower(url.host.value), url, now);
            Filter(Matching(cookies, url, now), tied) == Filter(Filter(cookies, sendable), tied)
  {
    var sendable := Filter(cookies, (d: StoredCookie) => Sendable(d, Lower(url.host.value), url, now));
    SendableMeaning(c, url, now);
    CookieOrderPreorder();
    SortSorts(sendable, CookieLeq);
    SortPermutes(sendable, CookieLeq);
    assert c in Matching(cookies, url, now) <==> c in multiset(Matching(cookies, url, now));
    assert c in sendable <==> c in multiset(sendable);
    SortStable(sendable, CookieLeq, (d: StoredCookie) => |d.path| == |c.path| && d.createdAt == c.createdAt);
  }

  /** Pruning at `t` changes nothing that is sent at `t` or later, order included. */
  lemma PruningIsInvisible(cookies: seq<StoredCookie>, t: int, url: Url, later: int)
    requires t <= later
    ensures Matching(PruneStep(cookies, t), url, later) == Matching(cookies, url, later)
  {
    if url.host.Some? {
      var host := Lower(url.host.value);
      FilterFilter(cookies, c => Unexpired(c, t), c => Sendable(c, host, url, later));
    }
  }

  // ---- identities ----

  predicate Unique(cookies: seq<StoredCookie>) {
    forall i, j :: 0 <= i < j < |cookies| ==> !SameIdentity(cookies[i], cookies[j])
  }

  datatype Event = Ingest(s: SetCookie, url: Url, now: int, id: Bytes) | Prune(now: int)

  function Happen(cookies: seq<StoredCookie>, e: Event): seq<StoredCookie> {
    match e
    case Ingest(s, url, now, id) => IngestStep(cookies, s, url, now, id).0
    case Prune(now) => PruneStep(cookies, now)
  }

  function Run(events: seq<Event>): seq<StoredCookie> {
    if events == [] then [] else Happen(Run(events[..|events| - 1]), events[|events| - 1])
  }

  lemma IngestKeepsUnique(cookies: seq<StoredCookie>, s: SetCookie, url: Url, now: int, id: Bytes)
    requires Unique(cookies)
    ensures Unique(IngestStep(cookies, s, url, now, id).0)
  {
  }

  /** Over every run from the empty jar no two cookies share an identity. */
  lemma {:induction false} RunsKeepIdentitiesUnique(events: seq<Event>)
    ensures Unique(Run(events))
  {
    if events != [] {
      var before, last := events[..|events| - 1], events[|events| - 1];
      RunsKeepIdentitiesUnique(before);
      match last
      case Ingest(s, url, now, id) => IngestKeepsUnique(Run(before), s, url, now, id);
      case Prune(now) =>
        FilterKeepsPairwise(Run(before), c => Unexpired(c, now),
                            (c: StoredCookie, d: StoredCookie) => !SameIdentity(c, d));
    }
  }

  // ---- an accepted cookie comes back ----

  lemma {:induction false} TrimDotsTrims(d: Bytes)
    ensures TrimDots(d) == d <==> d == [] || d[0] != DOT
    ensures |TrimDots(d)| <= |d| && (TrimDots(d) != [] ==> TrimDots(d)[0] != DOT)
    ensures Lower(TrimDots(d)) == TrimDots(Lower(d))
  {
    if d != [] {
      assert Lower(d)[1..] == Lower(d[1..]);
      if d[0] == DOT { TrimDotsTrims(d[1..]); }
    }
  }

  /** Exactly the dots at the start go. */
  lemma {:induction false} TrimDotsDrops(d: Bytes) returns (k: nat)
    ensures LeadingDots(d, k) && TrimDots(d) == d[k..] && (k < |d| ==> d[k] != DOT)
  {
    k := 0;
    if d != [] && d[0] == DOT {
      var j := TrimDotsDrops(d[1..]);
      k := j + 1;
      assert d == [d[0]] + d[1..] && d[1..][j..] == d[k..];
    }
  }

  predicate LeadingDots(d: Bytes, k: nat) { k <= |d| && forall i :: 0 <= i < k ==> d[i] == DOT }

  /** Whether the path the cookie got covers the URL that set it. */
  predicate PathComesBack(s: SetCookie, url: Url) {
    if s.path.Some? && StartsWith(s.path.value, [SLASH]) then PathMatch(s.path.value, RequestPath(url.path))
    else url.path == [] || StartsWith(url.path, [SLASH])
  }

  lemma AcceptedDomainMatches(s: SetCookie, host: Bytes, ip: bool, domain: Bytes, hostOnly: bool, stored: Bytes)
    requires host == Lower(host)
    requires CookieDomain(s, host, ip) == Some((domain, hostOnly)) && Lower(stored) == Lower(domain)
    ensures DomainMatch(stored, host, hostOnly, ip) <==> !(hostOnly && host != [] && host[0] == DOT)
  {
    TrimDotsTrims(stored);
    TrimDotsTrims(domain);
    TrimDotsTrims(host);
    LowerIdempotent(domain);
    LowerIdempotent(stored);
    if hostOnly {
      assert Lower(TrimDots(stored)) == TrimDots(host);
    } else {
      assert Lower(TrimDots(stored)) == Lower(TrimDots(domain));
    }
  }

  /** The header names no domain: none given, or nothing but dots. */
  predicate NamesNoDomain(s: SetCookie) {
    s.domain.Some? ==> forall i :: 0 <= i < |s.domain.value| ==> s.domain.value[i] == DOT
  }

  lemma {:induction false} OnlyDots(d: Bytes)
    ensures Lower(TrimDots(d)) == [] <==> forall i :: 0 <= i < |d| ==> d[i] == DOT
  {
    if d != [] {
      assert d == [d[0]] + d[1..];
      OnlyDots(d[1..]);
    }
  }

  /** What an accepted cookie is stored as. */
  lemma StoredAs(cookies: seq<StoredCookie>, s: SetCookie, url: Url, now: int, id: Bytes)
    requires IngestStep(cookies, s, url, now, id).1.Some?
    ensures url.host.Some? && CookieDomain(s, Lower(url.host.value), url.ip).Some?
    ensures var (jar, stored) := IngestStep(cookies, s, url, now, id);
            var (domain, hostOnly) := CookieDomain(s, Lower(url.host.value), url.ip).value;
            var c := stored.value;
            && c in jar && c.hostOnly == hostOnly && Lower(c.domain) == Lower(domain)
            && c.path == CookiePath(s, url) && c.expires == Expiry(s, now) && (c.secure ==> url.https)
  {
    var (jar, stored) := IngestStep(cookies, s, url, now, id);
    var (domain, hostOnly) := CookieDomain(s, Lower(url.host.value), url.ip).value;
    var k := Position(cookies, domain, CookiePath(s, url), s.name);
    assert jar[if k < |cookies| then k else |cookies|] == stored.value;
  }

  lemma DomainComesBack(s: SetCookie, url: Url, stored: Bytes)
    requires url.host.Some? && CookieDomain(s, Lower(url.host.value), url.ip).Some?
    requires Lower(stored) == Lower(CookieDomain(s, Lower(url.host.value), url.ip).value.0)
    ensures DomainMatch(stored, Lower(url.host.value), CookieDomain(s, Lower(url.host.value), url.ip).value.1, url.ip)
       <==> !(NamesNoDomain(s) && StartsWith(url.host.value, [DOT]))
  {
    var host := Lower(url.host.value);
    var (domain, hostOnly) := CookieDomain(s, host, url.ip).value;
    LowerIdempotent(url.host.value);
    AcceptedDomainMatches(s, host, url.ip, domain, hostOnly, stored);
    if s.domain.Some? { OnlyDots(s.domain.value); }
    assert hostOnly <==> NamesNoDomain(s);
    if host != [] { assert url.host.value[..1] == [url.host.value[0]]; }
  }

  lemma PathComesBackMeaning(s: SetCookie, url: Url)
    ensures PathMatch(CookiePath(s, url), RequestPath(url.path)) <==> PathComesBack(s, url)
  {
    DefaultPathCovers(url.path);
  }

  /** A cookie accepted from a URL is sent back to that URL, at a time `t`, exactly when its header has not let it
      expire, its path covers the URL, and it names a domain or the host does not start with a dot. */
  lemma AcceptedCookieComesBack(cookies: seq<StoredCookie>, s: SetCookie, url: Url, now: int, id: Bytes, t: int)
    requires IngestStep(cookies, s, url, now, id).1.Some?
    ensures var (jar, stored) := IngestStep(cookies, s, url, now, id);
            stored.value in Matching(jar, url, t)
            <==> (Expiry(s, now).Some? ==> Expiry(s, now).value > t) && PathComesBack(s, url)
                 && !(NamesNoDomain(s) && StartsWith(url.host.value, [DOT]))
  {
    var (jar, stored) := IngestStep(cookies, s, url, now, id);
    StoredAs(cookies, s, url, now, id);
    MatchingMeaning(jar, url, t, stored.value);
    DomainComesBack(s, url, stored.value.domain);
    PathComesBackMeaning(s, url);
  }

  /** A host that starts with a dot does not get its own host-only cookie back: stored domains lose their leading
      dots, hosts do not. */
  lemma DottedHostLosesItsCookie(name: Bytes, value: Bytes, id: Bytes, now: int)
    requires name != []
    ensures var url := Url(Some(Ascii(".a")), false, [SLASH], true);
            var s := SetCookie(name, value, None, None, false, false, None, None, None);
            var (jar, stored) := IngestStep([], s, url, now, id);
            jar == AsSeq(stored) && |jar| == 1 && Matching(jar, url, now) == []
  {
    var url := Url(Some(Ascii(".a")), false, [SLASH], true);
    var s := SetCookie(name, value, None, None, false, false, None, None, None);
    var (jar, stored) := IngestStep([], s, url, now, id);
    assert url.host.value[..1] == [DOT];
    AcceptedCookieComesBack([], s, url, now, id, now);
    forall c ensures c !in Matching(jar, url, now) { MatchingMeaning(jar, url, now, c); }
    HasMember(Matching(jar, url, now));
  }
}
