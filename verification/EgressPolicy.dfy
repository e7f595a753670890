/** The allowlist decision, and redirect chains that keep it. */
module EgressPolicy {
  // URLs come already split.

  import opened Prelude
  import opened Texts
  import opened Json
  import opened EgressPaths

  datatype Scheme = Https | Http | OtherScheme(name: Text)

  /** A port is read lazily: an absurd one raises only when it is looked at. */
  datatype Port = NoPort | Port(n: nat) | BadPort

  /** `urlsplit`, or its exception. Empty and missing user names and passwords are both falsy. */
  datatype Url =
    | Unparsable
    | Url(scheme: Scheme, netloc: Text, hostname: Option<Text>, port: Port, userinfo: bool,
          path: Text, query: Text, fragment: Text)

  /** `high` decodes runs of percent-encoded bytes above 0x7F. */
  datatype Policy = Policy(entries: seq<Url>, methods: seq<Text>, maxResponseBytes: nat, high: Bytes -> Text)

  const AT: CodePoint := 0x40

  /** What `EgressPolicy.__post_init__` demands of one endpoint. */
  predicate EntryOk(high: Bytes -> Text, e: Url) {
    && e.Url? && !e.scheme.OtherScheme? && e.hostname.Some? && e.hostname.value != []
    && !e.userinfo && e.fragment == [] && e.query == []
    && !HasDotSegment(high, e.path) && PERCENT !in e.path
  }

  predicate EntriesOk(high: Bytes -> Text, entries: seq<Url>) {
    forall i | 0 <= i < |entries| :: EntryOk(high, entries[i])
  }

  predicate PolicyOk(p: Policy) {
    EntriesOk(p.high, p.entries)
  }

  function DefaultPort(s: Scheme): nat {
    if s.Https? then 443 else 80
  }

  /** `parsed.port or default`: port 0 is falsy. */
  function EffectivePort(u: Url): nat
    requires u.Url? && !u.port.BadPort?
  {
    if u.port.Port? && u.port.n != 0 then u.port.n else DefaultPort(u.scheme)
  }

  function RequestPath(u: Url): Text
    requires u.Url?
  {
    if u.path == [] then [SLASH] else u.path
  }

  /** What is refused before any entry is looked at. */
  predicate Presentable(high: Bytes -> Text, u: Url) {
    && u.Url? && !u.scheme.OtherScheme? && AT !in u.netloc && u.fragment == []
    && !HasDotSegment(high, u.path) && !u.port.BadPort?
  }

  predicate SameHost(u: Url, e: Url)
    requires u.Url? && e.Url?
  {
    u.scheme == e.scheme && u.hostname == e.hostname
  }

  predicate EntryMatches(u: Url, e: Url)
    requires u.Url? && !u.port.BadPort? && e.Url?
  {
    SameHost(u, e) && !e.port.BadPort? && EffectivePort(u) == EffectivePort(e) && PathAllowed(RequestPath(u), e.path)
  }

  /** The loop over the entries: an entry that cannot be split, or whose port raises when it is compared, ends it. */
  function MatchFrom(u: Url, entries: seq<Url>, at: nat): Option<nat>
    requires u.Url? && !u.port.BadPort?
  {
    if entries == [] then None
    else
      var e := entries[0];
      if e.Unparsable? then None
      else if SameHost(u, e) && e.port.BadPort? then None
      else if EntryMatches(u, e) then Some(at)
      else MatchFrom(u, entries[1..], at + 1)
  }

  /** `_url_matches_allowlist`: the position of the matching entry. */
  function MatchOf(p: Policy, u: Url): Option<nat> {
    if !Presentable(p.high, u) then None else MatchFrom(u, p.entries, 0)
  }

  method UrlMatchesAllowlist(p: Policy, u: Url) returns (r: Option<nat>)
    ensures r == MatchOf(p, u)
  {
    if u.Unparsable? || u.scheme.OtherScheme? {
      return None;
    }
    if AT in u.netloc || u.fragment != [] {
      return None;
    }
    if HasDotSegment(p.high, u.path) {
      return None;
    }
    if u.port.BadPort? {
      return None;
    }
    for i := 0 to |p.entries|
      invariant MatchFrom(u, p.entries, 0) == MatchFrom(u, p.entries[i..], i)
    {
      var e := p.entries[i];
      assert p.entries[i..][0] == e && p.entries[i..][1..] == p.entries[i + 1..];
      if e.Unparsable? {
        return None;
      }
      if SameHost(u, e) {
        if e.port.BadPort? {
          return None;
        }
        if EffectivePort(u) == EffectivePort(e) && PathAllowed(RequestPath(u), e.path) {
          return Some(i);
        }
      }
    }
    return None;
  }

  /** The first entry that matches, provided no earlier entry of the same host has an unreadable port. */
  lemma {:induction false} MatchIsFirst(u: Url, entries: seq<Url>, at: nat, r: nat)
    requires u.Url? && !u.port.BadPort?
    ensures MatchFrom(u, entries, at) == Some(at + r) <==>
      && r < |entries| && entries[r].Url? && EntryMatches(u, entries[r])
      && forall j | 0 <= j < r ::
           entries[j].Url? && !EntryMatches(u, entries[j]) && !(SameHost(u, entries[j]) && entries[j].port.BadPort?)
    ensures MatchFrom(u, entries, at).Some? ==> MatchFrom(u, entries, at).value >= at
  {
    if entries != [] {
      var e := entries[0];
      if r > 0 {
        MatchIsFirst(u, entries[1..], at + 1, r - 1);
        assert forall j | 0 < j < |entries| :: entries[j] == entries[1..][j - 1];
      } else {
        MatchIsFirst(u, entries[1..], at + 1, 0);
      }
    }
  }

  // ---------- what is accepted ----------

  /** The URL is of one of the two schemes, without user information, fragment or absurd port, and its path, as sent and
      as decoded once, is a fixed point of remove_dot_segments. */
  predicate Plain(high: Bytes -> Text, u: Url) {
    && u.Url? && (u.scheme == Https || u.scheme == Http)
    && '@' as int !in u.netloc && u.fragment == [] && u.port != BadPort
    && RemoveDots(u.path, []) == u.path && RemoveDots(Unquote(high, u.path), []) == Unquote(high, u.path)
  }

  /** The port of a URL: without one, or with port 0, that of its scheme. */
  function PortOf(u: Url): nat
    requires u.Url? && u.port != BadPort
  {
    if u.port != NoPort && u.port != Port(0) then u.port.n else if u.scheme == Https then 443 else 80
  }

  /** An entry without a path, or with the path `/`, is for the whole host. Otherwise its segments are the first ones of
      the path, which has more of them when the entry ends in a slash. */
  predicate Below(path: Text, entry: Text) {
    || entry == [] || entry == ['/' as int]
    || (if Last(entry) == '/' as int then Segments(Front(entry)) < Segments(path)
        else Segments(entry) <= Segments(path))
  }

  predicate SameOrigin(u: Url, e: Url)
    requires u.Url? && u.port != BadPort
  {
    e.Url? && e.scheme == u.scheme && e.hostname == u.hostname && e.port != BadPort && PortOf(e) == PortOf(u)
  }

  /** The entry is for this URL; no path is the path `/`. */
  predicate Covers(u: Url, e: Url)
    requires u.Url? && u.port != BadPort
  {
    SameOrigin(u, e) && Below(if u.path == [] then ['/' as int] else u.path, e.path)
  }

  /** An entry that ends the search: it cannot be split, or is of the same scheme and host with an unreadable port. */
  predicate Stops(u: Url, e: Url)
    requires u.Url?
  {
    e == Unparsable || (e.scheme == u.scheme && e.hostname == u.hostname && e.port == BadPort)
  }

  lemma PresentableIff(high: Bytes -> Text, u: Url)
    ensures Presentable(high, u) <==> Plain(high, u)
  {
    if u.Url? {
      hide DotSegmentIn, RemoveDots, Unquote;
      NoDotSegmentIffFixed(u.path);
      NoDotSegmentIffFixed(Unquote(high, u.path));
    }
  }

  lemma AllowedIsBelow(path: Text, entry: Text)
    ensures PathAllowed(path, entry) <==> Below(path, entry)
  {
    hide Segments;
    PathAllowedIff(path, entry);
  }

  lemma EntryMatchesIff(u: Url, e: Url)
    requires u.Url? && !u.port.BadPort? && e.Url?
    ensures EntryMatches(u, e) <==> Covers(u, e)
    ensures SameHost(u, e) && e.port.BadPort? <==> Stops(u, e)
  {
    hide PathAllowed, Below;
    AllowedIsBelow(RequestPath(u), e.path);
  }

  /** The decision: a URL is accepted exactly when it is plain and an entry is for it, and the answer is the first such
      entry unless one before it ends the search. */
  lemma MatchIff(p: Policy, u: Url, i: nat)
    ensures MatchOf(p, u) == Some(i) <==>
      && Plain(p.high, u) && i < |p.entries| && Covers(u, p.entries[i])
      && forall j | 0 <= j < i :: !Covers(u, p.entries[j]) && !Stops(u, p.entries[j])
  {
    hide Plain, Presentable, Covers, EntryMatches, SameHost, Stops, MatchFrom;
    PresentableIff(p.high, u);
    if Presentable(p.high, u) {
      IsUrl(p.high, u);
      MatchIsFirst(u, p.entries, 0, i);
      forall e: Url | e.Url?
        ensures EntryMatches(u, e) <==> Covers(u, e)
        ensures SameHost(u, e) && e.port.BadPort? <==> Stops(u, e)
      {
        EntryMatchesIff(u, e);
      }
      UnparsableStops(u);
      forall e | Covers(u, e) ensures e.Url? {
        CoversUrl(u, e);
      }
    }
  }

  lemma IsUrl(high: Bytes -> Text, u: Url)
    requires Presentable(high, u)
    ensures u.Url? && !u.port.BadPort?
  {
  }

  lemma UnparsableStops(u: Url)
    requires u.Url?
    ensures Stops(u, Unparsable)
  {
  }

  lemma CoversUrl(u: Url, e: Url)
    requires u.Url? && u.port != BadPort && Covers(u, e)
    ensures e.Url?
  {
  }

  /** Everything a valid policy accepts: a plain URL with an entry for it, and its path, decoded once, is one that the
      entry is for as well. */
  ghost predicate Contained(high: Bytes -> Text, u: Url, e: Url) {
    && Plain(high, u) && Covers(u, e)
    && Below(Unquote(high, if u.path == [] then ['/' as int] else u.path), e.path)
  }

  lemma AcceptedUrlIsContained(p: Policy, u: Url)
    requires PolicyOk(p) && MatchOf(p, u).Some?
    ensures MatchOf(p, u).value < |p.entries| && Contained(p.high, u, p.entries[MatchOf(p, u).value])
  {
    hide HasDotSegment, RemoveDots, Unquote, PathAllowed, MatchFrom, Below, Plain;
    var i := MatchOf(p, u).value;
    MatchIff(p, u, i);
    MatchIsFirst(u, p.entries, 0, i);
    var path, e := RequestPath(u), p.entries[i];
    RootHasNoDots(p.high);
    AdmittedPathIsContained(p.high, path, e.path);
    AllowedIsBelow(Unquote(p.high, path), e.path);
  }

  lemma RootHasNoDots(high: Bytes -> Text)
    ensures !HasDotSegment(high, [SLASH])
  {
    var root: Text := [SLASH];
    assert root == [] + [SLASH] + [];
    SegmentsStep([], []);
    AnyDotStep([], Segments([]));
    EmptyHasNoDots();
    UnquoteLiteral(high, root, []);
    UnquoteNothing(high);
    assert root + [] == root;
  }

  // ---------- redirects ----------

  /** A redirect target: its text is the key of the loop limits. */
  datatype Target = Target(text: Text, url: Url)

  datatype Denial = OffAllowlist | OffCeiling | SchemeChange | LoopLimit

  const MAX_REPEATS := 4
  const MAX_REDIRECTIONS := 10

  /** One mediated fetch: the URL now requested, the trail for the audit, and `redirect_dict` of the standard library,
      which the first redirect creates and every dispatched one counts in. */
  datatype Chain = Chain(
    current: Url, attempted: seq<Target>, followed: seq<Target>, visited: Option<seq<Keyed<int>>>,
    denied: Option<Denial>)

  function Visits(visited: seq<Keyed<int>>, key: Text): int {
    match Get(visited, key)
    case Some(n) => n
    case None => 0
  }

  /** Why `redirect_request` refuses a target, in the order of its checks. */
  function Refusal(p: Policy, ceiling: Option<Policy>, c: Chain, t: Target): Option<Denial> {
    if MatchOf(p, t.url).None? then Some(OffAllowlist)
    else if ceiling.Some? && MatchOf(ceiling.value, t.url).None? then Some(OffCeiling)
    else if !c.current.Url? || !t.url.Url? || t.url.scheme != c.current.scheme then Some(SchemeChange)
    else None
  }

  predicate AtLimit(c: Chain, t: Target) {
    c.visited.Some? && (Visits(c.visited.value, t.text) >= MAX_REPEATS || |c.visited.value| >= MAX_REDIRECTIONS)
  }

  /** One redirect response. `agreed` is whether the standard library makes a request for this method and code. */
  function Hop(p: Policy, ceiling: Option<Policy>, c: Chain, t: Target, agreed: bool): Chain {
    var tried := Chain(c.current, c.attempted + [t], c.followed, c.visited, c.denied);
    var refusal := Refusal(p, ceiling, c, t);
    if refusal.Some? then Chain(c.current, c.attempted + [t], c.followed, c.visited, refusal)
    else if !agreed then tried
    else if AtLimit(c, t) then Chain(c.current, c.attempted + [t], c.followed, c.visited, Some(LoopLimit))
    else
      var counts := if c.visited.Some? then c.visited.value else [];
      Chain(t.url, c.attempted + [t], c.followed + [t], Some(Put(counts, t.text, Visits(counts, t.text) + 1)), c.denied)
  }

  /** The handler of one fetch. */
  class RedirectHandler {
    const policy: Policy
    const ceiling: Option<Policy>
    var current: Url
    var attempted: seq<Target>
    var followed: seq<Target>
    var visited: Option<seq<Keyed<int>>>
    var denied: Option<Denial>

    constructor (policy: Policy, ceiling: Option<Policy>, first: Url)
      ensures this.policy == policy && this.ceiling == ceiling && State() == Begun(first)
    {
      this.policy, this.ceiling := policy, ceiling;
      current, attempted, followed, visited, denied := first, [], [], None, None;
    }

    ghost function State(): Chain
      reads this
    {
      Chain(current, attempted, followed, visited, denied)
    }

    /** Handles one redirect response; true when the hop is dispatched. */
    method RedirectRequest(t: Target, agreed: bool) returns (go: bool)
      modifies this
      ensures State() == Hop(policy, ceiling, old(State()), t, agreed)
      ensures go <==> followed == old(followed) + [t]
      ensures !go ==> followed == old(followed) && current == old(current) && visited == old(visited)
    {
      hide MatchOf, Put, Get;
      attempted := attempted + [t];
      var onList := UrlMatchesAllowlist(policy, t.url);
      if onList.None? {
        denied := Some(OffAllowlist);
        return false;
      }
      if ceiling.Some? {
        var inside := UrlMatchesAllowlist(ceiling.value, t.url);
        if inside.None? {
          denied := Some(OffCeiling);
          return false;
        }
      }
      if !current.Url? || !t.url.Url? || t.url.scheme != current.scheme {
        denied := Some(SchemeChange);
        return false;
      }
      if !agreed {
        return false;
      }
      if visited.Some? && (Visits(visited.value, t.text) >= MAX_REPEATS || |visited.value| >= MAX_REDIRECTIONS) {
        denied := Some(LoopLimit);
        return false;
      }
      followed := followed + [t];
      var counts := if visited.Some? then visited.value else [];
      visited := Some(Put(counts, t.text, Visits(counts, t.text) + 1));
      current := t.url;
      return true;
    }
  }

  function Begun(first: Url): Chain {
    Chain(first, [], [], None, None)
  }

  /** A whole chain of redirect responses. */
  function Hops(p: Policy, ceiling: Option<Policy>, c: Chain, ts: seq<(Target, bool)>): Chain
    decreases |ts|
  {
    if ts == [] then c else Hops(p, ceiling, Hop(p, ceiling, c, ts[0].0, ts[0].1), ts[1..])
  }

  // ---------- what every chain keeps ----------

  function Total(visited: seq<Keyed<int>>): int {
    if visited == [] then 0 else visited[0].value + Total(visited[1..])
  }

  predicate Bounded(visited: seq<Keyed<int>>) {
    visited == [] || (0 <= visited[0].value <= MAX_REPEATS && Bounded(visited[1..]))
  }

  lemma {:induction false} PutCounts(visited: seq<Keyed<int>>, key: Text)
    requires Bounded(visited) && Visits(visited, key) < MAX_REPEATS
    ensures var more := Put(visited, key, Visits(visited, key) + 1);
      && Bounded(more) && Total(more) == Total(visited) + 1 && |visited| <= |more| <= |visited| + 1
  {
    if visited == [] {
      assert [Keyed(key, 1)][1..] == [];
    } else if visited[0].key == key {
      assert ([Keyed(key, visited[0].value + 1)] + visited[1..])[1..] == visited[1..];
    } else {
      PutCounts(visited[1..], key);
      var rest := Put(visited[1..], key, Visits(visited[1..], key) + 1);
      assert ([visited[0]] + rest)[1..] == rest;
    }
  }

  lemma {:induction false} BoundedTotal(visited: seq<Keyed<int>>)
    requires Bounded(visited)
    ensures Total(visited) <= MAX_REPEATS * |visited|
  {
    if visited != [] {
      BoundedTotal(visited[1..]);
    }
  }

  /** Every followed hop clears both policies and keeps the scheme of the first request. */
  predicate FollowedOk(p: Policy, ceiling: Option<Policy>, scheme: Scheme, followed: seq<Target>) {
    forall i | 0 <= i < |followed| ::
      && MatchOf(p, followed[i].url).Some?
      && (ceiling.Some? ==> MatchOf(ceiling.value, followed[i].url).Some?)
      && followed[i].url.Url? && followed[i].url.scheme == scheme
  }

  predicate Sane(p: Policy, ceiling: Option<Policy>, scheme: Scheme, c: Chain) {
    && c.current.Url? && c.current.scheme == scheme
    && FollowedOk(p, ceiling, scheme, c.followed) && |c.followed| <= |c.attempted|
    && match c.visited {
         case None => c.followed == []
         case Some(v) =>
           && Bounded(v) && Total(v) == |c.followed| && |v| <= MAX_REDIRECTIONS
           && (|v| == MAX_REDIRECTIONS ==> Total(v) <= MAX_REPEATS * (MAX_REDIRECTIONS - 1) + 1)
       }
  }

  lemma HopKeepsSane(p: Policy, ceiling: Option<Policy>, scheme: Scheme, c: Chain, t: Target, agreed: bool)
    requires Sane(p, ceiling, scheme, c)
    ensures Sane(p, ceiling, scheme, Hop(p, ceiling, c, t, agreed))
  {
    hide MatchOf, Bounded, Total, Put, Get;
    EmptyCounts();
    var counts := if c.visited.Some? then c.visited.value else [];
    if Refusal(p, ceiling, c, t).None? && agreed && !AtLimit(c, t) {
      NoVisits(t.text);
      PutCounts(counts, t.text);
      BoundedTotal(counts);
    }
  }

  lemma EmptyCounts()
    ensures Bounded([]) && Total([]) == 0
  {
  }

  lemma NoVisits(key: Text)
    ensures Visits([], key) == 0
  {
  }

  /** In any redirect chain every hop followed passes both policies under the first request's scheme, and the loop
      limits allow at most 4 * 9 + 1 hops. */
  lemma {:induction false} ChainsAreBounded(
    p: Policy, ceiling: Option<Policy>, first: Url, c: Chain, ts: seq<(Target, bool)>)
    requires first.Url? && Sane(p, ceiling, first.scheme, c)
    ensures var end := Hops(p, ceiling, c, ts);
      && Sane(p, ceiling, first.scheme, end) && FollowedOk(p, ceiling, first.scheme, end.followed)
      && |end.followed| <= MAX_REPEATS * (MAX_REDIRECTIONS - 1) + 1
    decreases |ts|
  {
    if ts == [] {
      if c.visited.Some? {
        BoundedTotal(c.visited.value);
      }
    } else {
      hide Sane, Hop;
      HopKeepsSane(p, ceiling, first.scheme, c, ts[0].0, ts[0].1);
      ChainsAreBounded(p, ceiling, first, Hop(p, ceiling, c, ts[0].0, ts[0].1), ts[1..]);
    }
  }

  /** A fetch starts sane, so the bound holds of every chain from the first request on. */
  lemma EveryChain(p: Policy, ceiling: Option<Policy>, first: Url, ts: seq<(Target, bool)>)
    requires first.Url?
    ensures var end := Hops(p, ceiling, Begun(first), ts);
      FollowedOk(p, ceiling, first.scheme, end.followed) && |end.followed| <= 37
  {
    ChainsAreBounded(p, ceiling, first, Begun(first), ts);
  }

  // ---------- a longest chain ----------

  predicate Followable(p: Policy, ceiling: Option<Policy>, scheme: Scheme, t: Target) {
    && MatchOf(p, t.url).Some? && (ceiling.Some? ==> MatchOf(ceiling.value, t.url).Some?)
    && t.url.Url? && t.url.scheme == scheme
  }

  /** Redirected to one target so many times in a row. */
  function Again(t: Target, n: nat): seq<(Target, bool)> {
    if n == 0 then [] else [(t, true)] + Again(t, n - 1)
  }

  /** To each of them in turn, as often as the loop limit lets. */
  function Rounds(ts: seq<Target>): seq<(Target, bool)> {
    if ts == [] then [] else Again(ts[0], MAX_REPEATS) + Rounds(ts[1..])
  }

  lemma {:induction false} HopsConcat(
    p: Policy, ceiling: Option<Policy>, c: Chain, a: seq<(Target, bool)>, b: seq<(Target, bool)>)
    ensures Hops(p, ceiling, c, a + b) == Hops(p, ceiling, Hops(p, ceiling, c, a), b)
    decreases |a|
  {
    if a == [] {
      assert a + b == b;
    } else {
      assert (a + b)[0] == a[0] && (a + b)[1..] == a[1..] + b;
      HopsConcat(p, ceiling, Hop(p, ceiling, c, a[0].0, a[0].1), a[1..], b);
    }
  }

  lemma {:induction false} PutAtEnd(visited: seq<Keyed<int>>, key: Text, n: int, m: int)
    requires !HasKey(visited, key)
    ensures Visits(visited + [Keyed(key, n)], key) == n
    ensures Put(visited + [Keyed(key, n)], key, m) == visited + [Keyed(key, m)]
  {
    var all := visited + [Keyed(key, n)];
    if visited == [] {
      assert all == [Keyed(key, n)] && all[1..] == [];
    } else {
      HasKeyStep(visited, key);
      assert all[0] == visited[0] && all[1..] == visited[1..] + [Keyed(key, n)];
      PutAtEnd(visited[1..], key, n, m);
    }
  }

  /** The counts after `n` visits of a target that was not visited before. */
  function Counted(visited: seq<Keyed<int>>, key: Text, n: nat): Option<seq<Keyed<int>>> {
    if n > 0 then Some(visited + [Keyed(key, n)]) else if visited == [] then None else Some(visited)
  }

  lemma {:induction false} AgainIsFollowed(p: Policy, ceiling: Option<Policy>, scheme: Scheme, c: Chain,
                                           visited: seq<Keyed<int>>, t: Target, done: nat, n: nat)
    requires Followable(p, ceiling, scheme, t) && c.current.Url? && c.current.scheme == scheme
    requires !HasKey(visited, t.text) && c.visited == Counted(visited, t.text, done)
    requires done + n <= MAX_REPEATS && |visited| + (if done + n > 1 then 1 else 0) < MAX_REDIRECTIONS
    ensures var end := Hops(p, ceiling, c, Again(t, n));
      && end.visited == Counted(visited, t.text, done + n) && |end.followed| == |c.followed| + n
      && end.current.Url? && end.current.scheme == scheme
    decreases n
  {
    hide MatchOf, Get, Put, HasKey;
    if n > 0 {
      GetNone(visited, t.text);
      if done > 0 {
        PutAtEnd(visited, t.text, done, done + 1);
      } else {
        PutNew(visited, t.text, 1);
        NoVisits(t.text);
        assert [] + [Keyed(t.text, 1)] == [Keyed(t.text, 1)];
      }
      var next := Hop(p, ceiling, c, t, true);
      assert next.visited == Counted(visited, t.text, done + 1);
      AgainIsFollowed(p, ceiling, scheme, next, visited, t, done + 1, n - 1);
      assert Again(t, n)[1..] == Again(t, n - 1);
    }
  }

  predicate DistinctTexts(ts: seq<Target>) {
    forall i, j | 0 <= i < j < |ts| :: ts[i].text != ts[j].text
  }

  lemma {:induction false} RoundsAreFollowed(
    p: Policy, ceiling: Option<Policy>, scheme: Scheme, c: Chain, visited: seq<Keyed<int>>, ts: seq<Target>)
    requires forall t | t in ts :: Followable(p, ceiling, scheme, t) && !HasKey(visited, t.text)
    requires c.current.Url? && c.current.scheme == scheme && DistinctTexts(ts)
    requires c.visited == (if visited == [] then None else Some(visited)) && |visited| + |ts| < MAX_REDIRECTIONS
    ensures var end, keys := Hops(p, ceiling, c, Rounds(ts)), Visited(visited, ts);
      && end.visited == (if keys == [] then None else Some(keys))
      && |end.followed| == |c.followed| + MAX_REPEATS * |ts|
      && end.current.Url? && end.current.scheme == scheme
    decreases |ts|
  {
    hide Followable, HasKey, Again;
    if ts != [] {
      var t := ts[0];
      assert t in ts;
      AgainIsFollowed(p, ceiling, scheme, c, visited, t, 0, MAX_REPEATS);
      HopsConcat(p, ceiling, c, Again(t, MAX_REPEATS), Rounds(ts[1..]));
      var more := visited + [Keyed(t.text, MAX_REPEATS)];
      forall u | u in ts[1..] ensures Followable(p, ceiling, scheme, u) && !HasKey(more, u.text) {
        OtherKey(visited, ts, u);
      }
      RoundsAreFollowed(p, ceiling, scheme, Hops(p, ceiling, c, Again(t, MAX_REPEATS)), more, ts[1..]);
    }
  }

  /** The counts after the rounds. */
  function Visited(visited: seq<Keyed<int>>, ts: seq<Target>): (r: seq<Keyed<int>>)
    ensures |r| == |visited| + |ts|
    decreases |ts|
  {
    if ts == [] then visited else Visited(visited + [Keyed(ts[0].text, MAX_REPEATS)], ts[1..])
  }

  lemma OtherKey(visited: seq<Keyed<int>>, ts: seq<Target>, u: Target)
    requires ts != [] && DistinctTexts(ts) && u in ts[1..] && !HasKey(visited, u.text)
    ensures u in ts && !HasKey(visited + [Keyed(ts[0].text, MAX_REPEATS)], u.text)
  {
    var j :| 0 <= j < |ts[1..]| && ts[1..][j] == u;
    assert ts[j + 1] == u;
  }

  lemma {:induction false} VisitedKeys(visited: seq<Keyed<int>>, ts: seq<Target>, key: Text)
    requires !HasKey(visited, key) && forall t | t in ts :: t.text != key
    ensures !HasKey(Visited(visited, ts), key)
    decreases |ts|
  {
    if ts != [] {
      assert ts[0] in ts;
      VisitedKeys(visited + [Keyed(ts[0].text, MAX_REPEATS)], ts[1..], key);
    }
  }

  /** The bound is reached: of any ten different targets that both policies allow, nine can be visited four times each
      and the tenth once. */
  lemma LongestChain(p: Policy, ceiling: Option<Policy>, first: Url, ts: seq<Target>)
    requires first.Url? && |ts| == MAX_REDIRECTIONS && DistinctTexts(ts)
    requires forall t | t in ts :: Followable(p, ceiling, first.scheme, t)
    ensures |Hops(p, ceiling, Begun(first), Rounds(ts[..9]) + [(ts[9], true)]).followed| == 37
  {
    hide Followable, Hop;
    var nine, last := ts[..9], ts[9];
    assert forall t | t in nine :: t in ts;
    assert last in ts;
    RoundsAreFollowed(p, ceiling, first.scheme, Begun(first), [], nine);
    var c := Hops(p, ceiling, Begun(first), Rounds(nine));
    VisitedKeys([], nine, last.text);
    AgainIsFollowed(p, ceiling, first.scheme, c, Visited([], nine), last, 0, 1);
    assert Again(last, 1) == [(last, true)] + Again(last, 0) == [(last, true)];
    HopsConcat(p, ceiling, Begun(first), Rounds(nine), [(last, true)]);
  }
}
