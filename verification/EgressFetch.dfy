/** Reading a bounded response, and one mediated call. */
module EgressFetch {
  import opened Prelude
  import opened Texts
  import opened EgressPolicy
  import G = GrantBook
  import GS = GrantSafety

  // ---------- the read loop ----------

  function Min(a: nat, b: nat): nat {
    if a < b then a else b
  }

  const BUFFER := 65536

  /** Reads until the stream ends or one byte more than the cap is in hand, one clock reading before each read; past the
      deadline nothing is delivered. The peer decides how much the k-th read brings: `sizes(k)`, but at least one byte
      while there are any. */
  method ReadBody(stream: Bytes, cap: nat, sizes: nat -> nat, clock: nat -> int, timeout: int)
    returns (r: Option<(Bytes, bool)>)
    ensures r.Some? ==> r.value.0 == stream[..Min(|stream|, cap)] && (r.value.1 <==> |stream| > cap)
    ensures r.None? <==> exists k: nat :: k < ReadsTried(stream, cap, sizes, 0, 0) && clock(k) > timeout
  {
    hide ReadSize;
    var body: Bytes := [];
    var k := 0;
    while true
      invariant |body| <= |stream| && |body| <= cap && body == stream[..|body|]
      invariant k <= ReadsTried(stream, cap, sizes, 0, 0)
      invariant ReadsTried(stream, cap, sizes, 0, 0) == k + ReadsTried(stream, cap, sizes, |body|, k)
      invariant forall j: nat | j < k :: clock(j) <= timeout
      decreases |stream| - |body|
    {
      if clock(k) > timeout {
        return None;
      }
      var room := cap + 1 - |body|;
      var n := ReadSize(|stream| - |body|, Min(room, BUFFER), sizes(k));
      var chunk := stream[|body|..|body| + n];
      k := k + 1;
      if chunk == [] {
        break;
      }
      Taken(stream, |body|, n);
      body := body + chunk;
      if |body| > cap {
        break;
      }
    }
    var truncated := |body| > cap;
    if truncated {
      body := body[..cap];
    }
    return Some((body, truncated));
  }

  lemma Taken<T>(s: seq<T>, i: nat, n: nat)
    requires i + n <= |s|
    ensures s[..i] + s[i..i + n] == s[..i + n] && |s[i..i + n]| == n
  {
  }

  /** What one `read1(limit)` brings of `left` bytes. */
  function ReadSize(left: nat, limit: nat, wanted: nat): (n: nat)
    requires limit > 0
    ensures n <= left && n <= limit && (n == 0 <==> left == 0)
  {
    if wanted == 0 then Min(left, 1) else Min(left, Min(limit, wanted))
  }

  /** How many times the loop reads. */
  function ReadsTried(stream: Bytes, cap: nat, sizes: nat -> nat, got: nat, k: nat): (r: nat)
    requires got <= |stream| && got <= cap
    ensures r >= 1
    decreases |stream| - got
  {
    var n := ReadSize(|stream| - got, Min(cap + 1 - got, BUFFER), sizes(k));
    if n == 0 || got + n > cap then 1 else 1 + ReadsTried(stream, cap, sizes, got + n, k + 1)
  }

  // ---------- mediation ----------

  /** A request whose document was understood; the method is in upper case, header names in lower case. */
  datatype Request = Request(url: Url, verb: Text, headers: seq<Text>)

  const ALLOWED_HEADERS: seq<Text> := [Of("accept"), Of("content-type"), Of("user-agent")]

  /** `validate_request`. */
  predicate Allowed(p: Policy, r: Request) {
    && r.verb in p.methods && MatchOf(p, r.url).Some?
    && forall i | 0 <= i < |r.headers| :: r.headers[i] in ALLOWED_HEADERS
  }

  /** How a mediated call ends before any byte is fetched, or that the fetch starts. An exception that the mediator
      does not catch leaves it as `Raised`. */
  datatype Outcome =
    | BadRequest
    | DeniedByGrantPolicy
    | DeniedByCeiling
    | LedgerRefused
    | DeniedByLedger(limit: Option<G.Limit>)
    | Raised
    | Fetching

  /** One call: `request` is `None` when the document was not understood. */
  datatype Call = Call(
    grant: G.Grant, policy: Policy, ceiling: Option<Policy>, request: Option<Request>, clock: G.Clock)

  /** `mediate_with_grant`: parse, the grant's allowlist, the ceiling, the ledger, then the fetch. */
  function Mediated(c: Call, book: seq<G.Line>): (Outcome, seq<G.Line>) {
    if c.request.None? then (BadRequest, book)
    else if !Allowed(c.policy, c.request.value) then (DeniedByGrantPolicy, book)
    else if c.ceiling.Some? && !Allowed(c.ceiling.value, c.request.value) then (DeniedByCeiling, book)
    else
      match G.Charge(c.grant, c.clock, book)
      case Err(e) => (if e.NaiveClock? then Raised else LedgerRefused, book)
      case Ok(r) =>
        (if r.0.allowed then Fetching else DeniedByLedger(r.0.limit), book + [r.1])
  }

  method MediateWithGrant(ledger: G.GrantLedger, c: Call) returns (outcome: Outcome)
    modifies ledger
    ensures (outcome, ledger.book) == Mediated(c, old(ledger.book))
  {
    if c.request.None? {
      return BadRequest;
    }
    var request := c.request.value;
    if !Allowed(c.policy, request) {
      return DeniedByGrantPolicy;
    }
    if c.ceiling.Some? && !Allowed(c.ceiling.value, request) {
      return DeniedByCeiling;
    }
    var decision := ledger.Record(c.grant, c.clock);
    match decision {
      case Err(e) =>
        return if e.NaiveClock? then Raised else LedgerRefused;
      case Ok(d) =>
        if !d.allowed {
          return DeniedByLedger(d.limit);
        }
        return Fetching;
    }
  }

  /** The request was understood and clears the grant's own allowlist and the ceiling, if there is one. */
  predicate Cleared(c: Call) {
    && c.request.Some? && Allowed(c.policy, c.request.value)
    && (c.ceiling.Some? ==> Allowed(c.ceiling.value, c.request.value))
  }

  /** What one undisturbed call does: a refusal by the parser or by either allowlist appends nothing, a refusal by the
      ledger appends a line that spends nothing, and a fetch costs exactly one call of its own grant. */
  lemma OneCallOneLine(c: Call, book: seq<G.Line>, id: string)
    ensures var (outcome, after) := Mediated(c, book);
      && (outcome.BadRequest? || outcome.DeniedByGrantPolicy? || outcome.DeniedByCeiling? <==> !Cleared(c))
      && (!Cleared(c) || outcome.Raised? || outcome.LedgerRefused? ==> after == book)
      && (outcome.DeniedByLedger? ==> outcome.limit.Some? && |after| == |book| + 1)
      && (outcome.Fetching? ==> |after| == |book| + 1)
      && G.CallsIn(after, id) == G.CallsIn(book, id) + if outcome.Fetching? && c.grant.grantId == id then 1 else 0
  {
    var charge := G.Charge(c.grant, c.clock, book);
    if charge.Ok? {
      GS.CallsOneMore(book, charge.value.1, id);
    }
  }

  // ---------- what the gates look at ----------

  /** The method is listed, the URL matches an entry, and no header but the three. */
  ghost predicate Passes(p: Policy, r: Request) {
    && r.verb in p.methods
    && (exists i :: MatchOf(p, r.url) == Some(i))
    && forall h | h in r.headers :: h == Of("accept") || h == Of("content-type") || h == Of("user-agent")
  }

  lemma AllowedIff(p: Policy, r: Request)
    ensures Allowed(p, r) <==> Passes(p, r)
  {
    hide MatchOf, Of;
    if MatchOf(p, r.url).Some? {
      assert MatchOf(p, r.url) == Some(MatchOf(p, r.url).value);
    }
    if Allowed(p, r) {
      forall h | h in r.headers ensures h == Of("accept") || h == Of("content-type") || h == Of("user-agent") {
        var i :| 0 <= i < |r.headers| && r.headers[i] == h;
      }
    }
    if Passes(p, r) {
      forall i | 0 <= i < |r.headers| ensures r.headers[i] in ALLOWED_HEADERS {
        assert r.headers[i] in r.headers;
      }
    }
  }

  /** A call is refused by the parser, the grant's allowlist or the ceiling exactly when that gate fails and none before
      it did; it comes to the ledger exactly when the request passes them all. */
  lemma RefusedExactly(c: Call, book: seq<G.Line>)
    ensures var outcome := Mediated(c, book).0;
      && (outcome.BadRequest? <==> c.request.None?)
      && (outcome.DeniedByGrantPolicy? <==> c.request.Some? && !Passes(c.policy, c.request.value))
      && (outcome.DeniedByCeiling? <==>
            c.request.Some? && Passes(c.policy, c.request.value) &&
            c.ceiling.Some? && !Passes(c.ceiling.value, c.request.value))
      && (Charged(outcome) <==> Clean(c))
  {
    hide Passes, Allowed;
    if c.request.Some? {
      AllowedIff(c.policy, c.request.value);
      if c.ceiling.Some? {
        AllowedIff(c.ceiling.value, c.request.value);
      }
    }
  }

  /** The ledger was asked. */
  predicate Charged(outcome: Outcome) {
    outcome.Fetching? || outcome.DeniedByLedger? || outcome.LedgerRefused? || outcome.Raised?
  }

  /** The request passes the grant's own allowlist and the ceiling's. */
  ghost predicate Clean(c: Call) {
    && c.request.Some? && Passes(c.policy, c.request.value)
    && (c.ceiling.Some? ==> Passes(c.ceiling.value, c.request.value))
  }

  lemma ClearedIsClean(c: Call)
    ensures Cleared(c) <==> Clean(c)
  {
    hide Passes, Allowed;
    if c.request.Some? {
      AllowedIff(c.policy, c.request.value);
      if c.ceiling.Some? {
        AllowedIff(c.ceiling.value, c.request.value);
      }
    }
  }

  /** The URL lies below some entry of the policy. */
  ghost predicate Within(p: Policy, u: Url) {
    exists i | 0 <= i < |p.entries| :: Contained(p.high, u, p.entries[i])
  }

  /** Under valid policies the URL of every request that reaches the ledger lies below an entry of both. */
  lemma CleanIsContained(c: Call)
    requires Clean(c) && PolicyOk(c.policy) && (c.ceiling.Some? ==> PolicyOk(c.ceiling.value))
    ensures Within(c.policy, c.request.value.url)
    ensures c.ceiling.Some? ==> Within(c.ceiling.value, c.request.value.url)
  {
    hide MatchOf, Contained, EntriesOk;
    AcceptedUrlIsContained(c.policy, c.request.value.url);
    if c.ceiling.Some? {
      AcceptedUrlIsContained(c.ceiling.value, c.request.value.url);
    }
  }

  /** The state the ledger decided on is what the outcome says. */
  lemma LedgerOutcome(c: Call, book: seq<G.Line>)
    requires Clean(c)
    ensures var charge, outcome := G.Charge(c.grant, c.clock, book), Mediated(c, book).0;
      && (outcome.Fetching? <==> charge.Ok? && charge.value.0.allowed)
      && (outcome.Raised? <==> charge.Err? && charge.error.NaiveClock?)
      && (outcome.DeniedByLedger? ==> outcome.limit == charge.value.0.limit)
      && (outcome.LedgerRefused? <==> charge.Err? && !charge.error.NaiveClock?)
  {
    hide Passes, G.Charge;
    ClearedIsClean(c);
  }
}
