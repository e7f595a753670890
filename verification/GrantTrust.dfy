/** Egress grants as documents, the envelope an operator signs, and the trust root that reads it back and checks its
    signatures. */
module GrantTrust {
  import opened Prelude
  import opened Texts
  import opened Decimals
  import opened Json
  import opened Jcs
  import opened JsonParser
  import Base64
  import Dsse

  const GRANT_VERSION: Text := Of("grant_version")
  const GRANT_ID: Text := Of("grant_id")
  const TOOL: Text := Of("tool")
  const ALLOWED_ENDPOINTS: Text := Of("allowed_endpoints")
  const ALLOWED_METHODS: Text := Of("allowed_methods")
  const NOT_BEFORE: Text := Of("not_before")
  const NOT_AFTER: Text := Of("not_after")
  const MAX_CALLS: Text := Of("max_calls")
  const KEY_ID: Text := Of("key_id")
  const ENFORCED: Text := Of("enforced")
  const SCHEMA: Text := Of("egress-grant.v1")
  const ALLOWLIST_ONLY: Text := Of("allowlist-only")

  const PAYLOAD_TYPE: Text := Of("payloadType")
  const PAYLOAD: Text := Of("payload")
  const SIGNATURES: Text := Of("signatures")
  const ALG: Text := Of("alg")
  const KEYID: Text := Of("keyid")
  const SIG: Text := Of("sig")
  const EDDSA: Text := Of("EdDSA")

  /** A grant's fields are whatever the document held; `Null` is `None`. */
  datatype Grant = Grant(
    grantId: Json, tool: Json, endpoints: seq<Json>, methods: seq<Json>,
    notBefore: Json, notAfter: Json, maxCalls: Json, keyId: Json)

  datatype Status = Active | Transition | Retired

  datatype TrustedKey = TrustedKey(keyId: Text, alg: Text, status: Status, notBefore: Json, notAfter: Json)

  datatype TrustRoot = TrustRoot(audience: Text, keys: seq<TrustedKey>)

  /** What is not computed here: the allowlist check of a grant's endpoints and methods, reading a time stamp with an
      offset, and the signature check of one trusted key. */
  datatype Env = Env(
    policyOk: (seq<Json>, seq<Json>) -> bool,
    stamp: Text -> Option<int>,
    verify: (TrustedKey, Bytes, Bytes) -> bool)

  type Signer = Bytes -> Option<Bytes>

  datatype TrustError =
    | NaiveClock | NotEnvelope | Unsigned | WrongAudience | NoPayload | BadPayload | NoSignatures | NoPae
    | BadSignatureEntry | UnknownKey | RetiredKey | WrongAlg | KeyWindow | BadSignature | DoesNotVerify
    | NotJson | NotObject | BadDocument | NotRebuildable | NotCanonicalPayload | BadBound | BadCap
    | NoKeyId | WrongKey | Expired | KeyMismatch | SignerFailed

  // ---------- grants and documents ----------

  /** Python's truth value. */
  predicate Truthy(v: Json) {
    match v
    case Null => false
    case Bool(b) => b
    case Int(n) => n != 0
    case Num(d) => d.m != 0
    case MinusZero => false
    case NotFinite(_) => true
    case Str(s) => s != []
    case Arr(items) => items != []
    case Obj(members) => members != []
  }

  /** Everything but none, false, zero and the empty ones. */
  predicate Present(v: Json) {
    && v !in {Null, Bool(false), Int(0), MinusZero, Str([]), Arr([]), Obj([])}
    && (v.Num? ==> !SameNumber(v.d, Decimal(0, 0)))
  }

  lemma FalsyAre(v: Json)
    ensures Truthy(v) <==> Present(v)
  {
    if v.Num? {
      ScalePositive(v.d.m, if v.d.e >= 0 then v.d.e else 0);
      ScaleZero(if v.d.e >= 0 then 0 else -v.d.e);
    }
  }

  function Characters(s: Text): (r: seq<Json>)
    ensures |r| == |s| && forall i | 0 <= i < |s| :: r[i] == Str([s[i]])
  {
    if s == [] then [] else [Str([s[0]])] + Characters(s[1..])
  }

  function Keys(ms: seq<Member>): (r: seq<Json>)
    ensures |r| == |ms| && forall i | 0 <= i < |ms| :: r[i] == Str(ms[i].key)
  {
    if ms == [] then [] else [Str(ms[0].key)] + Keys(ms[1..])
  }

  /** `tuple(v)`. */
  function TupleOf(v: Json): Option<seq<Json>> {
    match v
    case Arr(items) => Some(items)
    case Str(s) => Some(Characters(s))
    case Obj(members) => Some(Keys(members))
    case _ => None
  }

  /** What the constructor accepts. */
  predicate Constructible(env: Env, g: Grant) {
    Truthy(g.grantId) && Truthy(g.tool) && env.policyOk(g.endpoints, g.methods)
  }

  /** `to_dict`. */
  function ToDict(g: Grant): (d: Json)
    ensures d.Obj?
  {
    Obj([Keyed(GRANT_VERSION, Str(SCHEMA)),
         Keyed(GRANT_ID, g.grantId),
         Keyed(TOOL, g.tool),
         Keyed(ALLOWED_ENDPOINTS, Arr(g.endpoints)),
         Keyed(ALLOWED_METHODS, Arr(g.methods)),
         Keyed(NOT_BEFORE, g.notBefore),
         Keyed(NOT_AFTER, g.notAfter),
         Keyed(MAX_CALLS, g.maxCalls),
         Keyed(KEY_ID, g.keyId),
         Keyed(ENFORCED, Str(ALLOWLIST_ONLY))])
  }

  /** `from_document`: unknown keys are ignored here. */
  function FromDocument(env: Env, doc: Json): Result<Grant, TrustError> {
    if !doc.Obj? then Err(BadDocument)
    else
      var ms := doc.members;
      var id, tool := Get(ms, GRANT_ID), Get(ms, TOOL);
      var endpoints, methods := Get(ms, ALLOWED_ENDPOINTS), Get(ms, ALLOWED_METHODS);
      if Get(ms, GRANT_VERSION) != Some(Str(SCHEMA)) then Err(BadDocument)
      else if id.None? || tool.None? || endpoints.None? || methods.None? then Err(BadDocument)
      else if TupleOf(endpoints.value).None? || TupleOf(methods.value).None? then Err(BadDocument)
      else
        var g := Grant(id.value, tool.value, TupleOf(endpoints.value).value, TupleOf(methods.value).value,
                       OrNull(Get(ms, NOT_BEFORE)), OrNull(Get(ms, NOT_AFTER)), OrNull(Get(ms, MAX_CALLS)),
                       OrNull(Get(ms, KEY_ID)));
        if Constructible(env, g) then Ok(g) else Err(BadDocument)
  }

  /** `_parse_bound`: nothing, a moment, or a refusal. */
  function BoundOf(env: Env, v: Json): Result<Option<int>, TrustError> {
    match v
    case Null => Ok(None)
    case Str(s) => if s == [] || env.stamp(s).None? then Err(BadBound) else Ok(env.stamp(s))
    case _ => Err(BadBound)
  }

  predicate CapOk(v: Json) {
    v.Null? || (v.Int? && v.n >= 0)
  }

  /** `_grant_from_payload`: the payload must be the canonical bytes of the grant it decodes to. */
  function GrantOf(env: Env, payload: Bytes): Result<Grant, TrustError> {
    var doc := LoadsBytes(payload);
    if doc.None? then Err(NotJson)
    else if !doc.value.Obj? then Err(NotObject)
    else
      var g :- FromDocument(env, doc.value);
      var canonical := CanonicalBytes(ToDict(g));
      if canonical.Err? then Err(NotRebuildable)
      else if payload != canonical.value then Err(NotCanonicalPayload)
      else if BoundOf(env, g.notBefore).Err? || BoundOf(env, g.notAfter).Err? then Err(BadBound)
      else if !CapOk(g.maxCalls) then Err(BadCap)
      else Ok(g)
  }

  // ---------- the trust root ----------

  /** The first key of that id. */
  function KeyNamed(keys: seq<TrustedKey>, id: Text): Option<TrustedKey> {
    if keys == [] then None
    else if keys[0].keyId == id then Some(keys[0])
    else KeyNamed(keys[1..], id)
  }

  /** A window is closed at its lower bound and open at its upper one; an unreadable bound raises. */
  function WindowOpen(env: Env, key: TrustedKey, moment: int): Result<bool, TrustError> {
    var lower :- BoundOf(env, key.notBefore);
    var upper :- BoundOf(env, key.notAfter);
    Ok(!(lower.Some? && moment < lower.value) && !(upper.Some? && moment >= upper.value))
  }

  /** One entry of the signature list, checked against the key its own `keyid` names; the name is returned. */
  function SignerOf(env: Env, root: TrustRoot, entry: Json, pae: Bytes, moment: int): Result<Text, TrustError> {
    if !entry.Obj? then Err(BadSignatureEntry)
    else
      var id := Get(entry.members, KEYID);
      if id.None? || !id.value.Str? || id.value.s == [] then Err(BadSignatureEntry)
      else if KeyNamed(root.keys, id.value.s).None? then Err(UnknownKey)
      else
        var key := KeyNamed(root.keys, id.value.s).value;
        if key.status.Retired? then Err(RetiredKey)
        else if Get(entry.members, ALG) != Some(Str(key.alg)) then Err(WrongAlg)
        else
          var open :- WindowOpen(env, key, moment);
          if !open then Err(KeyWindow)
          else
            var raw := SignatureBytes(entry);
            if raw.None? then Err(BadSignature)
            else if !env.verify(key, pae, raw.value) then Err(DoesNotVerify)
            else Ok(id.value.s)
  }

  /** A missing `sig` reads as the empty string. */
  function SignatureBytes(entry: Json): Option<Bytes>
    requires entry.Obj?
  {
    var sig := Get(entry.members, SIG);
    if sig.None? then Some([])
    else if !sig.value.Str? then None
    else
      match Base64.Canonical(sig.value.s)
      case Ok(raw) => Some(raw)
      case Err(_) => None
  }

  function SignersOf(
    env: Env, root: TrustRoot, entries: seq<Json>, pae: Bytes, moment: int): Result<seq<Text>, TrustError>
  {
    if entries == [] then Ok([])
    else
      var first :- SignerOf(env, root, entries[0], pae, moment);
      var rest :- SignersOf(env, root, entries[1..], pae, moment);
      Ok([first] + rest)
  }

  /** The payload bytes of an envelope for this audience. */
  function PayloadOf(root: TrustRoot, envelope: Json): Result<Bytes, TrustError> {
    if !envelope.Obj? then Err(NotEnvelope)
    else
      var ms := envelope.members;
      if Get(ms, PAYLOAD_TYPE).None? && Get(ms, GRANT_VERSION).Some? then Err(Unsigned)
      else if Get(ms, PAYLOAD_TYPE) != Some(Str(root.audience)) then Err(WrongAudience)
      else if Get(ms, PAYLOAD).None? || !Get(ms, PAYLOAD).value.Str? then Err(NoPayload)
      else
        match Base64.Canonical(Get(ms, PAYLOAD).value.s)
        case Err(_) => Err(BadPayload)
        case Ok(raw) => Ok(raw)
  }

  /** `verify_envelope`; `None` is a clock without an offset. */
  function Verified(env: Env, root: TrustRoot, envelope: Json, moment: Option<int>): Result<Grant, TrustError> {
    if moment.None? then Err(NaiveClock)
    else
      var payload :- PayloadOf(root, envelope);
      var signatures := Get(envelope.members, SIGNATURES);
      if signatures.None? || !signatures.value.Arr? || signatures.value.items == [] then Err(NoSignatures)
      else
        var pae := Dsse.Pae(payload, root.audience);
        if pae.Err? then Err(NoPae)
        else
          var used :- SignersOf(env, root, signatures.value.items, pae.value, moment.value);
          var g :- GrantOf(env, payload);
          if g.keyId.Null? then Err(NoKeyId)
          else if !(g.keyId.Str? && g.keyId.s in used) then Err(WrongKey)
          else
            var expires :- BoundOf(env, g.notAfter);
            if expires.Some? && moment.value >= expires.value then Err(Expired) else Ok(g)
  }

  lemma {:induction false} SignersSnoc(
    env: Env, root: TrustRoot, entries: seq<Json>, entry: Json, pae: Bytes, moment: int)
    ensures SignersOf(env, root, entries + [entry], pae, moment) ==
      match SignersOf(env, root, entries, pae, moment) {
        case Err(e) => Err(e)
        case Ok(used) =>
          match SignerOf(env, root, entry, pae, moment) {
            case Err(e) => Err(e)
            case Ok(id) => Ok(used + [id])
          }
      }
  {
    hide SignerOf;
    var all := entries + [entry];
    if entries == [] {
      assert all == [entry] && all[1..] == [];
      var last := SignerOf(env, root, entry, pae, moment);
      if last.Ok? {
        assert [last.value] + [] == [] + [last.value];
      }
    } else {
      assert all[0] == entries[0] && all[1..] == entries[1..] + [entry];
      SignersSnoc(env, root, entries[1..], entry, pae, moment);
      var first, rest := SignerOf(env, root, entries[0], pae, moment), SignersOf(env, root, entries[1..], pae, moment);
      var last := SignerOf(env, root, entry, pae, moment);
      if first.Ok? && rest.Ok? && last.Ok? {
        assert [first.value] + (rest.value + [last.value]) == [first.value] + rest.value + [last.value];
      }
    }
  }

  lemma {:induction false} FirstErrorStands(
    env: Env, root: TrustRoot, a: seq<Json>, b: seq<Json>, pae: Bytes, moment: int)
    requires SignersOf(env, root, a, pae, moment).Err?
    ensures SignersOf(env, root, a + b, pae, moment) == SignersOf(env, root, a, pae, moment)
  {
    hide SignerOf;
    assert (a + b)[0] == a[0] && (a + b)[1..] == a[1..] + b;
    if SignerOf(env, root, a[0], pae, moment).Ok? {
      FirstErrorStands(env, root, a[1..], b, pae, moment);
    }
  }

  /** The method form: the signature list is walked once, every entry must pass. */
  method VerifyEnvelope(env: Env, root: TrustRoot, envelope: Json, moment: Option<int>)
    returns (r: Result<Grant, TrustError>)
    ensures r == Verified(env, root, envelope, moment)
  {
    hide SignerOf, GrantOf;
    if moment.None? {
      return Err(NaiveClock);
    }
    var payload :- PayloadOf(root, envelope);
    var signatures := Get(envelope.members, SIGNATURES);
    if signatures.None? || !signatures.value.Arr? || signatures.value.items == [] {
      return Err(NoSignatures);
    }
    var entries := signatures.value.items;
    var pae := Dsse.Pae(payload, root.audience);
    if pae.Err? {
      return Err(NoPae);
    }
    var used: seq<Text> := [];
    for i := 0 to |entries|
      invariant SignersOf(env, root, entries[..i], pae.value, moment.value) == Ok(used)
    {
      var id := SignerOf(env, root, entries[i], pae.value, moment.value);
      SignersSnoc(env, root, entries[..i], entries[i], pae.value, moment.value);
      assert entries[..i + 1] == entries[..i] + [entries[i]];
      if id.Err? {
        FirstErrorStands(env, root, entries[..i + 1], entries[i + 1..], pae.value, moment.value);
        assert entries == entries[..i + 1] + entries[i + 1..];
        return Err(id.error);
      }
      used := used + [id.value];
    }
    assert entries[..|entries|] == entries;
    var g :- GrantOf(env, payload);
    if g.keyId.Null? {
      return Err(NoKeyId);
    }
    if !(g.keyId.Str? && g.keyId.s in used) {
      return Err(WrongKey);
    }
    var expires :- BoundOf(env, g.notAfter);
    if expires.Some? && moment.value >= expires.value {
      return Err(Expired);
    }
    return Ok(g);
  }

  // ---------- issuing ----------

  /** `sign_grant_document`. */
  function SignGrant(g: Grant, signer: Signer, keyId: Text, audience: Text): Result<Json, TrustError> {
    if !g.keyId.Null? && g.keyId != Str(keyId) then Err(KeyMismatch)
    else
      var signed := g.(keyId := Str(keyId));
      var payload := CanonicalBytes(ToDict(signed));
      if payload.Err? then Err(NotRebuildable)
      else
        var pae := Dsse.Pae(payload.value, audience);
        if pae.Err? then Err(NoPae)
        else
          var raw := signer(pae.value);
          if raw.None? || !IsBytes(raw.value) then Err(SignerFailed)
          else Ok(EnvelopeFor(audience, payload.value, keyId, raw.value))
  }

  function EnvelopeFor(audience: Text, payload: Bytes, keyId: Text, raw: Bytes): Json {
    Obj([Keyed(PAYLOAD_TYPE, Str(audience)),
         Keyed(PAYLOAD, Str(Base64.Encode(payload))),
         Keyed(SIGNATURES, Arr([
           Obj([Keyed(ALG, Str(EDDSA)), Keyed(KEYID, Str(keyId)), Keyed(SIG, Str(Base64.Encode(raw)))])]))])
  }
}
