/** Signed grants: reading back, and what is accepted. */
module GrantEnvelope {
  import opened Prelude
  import opened Texts
  import opened Json
  import opened Jcs
  import opened JsonParser
  import opened JcsRoundTrip
  import opened ParsedValues
  import opened GrantTrust
  import Base64
  import Dsse

  // ---------- the document of a grant ----------

  lemma NameLengths()
    ensures |GRANT_VERSION| == 13 && |GRANT_ID| == 8 && |TOOL| == 4
    ensures |ALLOWED_ENDPOINTS| == 17 && |ALLOWED_METHODS| == 15
    ensures |NOT_BEFORE| == 10 && |NOT_AFTER| == 9 && |MAX_CALLS| == 9 && |KEY_ID| == 6 && |ENFORCED| == 8
    ensures GRANT_ID != ENFORCED && NOT_AFTER != MAX_CALLS
    ensures |PAYLOAD_TYPE| == 11 && |PAYLOAD| == 7 && |SIGNATURES| == 10 && |ALG| == 3 && |KEYID| == 5 && |SIG| == 3
    ensures ALG != SIG
  {
    assert GRANT_ID[0] == 'g' as int && ENFORCED[0] == 'e' as int;
    assert NOT_AFTER[0] == 'n' as int && MAX_CALLS[0] == 'm' as int;
    assert ALG[0] == 'a' as int && SIG[0] == 's' as int;
  }

  /** The field names of a grant document, and no others. */
  function FieldNames(): (r: seq<Text>)
    ensures |r| == 10
  {
    [GRANT_VERSION, GRANT_ID, TOOL, ALLOWED_ENDPOINTS, ALLOWED_METHODS,
     NOT_BEFORE, NOT_AFTER, MAX_CALLS, KEY_ID, ENFORCED]
  }

  function FieldValues(g: Grant): (r: seq<Json>)
    ensures |r| == 10
  {
    [Str(SCHEMA), g.grantId, g.tool, Arr(g.endpoints), Arr(g.methods), g.notBefore, g.notAfter, g.maxCalls, g.keyId,
     Str(ALLOWLIST_ONLY)]
  }

  lemma DictIsListed(g: Grant)
    ensures var ms := ToDict(g).members;
      |ms| == 10 && forall i | 0 <= i < 10 :: ms[i] == Keyed(FieldNames()[i], FieldValues(g)[i])
  {
    hide Of;
  }

  lemma NamesDiffer()
    ensures forall i, j | 0 <= i < j < 10 :: FieldNames()[i] != FieldNames()[j]
  {
    hide Of;
    NameLengths();
  }

  lemma DictIsDistinct(g: Grant)
    ensures DistinctKeys(ToDict(g).members)
  {
    hide FieldNames, FieldValues, ToDict;
    DictIsListed(g);
    NamesDiffer();
  }

  /** Each field is found under its name. */
  lemma DictField(g: Grant, i: nat)
    requires i < 10
    ensures Get(ToDict(g).members, FieldNames()[i]) == Some(FieldValues(g)[i])
  {
    hide FieldNames, FieldValues, ToDict;
    DictIsListed(g);
    DictIsDistinct(g);
    GetAt(ToDict(g).members, i);
  }

  // ---------- reading a canonical document back ----------

  lemma KeysAreClean(ms: seq<Member>)
    requires JcsValue(Obj(ms)).Ok?
    ensures CleanKeys(ms)
  {
    JcsSucceedsIff(Obj(ms));
    assert forall i | 0 <= i < |ms| :: Printable(ms[i]);
  }

  /** Field `i` of the document that the canonical bytes decode to. */
  lemma NormField(g: Grant, i: nat)
    requires CanonicalBytes(ToDict(g)).Ok? && i < 10
    ensures Norm(ToDict(g)).Obj?
    ensures Get(Norm(ToDict(g)).members, FieldNames()[i]) == Some(Norm(FieldValues(g)[i]))
  {
    hide FieldNames, FieldValues, ToDict, Norm, JcsValue, Get;
    DictIsListed(g);
    DictIsDistinct(g);
    DictField(g, i);
    KeysAreClean(ToDict(g).members);
    NormIsObject(ToDict(g));
    GetNorm(ToDict(g).members, FieldNames()[i]);
  }

  lemma NormIsObject(v: Json)
    requires v.Obj?
    ensures Norm(v).Obj?
  {
  }

  predicate AllStrings(items: seq<Json>) {
    items == [] || (items[0].Str? && AllStrings(items[1..]))
  }

  predicate NullOrString(v: Json) {
    v.Null? || v.Str?
  }

  /** The field types that `EgressGrant` declares. */
  predicate Typed(g: Grant) {
    && g.grantId.Str? && g.tool.Str? && AllStrings(g.endpoints) && AllStrings(g.methods)
    && NullOrString(g.notBefore) && NullOrString(g.notAfter) && NullOrString(g.keyId)
    && (g.maxCalls.Null? || g.maxCalls.Int?)
  }

  lemma {:induction false} StringsAreNormal(items: seq<Json>, whole: Json)
    requires AllStrings(items) && forall i | 0 <= i < |items| :: items[i] < whole
    ensures NormItems(items, whole) == items
    ensures forall i | 0 <= i < |items| :: items[i].Str?
  {
    if items != [] {
      StringsAreNormal(items[1..], whole);
      assert forall i | 0 < i < |items| :: items[i] == items[1..][i - 1];
    }
  }

  lemma ScalarIsNormal(v: Json)
    requires v.Null? || v.Str? || v.Int?
    ensures Norm(v) == v && WellFormed(v)
  {
  }

  lemma StringListIsNormal(items: seq<Json>)
    requires AllStrings(items)
    ensures Norm(Arr(items)) == Arr(items) && WellFormed(Arr(items))
  {
    StringsAreNormal(items, Arr(items));
  }

  lemma FieldsAreNormal(g: Grant, i: nat)
    requires Typed(g) && i < 10
    ensures Norm(FieldValues(g)[i]) == FieldValues(g)[i] && WellFormed(FieldValues(g)[i])
  {
    hide Of, Norm, WellFormed, AllStrings;
    StringListIsNormal(g.endpoints);
    StringListIsNormal(g.methods);
    if i != 3 && i != 4 {
      ScalarIsNormal(FieldValues(g)[i]);
    }
  }

  lemma DictIsWellFormed(g: Grant)
    requires forall i | 0 <= i < 10 :: WellFormed(FieldValues(g)[i])
    ensures WellFormed(ToDict(g))
  {
    hide FieldNames, FieldValues, ToDict;
    DictIsListed(g);
    DictIsDistinct(g);
  }

  /** Reading a document with exactly these fields gives the grant back. */
  lemma DocumentReadsBack(env: Env, g: Grant, doc: Json)
    requires doc.Obj?
    requires forall i | 0 <= i < 10 :: Get(doc.members, FieldNames()[i]) == Some(FieldValues(g)[i])
    ensures FromDocument(env, doc) == if Constructible(env, g) then Ok(g) else Err(BadDocument)
  {
    hide Of, Get, Truthy;
    assert FieldNames()[0] == GRANT_VERSION && FieldNames()[1] == GRANT_ID && FieldNames()[2] == TOOL;
    assert FieldNames()[3] == ALLOWED_ENDPOINTS && FieldNames()[4] == ALLOWED_METHODS && FieldNames()[5] == NOT_BEFORE;
    assert FieldNames()[6] == NOT_AFTER && FieldNames()[7] == MAX_CALLS && FieldNames()[8] == KEY_ID;
  }

  /** The grant names itself and its tool, and its allowlist is a valid one. */
  predicate Complete(env: Env, g: Grant) {
    Present(g.grantId) && Present(g.tool) && env.policyOk(g.endpoints, g.methods)
  }

  lemma CompleteIff(env: Env, g: Grant)
    ensures Constructible(env, g) <==> Complete(env, g)
  {
    hide Truthy, Present;
    FalsyAre(g.grantId);
    FalsyAre(g.tool);
  }

  /** A bound is absent, or a stamp that can be read. */
  predicate Readable(env: Env, v: Json) {
    v.Null? || (v.Str? && v.s != [] && env.stamp(v.s).Some?)
  }

  /** What the payload step adds: readable bounds, and a cap that is absent or a natural number. */
  predicate Enforceable(env: Env, g: Grant) {
    && Readable(env, g.notBefore) && Readable(env, g.notAfter)
    && (g.maxCalls.Null? || (g.maxCalls.Int? && g.maxCalls.n >= 0))
  }

  lemma BoundIs(env: Env, v: Json)
    ensures BoundOf(env, v).Ok? <==> Readable(env, v)
    ensures Readable(env, v) ==> BoundOf(env, v).value == if v.Null? then None else env.stamp(v.s)
  {
  }

  lemma CanonicalDocumentReadsBack(env: Env, g: Grant)
    requires Typed(g) && CanonicalBytes(ToDict(g)).Ok?
    ensures var doc := LoadsBytes(CanonicalBytes(ToDict(g)).value);
      && doc.Some? && doc.value.Obj?
      && FromDocument(env, doc.value) == if Complete(env, g) then Ok(g) else Err(BadDocument)
  {
    hide FieldNames, FieldValues, ToDict, Norm, WellFormed, CanonicalBytes, LoadsBytes;
    hide FromDocument, Get, Typed, Constructible, Complete;
    CompleteIff(env, g);
    forall i | 0 <= i < 10 ensures WellFormed(FieldValues(g)[i]) {
      FieldsAreNormal(g, i);
    }
    DictIsWellFormed(g);
    CanonicalBytesReadBack(ToDict(g));
    var doc := Norm(ToDict(g));
    NormIsObject(ToDict(g));
    forall i | 0 <= i < 10 ensures Get(doc.members, FieldNames()[i]) == Some(FieldValues(g)[i]) {
      FieldsAreNormal(g, i);
      NormField(g, i);
    }
    DocumentReadsBack(env, g, doc);
  }

  /** The canonical bytes of a grant read back as that grant, exactly when it is complete and the enforcement layer can
      use it. */
  lemma GrantReadsBack(env: Env, g: Grant)
    requires Typed(g) && CanonicalBytes(ToDict(g)).Ok?
    ensures var r := GrantOf(env, CanonicalBytes(ToDict(g)).value);
      (r.Ok? <==> Complete(env, g) && Enforceable(env, g)) && (r.Ok? ==> r == Ok(g))
  {
    hide ToDict, CanonicalBytes, LoadsBytes, FromDocument, Typed, Complete, BoundOf, Readable;
    CanonicalDocumentReadsBack(env, g);
    BoundIs(env, g.notBefore);
    BoundIs(env, g.notAfter);
  }

  // ---------- signing, then verifying ----------

  lemma EnvelopeFields(audience: Text, payload: Bytes, keyId: Text, raw: Bytes)
    ensures var e := EnvelopeFor(audience, payload, keyId, raw);
      && e.Obj?
      && Get(e.members, PAYLOAD_TYPE) == Some(Str(audience))
      && Get(e.members, PAYLOAD) == Some(Str(Base64.Encode(payload)))
      && Get(e.members, SIGNATURES) == Some(Arr([SignatureEntry(keyId, raw)]))
  {
    hide Of, Get, Base64.Encode;
    NameLengths();
    var ms := EnvelopeFor(audience, payload, keyId, raw).members;
    FirstAt(ms, PAYLOAD_TYPE, 0);
    FirstAt(ms, PAYLOAD, 1);
    FirstAt(ms, SIGNATURES, 2);
  }

  function SignatureEntry(keyId: Text, raw: Bytes): (e: Json)
    ensures e.Obj?
  {
    Obj([Keyed(ALG, Str(EDDSA)), Keyed(KEYID, Str(keyId)), Keyed(SIG, Str(Base64.Encode(raw)))])
  }

  lemma SignatureFields(keyId: Text, raw: Bytes)
    requires IsBytes(raw)
    ensures var e := SignatureEntry(keyId, raw);
      && Get(e.members, ALG) == Some(Str(EDDSA)) && Get(e.members, KEYID) == Some(Str(keyId))
      && SignatureBytes(e) == Some(raw)
  {
    hide Of, Get, Base64.Encode, Base64.Canonical;
    NameLengths();
    var ms := SignatureEntry(keyId, raw).members;
    FirstAt(ms, ALG, 0);
    FirstAt(ms, KEYID, 1);
    FirstAt(ms, SIG, 2);
    Base64.CanonicalIffEncoded(Base64.Encode(raw), raw);
  }

  /** The trusted key still vouches at `moment`: it is not retired, its bounds are readable, and the moment is neither
      before the stamp of the lower one nor at or past the stamp of the upper one. */
  predicate Vouches(env: Env, key: TrustedKey, moment: int) {
    && !key.status.Retired? && Readable(env, key.notBefore) && Readable(env, key.notAfter)
    && (key.notBefore.Str? ==> env.stamp(key.notBefore.s).value <= moment)
    && (key.notAfter.Str? ==> moment < env.stamp(key.notAfter.s).value)
  }

  /** The window check passes a key that is not retired exactly when the key vouches. */
  lemma WindowIs(env: Env, key: TrustedKey, moment: int)
    requires !key.status.Retired?
    ensures WindowOpen(env, key, moment) == Ok(true) <==> Vouches(env, key, moment)
  {
    hide BoundOf;
    BoundIs(env, key.notBefore);
    BoundIs(env, key.notAfter);
  }

  /** The key at place `k` is the first of that id. */
  predicate FirstNamed(keys: seq<TrustedKey>, id: Text, k: nat) {
    k < |keys| && keys[k].keyId == id && forall j | 0 <= j < k :: keys[j].keyId != id
  }

  /** A key is found under an id exactly when it is the first that has it. */
  lemma {:induction false} KeyNamedIff(keys: seq<TrustedKey>, id: Text, key: TrustedKey)
    ensures KeyNamed(keys, id) == Some(key) <==> exists k: nat :: FirstNamed(keys, id, k) && keys[k] == key
  {
    if keys == [] {
    } else if keys[0].keyId == id {
      assert FirstNamed(keys, id, 0);
    } else {
      KeyNamedIff(keys[1..], id, key);
      if KeyNamed(keys, id) == Some(key) {
        var k: nat :| FirstNamed(keys[1..], id, k) && keys[1..][k] == key;
        assert forall j | 0 < j < k + 1 :: keys[j] == keys[1..][j - 1];
        assert FirstNamed(keys, id, k + 1) && keys[k + 1] == key;
      }
      if k: nat :| FirstNamed(keys, id, k) && keys[k] == key {
        assert forall j | 0 <= j < |keys| - 1 :: keys[1..][j] == keys[j + 1];
        assert FirstNamed(keys[1..], id, k - 1) && keys[1..][k - 1] == key;
      }
    }
  }

  lemma SignatureAccepted(env: Env, root: TrustRoot, keyId: Text, raw: Bytes, pae: Bytes, moment: int)
    requires IsBytes(raw) && keyId != [] && KeyNamed(root.keys, keyId).Some?
    requires KeyNamed(root.keys, keyId).value.alg == EDDSA && env.verify(KeyNamed(root.keys, keyId).value, pae, raw)
    ensures var r := SignersOf(env, root, [SignatureEntry(keyId, raw)], pae, moment);
      (r.Ok? <==> Vouches(env, KeyNamed(root.keys, keyId).value, moment)) && (r.Ok? ==> r == Ok([keyId]))
  {
    hide Of, SignatureBytes, SignatureEntry, KeyNamed, WindowOpen, Readable;
    if !KeyNamed(root.keys, keyId).value.status.Retired? {
      WindowIs(env, KeyNamed(root.keys, keyId).value, moment);
    }
    SignatureFields(keyId, raw);
    var entries := [SignatureEntry(keyId, raw)];
    assert entries[1..] == [];
    assert [keyId] + [] == [keyId];
  }

  /** The moment is before the stamp of the upper bound, if there is one. */
  predicate NotExpired(env: Env, g: Grant, moment: int) {
    g.notAfter.Str? ==> env.stamp(g.notAfter.s).Some? && moment < env.stamp(g.notAfter.s).value
  }

  lemma CanonicalAreBytes(v: Json)
    requires CanonicalBytes(v).Ok?
    ensures IsBytes(CanonicalBytes(v).value)
  {
    JcsIsClean(v);
    Utf8IsBytes(JcsValue(v).value);
  }

  lemma {:induction false} Utf8IsBytes(s: Text)
    requires SurrogateFree(s)
    ensures IsBytes(Utf8(s))
  {
    if s != [] {
      Utf8IsBytes(s[1..]);
      PointIsBytes(s[0]);
    }
  }

  lemma PointIsBytes(c: CodePoint)
    requires Scalar(c)
    ensures IsBytes(PointBytes(c))
  {
  }

  /** An envelope that `sign_grant_document` made verifies to the very grant, now naming the signing key, exactly when
      that key is not retired and inside its window, the grant is complete with usable bounds and cap, and it has not
      expired. */
  lemma SignedGrantVerifiesIff(env: Env, root: TrustRoot, g: Grant, signer: Signer, keyId: Text, k: nat, moment: int)
    requires Typed(g) && keyId != []
    requires SignGrant(g, signer, keyId, root.audience).Ok?
    requires FirstNamed(root.keys, keyId, k) && root.keys[k].alg == EDDSA
    requires forall m :: signer(m).Some? ==> env.verify(root.keys[k], m, signer(m).value)
    ensures var r := Verified(env, root, SignGrant(g, signer, keyId, root.audience).value, Some(moment));
      && (r.Ok? <==>
            Vouches(env, root.keys[k], moment) && Complete(env, g) && Enforceable(env, g) && NotExpired(env, g, moment))
      && (r.Ok? ==> r == Ok(g.(keyId := Str(keyId))))
  {
    hide Of, ToDict, CanonicalBytes, Dsse.Pae, GrantOf, SignersOf, EnvelopeFor, KeyNamed, Get, SignatureEntry, Vouches;
    hide Base64.Canonical, Base64.Encode, BoundOf, AllStrings, IsBytes;
    KeyNamedIff(root.keys, keyId, root.keys[k]);
    BoundIs(env, g.notAfter);
    var signed := g.(keyId := Str(keyId));
    var payload := CanonicalBytes(ToDict(signed)).value;
    var pae := Dsse.Pae(payload, root.audience).value;
    var raw := signer(pae).value;
    EnvelopeFields(root.audience, payload, keyId, raw);
    CanonicalAreBytes(ToDict(signed));
    Base64.CanonicalIffEncoded(Base64.Encode(payload), payload);
    SignatureAccepted(env, root, keyId, raw, pae, moment);
    GrantReadsBack(env, signed);
    assert Complete(env, signed) <==> Complete(env, g);
    assert keyId in [keyId];
  }

  /** Signing succeeds exactly for a grant that names no other key, can be canonicalized and is not too long, when the
      signer answers with bytes. */
  lemma SignsExactly(g: Grant, signer: Signer, keyId: Text, audience: Text)
    ensures var doc := CanonicalBytes(ToDict(g.(keyId := Str(keyId))));
      SignGrant(g, signer, keyId, audience).Ok? <==>
        && (g.keyId == Null || g.keyId == Str(keyId))
        && doc.Ok? && Dsse.Pae(doc.value, audience).Ok?
        && signer(Dsse.Pae(doc.value, audience).value).Some?
        && IsBytes(signer(Dsse.Pae(doc.value, audience).value).value)
  {
    hide CanonicalBytes, ToDict, Dsse.Pae, EnvelopeFor;
  }

  // ---------- what an accepted envelope must be ----------

  lemma {:induction false} CharactersAreFlat(s: Text)
    ensures forall i | 0 <= i < |Characters(s)| :: WellFormed(Characters(s)[i])
  {
    if s != [] {
      CharactersAreFlat(s[1..]);
    }
  }

  lemma {:induction false} KeysAreFlat(ms: seq<Member>)
    ensures forall i | 0 <= i < |Keys(ms)| :: WellFormed(Keys(ms)[i])
  {
    if ms != [] {
      KeysAreFlat(ms[1..]);
    }
  }

  lemma TupleIsWellFormed(v: Json)
    requires WellFormed(v) && TupleOf(v).Some?
    ensures WellFormed(Arr(TupleOf(v).value))
  {
    match v
    case Str(s) => CharactersAreFlat(s);
    case Obj(members) => KeysAreFlat(members);
    case _ =>
  }

  lemma FieldIsWellFormed(doc: Json, key: Text)
    requires doc.Obj? && WellFormed(doc)
    ensures WellFormed(OrNull(Get(doc.members, key)))
  {
    var ms := doc.members;
    GetNone(ms, key);
    if HasKey(ms, key) {
      var i :| 0 <= i < |ms| && ms[i].key == key;
      GetAt(ms, i);
    }
  }

  lemma ReadGrantIsWellFormed(env: Env, doc: Json)
    requires doc.Obj? && WellFormed(doc) && FromDocument(env, doc).Ok?
    ensures WellFormed(ToDict(FromDocument(env, doc).value))
  {
    hide Of, Get, TupleOf, Truthy, WellFormed, ToDict;
    FieldIsWellFormed(doc, GRANT_ID);
    FieldIsWellFormed(doc, TOOL);
    FieldIsWellFormed(doc, ALLOWED_ENDPOINTS);
    FieldIsWellFormed(doc, ALLOWED_METHODS);
    FieldIsWellFormed(doc, NOT_BEFORE);
    FieldIsWellFormed(doc, NOT_AFTER);
    FieldIsWellFormed(doc, MAX_CALLS);
    FieldIsWellFormed(doc, KEY_ID);
    TupleIsWellFormed(Get(doc.members, ALLOWED_ENDPOINTS).value);
    TupleIsWellFormed(Get(doc.members, ALLOWED_METHODS).value);
    StringIsWellFormed(SCHEMA);
    StringIsWellFormed(ALLOWLIST_ONLY);
    DictIsWellFormed(FromDocument(env, doc).value);
  }

  lemma StringIsWellFormed(s: Text)
    ensures WellFormed(Str(s))
  {
  }

  /** A payload that reads as a grant is the canonical form of that grant and of nothing else: the document it decodes
      to holds the ten fields of the grant, unchanged, and no other. */
  lemma PayloadIsCanonical(env: Env, payload: Bytes)
    requires GrantOf(env, payload).Ok?
    ensures var g := GrantOf(env, payload).value;
      && CanonicalBytes(ToDict(g)) == Ok(payload) && WellFormed(ToDict(g))
      && LoadsBytes(payload) == Some(Norm(ToDict(g)))
      && Complete(env, g) && Enforceable(env, g)
  {
    hide Of, Get, ToDict, LoadsBytes, CanonicalBytes, WellFormed, TupleOf, Norm, Truthy, BoundOf;
    CompleteIff(env, GrantOf(env, payload).value);
    BoundIs(env, GrantOf(env, payload).value.notBefore);
    BoundIs(env, GrantOf(env, payload).value.notAfter);
    LoadedIsWellFormed(payload);
    ReadGrantIsWellFormed(env, LoadsBytes(payload).value);
    CanonicalBytesReadBack(ToDict(GrantOf(env, payload).value));
  }

  /** A signature entry made by trusted key `id` over exactly these bytes, while the key vouches. */
  ghost predicate SignedBy(env: Env, root: TrustRoot, entry: Json, pae: Bytes, moment: int, id: Text) {
    && entry.Obj? && Get(entry.members, KEYID) == Some(Str(id)) && id != []
    && exists k: nat :: FirstNamed(root.keys, id, k) && SignedWith(env, root.keys[k], entry, pae, moment)
  }

  /** The key vouches, the entry names its algorithm, and holds the one base64 text of a signature that verifies under
      it; no signature at all stands for the empty one. */
  ghost predicate SignedWith(env: Env, key: TrustedKey, entry: Json, pae: Bytes, moment: int)
    requires entry.Obj?
  {
    && Vouches(env, key, moment) && Get(entry.members, ALG) == Some(Str(key.alg))
    && exists raw :: SignatureIs(entry, raw) && env.verify(key, pae, raw)
  }

  predicate SignatureIs(entry: Json, raw: Bytes)
    requires entry.Obj?
  {
    IsBytes(raw) &&
    if Get(entry.members, SIG).None? then raw == [] else Get(entry.members, SIG) == Some(Str(Base64.Encode(raw)))
  }

  lemma SignatureBytesIs(entry: Json)
    requires entry.Obj? && SignatureBytes(entry).Some?
    ensures SignatureIs(entry, SignatureBytes(entry).value)
  {
    hide Of, Get, Base64.Canonical, Base64.Encode;
    if Get(entry.members, SIG).Some? {
      var text := Get(entry.members, SIG).value.s;
      Base64.AcceptedIffEncoding(text);
      var raw :| IsBytes(raw) && text == Base64.Encode(raw);
      Base64.CanonicalIffEncoded(text, raw);
    }
  }

  lemma SignerSigned(env: Env, root: TrustRoot, entry: Json, pae: Bytes, moment: int)
    requires SignerOf(env, root, entry, pae, moment).Ok?
    ensures SignedBy(env, root, entry, pae, moment, SignerOf(env, root, entry, pae, moment).value)
  {
    hide KeyNamed, SignatureBytes, WindowOpen, Get, Of, Vouches;
    var id := SignerOf(env, root, entry, pae, moment).value;
    var key := KeyNamed(root.keys, id).value;
    WindowIs(env, key, moment);
    KeyNamedIff(root.keys, id, key);
    var k: nat :| FirstNamed(root.keys, id, k) && root.keys[k] == key;
    SignatureBytesIs(entry);
    assert SignedWith(env, root.keys[k], entry, pae, moment);
  }

  ghost predicate Trusted(env: Env, root: TrustRoot, entry: Json, pae: Bytes, moment: int) {
    exists id :: SignedBy(env, root, entry, pae, moment, id)
  }

  lemma {:induction false} EverySignerSigned(
    env: Env, root: TrustRoot, entries: seq<Json>, pae: Bytes, moment: int)
    requires SignersOf(env, root, entries, pae, moment).Ok?
    ensures var used := SignersOf(env, root, entries, pae, moment).value;
      |used| == |entries| && forall i | 0 <= i < |used| :: SignedBy(env, root, entries[i], pae, moment, used[i])
  {
    if entries != [] {
      hide SignedBy, SignerOf;
      SignerSigned(env, root, entries[0], pae, moment);
      EverySignerSigned(env, root, entries[1..], pae, moment);
      var used := SignersOf(env, root, entries, pae, moment).value;
      forall i | 0 <= i < |used| ensures SignedBy(env, root, entries[i], pae, moment, used[i]) {
        if i > 0 {
          assert entries[i] == entries[1..][i - 1];
        }
      }
    }
  }

  /** Every accepted envelope: its payload text is the one canonical base64 of the canonical bytes of the grant it
      returns, every listed signature was made over that payload by a trusted key that still vouches, the grant names
      one of those keys, and it has not expired. */
  lemma AcceptedEnvelopeIs(env: Env, root: TrustRoot, envelope: Json, moment: Option<int>)
    requires Verified(env, root, envelope, moment).Ok?
    ensures moment.Some? && envelope.Obj?
    ensures var g := Verified(env, root, envelope, moment).value;
      && CanonicalBytes(ToDict(g)).Ok? && WellFormed(ToDict(g))
      && var payload := CanonicalBytes(ToDict(g)).value;
      && Get(envelope.members, PAYLOAD_TYPE) == Some(Str(root.audience))
      && Get(envelope.members, PAYLOAD) == Some(Str(Base64.Encode(payload)))
      && LoadsBytes(payload) == Some(Norm(ToDict(g)))
      && Complete(env, g) && Enforceable(env, g) && NotExpired(env, g, moment.value)
    ensures var g := Verified(env, root, envelope, moment).value;
      var pae := Dsse.Pae(CanonicalBytes(ToDict(g)).value, root.audience);
      var entries := OrNull(Get(envelope.members, SIGNATURES));
      && pae.Ok? && entries.Arr? && entries.items != []
      && (forall i | 0 <= i < |entries.items| :: Trusted(env, root, entries.items[i], pae.value, moment.value))
      && (exists i :: 0 <= i < |entries.items| && g.keyId.Str? &&
            SignedBy(env, root, entries.items[i], pae.value, moment.value, g.keyId.s))
  {
    hide Of, Get, ToDict, LoadsBytes, CanonicalBytes, WellFormed, Norm, Complete;
    hide BoundOf, SignersOf, GrantOf, SignedBy;
    hide Dsse.Pae, Base64.Encode, Base64.Decode;
    var payload := PayloadOf(root, envelope).value;
    PayloadIsCanonical(env, payload);
    var g := Verified(env, root, envelope, moment).value;
    BoundIs(env, g.notAfter);
    var entries := Get(envelope.members, SIGNATURES).value.items;
    var pae := Dsse.Pae(payload, root.audience).value;
    EverySignerSigned(env, root, entries, pae, moment.value);
    var used := SignersOf(env, root, entries, pae, moment.value).value;
    forall j | 0 <= j < |entries| ensures Trusted(env, root, entries[j], pae, moment.value) {
      assert SignedBy(env, root, entries[j], pae, moment.value, used[j]);
    }
    var i :| 0 <= i < |used| && used[i] == g.keyId.s;
    assert SignedBy(env, root, entries[i], pae, moment.value, g.keyId.s);
  }

  // ---------- and everything of that kind is accepted ----------

  /** Every field is as a JSON text gives it. */
  predicate Normal(g: Grant) {
    forall i | 0 <= i < 10 :: Norm(FieldValues(g)[i]) == FieldValues(g)[i]
  }

  /** What a payload must be to read as `g`. */
  ghost predicate PayloadIs(env: Env, payload: Bytes, g: Grant) {
    && CanonicalBytes(ToDict(g)) == Ok(payload) && WellFormed(ToDict(g)) && Normal(g)
    && Complete(env, g) && Enforceable(env, g)
  }

  lemma ReadGrantIsNormal(env: Env, payload: Bytes)
    requires GrantOf(env, payload).Ok?
    ensures Normal(GrantOf(env, payload).value)
  {
    hide Of, Get, ToDict, LoadsBytes, CanonicalBytes, WellFormed, Norm, Truthy, BoundOf;
    PayloadIsCanonical(env, payload);
    var g := GrantOf(env, payload).value;
    forall i | 0 <= i < 10 ensures Norm(FieldValues(g)[i]) == FieldValues(g)[i] {
      NormField(g, i);
      FieldIsRead(env, LoadsBytes(payload).value, g, i);
    }
  }

  /** Each field of the grant is the document's, or null when it may be missing there. */
  lemma FieldIsRead(env: Env, doc: Json, g: Grant, i: nat)
    requires FromDocument(env, doc) == Ok(g) && doc.Obj? && i < 10
    requires Get(doc.members, FieldNames()[i]) == Some(Norm(FieldValues(g)[i]))
    ensures Norm(FieldValues(g)[i]) == FieldValues(g)[i]
  {
    hide Of, Get, Truthy;
    assert FieldNames()[0] == GRANT_VERSION && FieldNames()[1] == GRANT_ID && FieldNames()[2] == TOOL;
    assert FieldNames()[3] == ALLOWED_ENDPOINTS && FieldNames()[4] == ALLOWED_METHODS && FieldNames()[5] == NOT_BEFORE;
    assert FieldNames()[6] == NOT_AFTER && FieldNames()[7] == MAX_CALLS && FieldNames()[8] == KEY_ID;
  }

  /** A payload reads as a grant exactly when it is the canonical form of a complete and enforceable one. */
  lemma GrantOfIff(env: Env, payload: Bytes, g: Grant)
    ensures GrantOf(env, payload) == Ok(g) <==> PayloadIs(env, payload, g)
  {
    hide FieldNames, FieldValues, ToDict, Norm, WellFormed, CanonicalBytes, LoadsBytes, FromDocument, Get, Complete;
    hide BoundOf, Readable, Constructible;
    if GrantOf(env, payload) == Ok(g) {
      PayloadIsCanonical(env, payload);
      ReadGrantIsNormal(env, payload);
    }
    if PayloadIs(env, payload, g) {
      CanonicalBytesReadBack(ToDict(g));
      CompleteIff(env, g);
      BoundIs(env, g.notBefore);
      BoundIs(env, g.notAfter);
      NormIsObject(ToDict(g));
      forall i | 0 <= i < 10 ensures Get(Norm(ToDict(g)).members, FieldNames()[i]) == Some(FieldValues(g)[i]) {
        NormField(g, i);
      }
      DocumentReadsBack(env, g, Norm(ToDict(g)));
    }
  }

  lemma SignerOfIff(env: Env, root: TrustRoot, entry: Json, pae: Bytes, moment: int, id: Text)
    ensures SignerOf(env, root, entry, pae, moment) == Ok(id) <==> SignedBy(env, root, entry, pae, moment, id)
  {
    hide KeyNamed, SignatureBytes, WindowOpen, Get, Of, Vouches;
    if SignerOf(env, root, entry, pae, moment) == Ok(id) {
      SignerSigned(env, root, entry, pae, moment);
    }
    if SignedBy(env, root, entry, pae, moment, id) {
      var k: nat :| FirstNamed(root.keys, id, k) && SignedWith(env, root.keys[k], entry, pae, moment);
      KeyNamedIff(root.keys, id, root.keys[k]);
      var raw :| SignatureIs(entry, raw) && env.verify(root.keys[k], pae, raw);
      SignatureIsRead(entry, raw);
      NotRetired(env, root.keys[k], moment);
      WindowIs(env, root.keys[k], moment);
    }
  }

  lemma NotRetired(env: Env, key: TrustedKey, moment: int)
    requires Vouches(env, key, moment)
    ensures !key.status.Retired?
  {
  }

  lemma SignatureIsRead(entry: Json, raw: Bytes)
    requires entry.Obj? && SignatureIs(entry, raw)
    ensures SignatureBytes(entry) == Some(raw)
  {
    hide Of, Get, Base64.Canonical, Base64.Encode;
    if Get(entry.members, SIG).Some? {
      Base64.CanonicalIffEncoded(Base64.Encode(raw), raw);
    }
  }

  lemma {:induction false} TrustedAreSigners(env: Env, root: TrustRoot, entries: seq<Json>, pae: Bytes, moment: int)
    requires forall i | 0 <= i < |entries| :: Trusted(env, root, entries[i], pae, moment)
    ensures SignersOf(env, root, entries, pae, moment).Ok?
  {
    if entries != [] {
      hide SignedBy, SignerOf;
      assert Trusted(env, root, entries[0], pae, moment);
      var id :| SignedBy(env, root, entries[0], pae, moment, id);
      SignerOfIff(env, root, entries[0], pae, moment, id);
      assert forall i | 0 <= i < |entries| - 1 :: entries[1..][i] == entries[i + 1];
      TrustedAreSigners(env, root, entries[1..], pae, moment);
    }
  }

  /** What an envelope must be to stand for `g` at this root and moment. */
  ghost predicate Stands(env: Env, root: TrustRoot, envelope: Json, moment: int, g: Grant) {
    && envelope.Obj? && CanonicalBytes(ToDict(g)).Ok?
    && var payload, entries := CanonicalBytes(ToDict(g)).value, Get(envelope.members, SIGNATURES);
    && PayloadIs(env, payload, g) && NotExpired(env, g, moment) && Dsse.Pae(payload, root.audience).Ok?
    && Get(envelope.members, PAYLOAD_TYPE) == Some(Str(root.audience))
    && Get(envelope.members, PAYLOAD) == Some(Str(Base64.Encode(payload)))
    && entries.Some? && entries.value.Arr? && entries.value.items != []
    && Vouched(env, root, entries.value.items, Dsse.Pae(payload, root.audience).value, moment, g)
  }

  /** Every entry is of a trusted key, and one of them of the key the grant names. */
  ghost predicate Vouched(env: Env, root: TrustRoot, entries: seq<Json>, pae: Bytes, moment: int, g: Grant) {
    && (forall i | 0 <= i < |entries| :: Trusted(env, root, entries[i], pae, moment))
    && g.keyId.Str?
    && exists i :: 0 <= i < |entries| && SignedBy(env, root, entries[i], pae, moment, g.keyId.s)
  }

  lemma VouchedIff(env: Env, root: TrustRoot, entries: seq<Json>, pae: Bytes, moment: int, g: Grant)
    ensures Vouched(env, root, entries, pae, moment, g) <==>
      var r := SignersOf(env, root, entries, pae, moment); r.Ok? && g.keyId.Str? && g.keyId.s in r.value
  {
    hide SignersOf, SignedBy, SignerOf;
    var r := SignersOf(env, root, entries, pae, moment);
    if Vouched(env, root, entries, pae, moment, g) {
      TrustedAreSigners(env, root, entries, pae, moment);
      EverySignerSigned(env, root, entries, pae, moment);
      var i :| 0 <= i < |entries| && SignedBy(env, root, entries[i], pae, moment, g.keyId.s);
      SignerOfIff(env, root, entries[i], pae, moment, g.keyId.s);
      SignerOfIff(env, root, entries[i], pae, moment, r.value[i]);
      assert r.value[i] == g.keyId.s;
    }
    if r.Ok? && g.keyId.Str? && g.keyId.s in r.value {
      EverySignerSigned(env, root, entries, pae, moment);
      forall j | 0 <= j < |entries| ensures Trusted(env, root, entries[j], pae, moment) {
        assert SignedBy(env, root, entries[j], pae, moment, r.value[j]);
      }
      var i :| 0 <= i < |r.value| && r.value[i] == g.keyId.s;
      assert SignedBy(env, root, entries[i], pae, moment, g.keyId.s);
    }
  }

  /** An envelope verifies to a grant exactly when it stands for it. */
  lemma VerifiedIff(env: Env, root: TrustRoot, envelope: Json, moment: int, g: Grant)
    ensures Verified(env, root, envelope, Some(moment)) == Ok(g) <==> Stands(env, root, envelope, moment, g)
  {
    hide Of, Get, ToDict, CanonicalBytes, SignersOf, GrantOf, PayloadIs, Vouched, Dsse.Pae, BoundOf, Enforceable;
    hide Base64.Encode, Base64.Canonical;
    if Verified(env, root, envelope, Some(moment)) == Ok(g) {
      var payload := PayloadOf(root, envelope).value;
      GrantOfIff(env, payload, g);
      PayloadFields(env, payload, g);
      PayloadTextIs(env, root, envelope, Some(moment));
      VouchedIff(env, root, Get(envelope.members, SIGNATURES).value.items, Dsse.Pae(payload, root.audience).value,
                 moment, g);
    }
    if Stands(env, root, envelope, moment, g) {
      var payload := CanonicalBytes(ToDict(g)).value;
      GrantOfIff(env, payload, g);
      PayloadFields(env, payload, g);
      CanonicalAreBytes(ToDict(g));
      Base64.CanonicalIffEncoded(Base64.Encode(payload), payload);
      VouchedIff(env, root, Get(envelope.members, SIGNATURES).value.items, Dsse.Pae(payload, root.audience).value,
                 moment, g);
    }
  }

  lemma PayloadFields(env: Env, payload: Bytes, g: Grant)
    requires PayloadIs(env, payload, g)
    ensures CanonicalBytes(ToDict(g)) == Ok(payload) && Readable(env, g.notAfter)
    ensures BoundOf(env, g.notAfter) == Ok(if g.notAfter.Null? then None else env.stamp(g.notAfter.s))
  {
    hide BoundOf, CanonicalBytes, ToDict;
    BoundIs(env, g.notAfter);
  }

  lemma GrantComesFromPayload(env: Env, root: TrustRoot, e: Json, m: Option<int>)
    requires Verified(env, root, e, m).Ok?
    ensures e.Obj? && Get(e.members, PAYLOAD).Some? && Get(e.members, PAYLOAD).value.Str?
    ensures Base64.Canonical(Get(e.members, PAYLOAD).value.s).Ok?
    ensures Verified(env, root, e, m) == GrantOf(env, Base64.Canonical(Get(e.members, PAYLOAD).value.s).value)
  {
    hide Of, Get, BoundOf, SignersOf, GrantOf, Dsse.Pae, Base64.Canonical;
  }

  /** So among accepted envelopes of one root the payload text and the grant determine each other. */
  lemma PayloadTextIdentifiesGrant(env: Env, root: TrustRoot, e: Json, f: Json, m: Option<int>, n: Option<int>)
    requires Verified(env, root, e, m).Ok? && Verified(env, root, f, n).Ok?
    ensures e.Obj? && f.Obj?
    ensures Get(e.members, PAYLOAD) == Get(f.members, PAYLOAD) <==>
      Verified(env, root, e, m) == Verified(env, root, f, n)
  {
    hide Of, Get, GrantOf, Verified, ToDict, Base64.Canonical, Base64.Encode, CanonicalBytes;
    GrantComesFromPayload(env, root, e, m);
    GrantComesFromPayload(env, root, f, n);
    PayloadTextIs(env, root, e, m);
    PayloadTextIs(env, root, f, n);
  }

  lemma PayloadTextIs(env: Env, root: TrustRoot, e: Json, m: Option<int>)
    requires Verified(env, root, e, m).Ok?
    ensures e.Obj? && CanonicalBytes(ToDict(Verified(env, root, e, m).value)).Ok?
    ensures Get(e.members, PAYLOAD) ==
      Some(Str(Base64.Encode(CanonicalBytes(ToDict(Verified(env, root, e, m).value)).value)))
  {
    AcceptedEnvelopeIs(env, root, e, m);
  }
}
