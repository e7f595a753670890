/** The record before a run and the receipt after it. */
module RecordChain {
  import opened Prelude
  import opened Texts
  import opened Json
  import opened Jcs
  import opened JcsRoundTrip
  import opened HashChain
  import opened ChainRigidity

  const BACK_LINK: Text := Of("back_link")
  const ID: Text := Of("id")

  /** `verify_chain`: both halves verify under one verifier, and the receipt names the record's id and the digest of
      its payload. */
  ghost predicate PairVerified(env: Env, verify: (Bytes, Bytes) -> bool, pre: Json, receipt: Json) {
    && SignatureOk(pre, Checker(verify, None)) && SignatureOk(receipt, Checker(verify, None))
    && var link := OrNull(Field(receipt, BACK_LINK));
    && link.Obj? && SameValue(OrNull(Get(link.members, PRE_EXEC_ID)), OrNull(Field(pre, ID)))
    && EntryDigest(env, pre).Ok? && Get(link.members, PRE_EXEC_DIGEST) == Some(Str(EntryDigest(env, pre).value))
  }

  /** A receipt is bound to one record: any two records it verifies with agree apart from their signatures, or their
      canonical payloads collide under the hash. */
  lemma ReceiptBindsOneRecord(env: Env, verify: (Bytes, Bytes) -> bool, pre: Json, other: Json, receipt: Json)
    requires PairVerified(env, verify, pre, receipt) && PairVerified(env, verify, other, receipt)
    requires WellFormed(pre) && WellFormed(other)
    ensures pre.Obj? && other.Obj? && CanonicalBytes(Payload(pre)).Ok? && CanonicalBytes(Payload(other)).Ok?
    ensures SameUnsigned(pre, other) ||
      Collision(env, CanonicalBytes(Payload(pre)).value, CanonicalBytes(Payload(other)).value)
  {
    hide CanonicalBytes, SameValue, WellFormed, Payload, Get, Of;
    PayloadIsWellFormed(pre);
    PayloadIsWellFormed(other);
    CanonicalBytesIdentify(Payload(pre), Payload(other));
  }
}
