/** The pre-authentication encoding exactly as the code builds it: little-endian four-byte lengths, no separators.
    The DSSE text has decimal lengths and spaces; this module follows the code. */
module Dsse {
  import opened Prelude
  import opened Texts

  datatype DsseError = TypeNotEncodable | TooLong

  const MAGIC: Bytes := [0x44, 0x53, 0x53, 0x45, 0x76, 0x31]

  /** `n.to_bytes(4, "little")`; a larger number raises. */
  function Le32(n: nat): Result<Bytes, DsseError> {
    if n >= 0x1_0000_0000 then Err(TooLong)
    else Ok([n % 0x100, n / 0x100 % 0x100, n / 0x1_0000 % 0x100, n / 0x100_0000])
  }

  /** `dsse_pae`. */
  function Pae(payload: Bytes, payloadType: Text): Result<Bytes, DsseError> {
    if !SurrogateFree(payloadType) then Err(TypeNotEncodable)
    else
      var t := Utf8(payloadType);
      var typeLength :- Le32(|t|);
      var payloadLength :- Le32(|payload|);
      Ok(MAGIC + (typeLength + (t + (payloadLength + payload))))
  }

  lemma Le32Injective(m: nat, n: nat)
    requires Le32(m).Ok? && Le32(m) == Le32(n)
    ensures m == n && |Le32(m).value| == 4
  {
    var a, b := Le32(m).value, Le32(n).value;
    assert a[0] == b[0] && a[1] == b[1] && a[2] == b[2] && a[3] == b[3];
    Digits256(m);
    Digits256(n);
  }

  lemma Digits256(n: nat)
    ensures n == n % 0x100 + n / 0x100 % 0x100 * 0x100 + n / 0x1_0000 % 0x100 * 0x1_0000 + n / 0x100_0000 * 0x100_0000
  {
    assert n / 0x1_0000 == n / 0x100 / 0x100 && n / 0x100_0000 == n / 0x100 / 0x100 / 0x100;
  }

  lemma SplitEqual<T>(a: seq<T>, b: seq<T>, c: seq<T>, d: seq<T>)
    requires |a| == |c| && a + b == c + d
    ensures a == c && b == d
  {
    assert a == (a + b)[..|a|] && c == (c + d)[..|a|];
    assert b == (a + b)[|a|..] && d == (c + d)[|a|..];
  }

  /** What is signed determines both the payload type and the payload. */
  lemma PaeInjective(p: Bytes, t: Text, q: Bytes, u: Text)
    requires Pae(p, t).Ok? && Pae(p, t) == Pae(q, u)
    ensures p == q && t == u
  {
    hide Le32;
    var a, b := Utf8(t), Utf8(u);
    var la, lb, lp, lq := Le32(|a|).value, Le32(|b|).value, Le32(|p|).value, Le32(|q|).value;
    Le32Length(|a|);
    Le32Length(|b|);
    Le32Length(|p|);
    Le32Length(|q|);
    SplitEqual(MAGIC, la + (a + (lp + p)), MAGIC, lb + (b + (lq + q)));
    SplitEqual(la, a + (lp + p), lb, b + (lq + q));
    Le32Injective(|a|, |b|);
    SplitEqual(a, lp + p, b, lq + q);
    SplitEqual(lp, p, lq, q);
    Utf8RoundTrip(t);
    Utf8RoundTrip(u);
  }

  lemma Le32Length(n: nat)
    ensures Le32(n).Ok? ==> |Le32(n).value| == 4
  {
  }

  /** Four bytes, the lowest first, are this number. */
  predicate LowFirst(b: Bytes, n: int) {
    && |b| == 4 && IsBytes(b)
    && b[0] + 0x100 * b[1] + 0x1_0000 * b[2] + 0x100_0000 * b[3] == n
  }

  lemma Le32IsLowFirst(n: nat)
    ensures Le32(n).Ok? <==> n < 0x1_0000_0000
    ensures Le32(n).Ok? ==> LowFirst(Le32(n).value, n)
  {
    if n < 0x1_0000_0000 {
      Digits256(n);
      var b := Le32(n).value;
      assert b[3] == n / 0x100_0000 < 0x100;
    }
  }

  /** What is signed: "DSSEv1", the length of the type, the type in UTF-8, the length of the payload, the payload. It
      raises exactly for a type with a surrogate or a length beyond four bytes. */
  lemma PaeLayout(payload: Bytes, payloadType: Text)
    ensures Pae(payload, payloadType).Ok? <==>
      SurrogateFree(payloadType) && |Utf8(payloadType)| < 0x1_0000_0000 && |payload| < 0x1_0000_0000
    ensures Pae(payload, payloadType).Ok? ==>
      var p, t := Pae(payload, payloadType).value, Utf8(payloadType);
      && |p| == 14 + |t| + |payload|
      && p[..6] == ['D' as int, 'S' as int, 'S' as int, 'E' as int, 'v' as int, '1' as int]
      && LowFirst(p[6..10], |t|) && p[10..10 + |t|] == t
      && LowFirst(p[10 + |t|..14 + |t|], |payload|) && p[14 + |t|..] == payload
  {
    hide Le32;
    if SurrogateFree(payloadType) {
      var t := Utf8(payloadType);
      Le32IsLowFirst(|t|);
      Le32IsLowFirst(|payload|);
      if |t| < 0x1_0000_0000 && |payload| < 0x1_0000_0000 {
        FiveParts(MAGIC, Le32(|t|).value, t, Le32(|payload|).value, payload);
      }
    }
  }

  lemma FiveParts(a: Bytes, b: Bytes, c: Bytes, d: Bytes, e: Bytes)
    requires |a| == 6 && |b| == 4 && |d| == 4
    ensures var p := a + (b + (c + (d + e)));
      && |p| == 14 + |c| + |e| && p[..6] == a && p[6..10] == b && p[10..10 + |c|] == c
      && p[10 + |c|..14 + |c|] == d && p[14 + |c|..] == e
  {
  }
}
