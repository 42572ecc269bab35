/** Signed announcement envelopes: validation, canonical form, signatures and origin names. */
module Envelopes {
  import opened Basics
  import opened Text

  type byte = b: nat | b < 256

  datatype Kind = KindTask | KindAgentFact | OtherKind(name: string)

  datatype TaskOp = OpUpsert | OpComplete | OpWithdraw | OtherOp(name: string)

  datatype Envelope = Envelope(
    kind: Kind, origin: string, publisher: string, seqNo: uint64, topics: seq<string>, summary: string,
    detailRef: seq<byte>, expiresAt: Time, sig: string,
    taskID: string, op: TaskOp, taxonomy: string, conf: int, factID: string, factKind: string)

  /** What is signed: every field but the signature, with the topics trimmed. */
  datatype Canonical = Canonical(
    kind: Kind, origin: string, publisher: string, seqNo: uint64, topics: seq<string>, summary: string,
    detailRef: seq<byte>, expiresAt: Time,
    taskID: string, op: TaskOp, taxonomy: string, conf: int, factID: string, factKind: string)

  const MAX_ENVELOPE_SIZE: nat := 1024

  datatype Defect =
    | UnknownKind | MissingOrigin | MissingPublisher | MissingSeq | MissingTopics | MissingSummary
    | MissingDetailRef | MissingExpiry | MissingTaskID | InvalidOp | MissingTaxonomy | MissingFactID
    | MissingFactKind | MissingSignature | TooLarge | UnknownPublisher | BadSignature | OriginMismatch

  /** All that an envelope needs before it may be signed. */
  predicate Complete(e: Envelope) {
    && e.origin != "" && e.publisher != "" && e.seqNo != 0 && e.topics != [] && e.summary != ""
    && e.detailRef != [] && e.expiresAt != ZERO_TIME && e.taxonomy != ""
    && (|| (e.kind.KindTask? && e.taskID != "" && !e.op.OtherOp?)
        || (e.kind.KindAgentFact? && e.factID != "" && e.factKind != ""))
  }

  /** `ValidateUnsigned`: the first defect, in the order the checks are made. */
  function ValidateUnsigned(e: Envelope): (r: Option<Defect>)
    ensures r.None? <==> Complete(e)
  {
    if e.kind.OtherKind? then Some(UnknownKind)
    else if e.origin == "" then Some(MissingOrigin)
    else if e.publisher == "" then Some(MissingPublisher)
    else if e.seqNo == 0 then Some(MissingSeq)
    else if e.topics == [] then Some(MissingTopics)
    else if e.summary == "" then Some(MissingSummary)
    else if e.detailRef == [] then Some(MissingDetailRef)
    else if e.expiresAt == ZERO_TIME then Some(MissingExpiry)
    else match e.kind
      case KindTask =>
        if e.taskID == "" then Some(MissingTaskID)
        else if e.op.OtherOp? then Some(InvalidOp)
        else if e.taxonomy == "" then Some(MissingTaxonomy)
        else None
      case _ =>
        if e.factID == "" then Some(MissingFactID)
        else if e.factKind == "" then Some(MissingFactKind)
        else if e.taxonomy == "" then Some(MissingTaxonomy)
        else None
  }

  /** An envelope is accepted for signing exactly when every field that its kind needs is there, and a defect
      named is a real one. */
  lemma UnsignedExact(e: Envelope)
    ensures ValidateUnsigned(e).None? <==>
              && e.origin != "" && e.publisher != "" && e.seqNo != 0 && |e.topics| > 0 && e.summary != ""
              && |e.detailRef| > 0 && e.expiresAt != ZERO_TIME && e.taxonomy != ""
              && (|| (e.kind == KindTask && e.taskID != "" && e.op in {OpUpsert, OpComplete, OpWithdraw})
                  || (e.kind == KindAgentFact && e.factID != "" && e.factKind != ""))
    ensures match ValidateUnsigned(e)
            case None => true
            case Some(UnknownKind) => e.kind != KindTask && e.kind != KindAgentFact
            case Some(MissingOrigin) => e.origin == ""
            case Some(MissingPublisher) => e.publisher == ""
            case Some(MissingSeq) => e.seqNo == 0
            case Some(MissingTopics) => e.topics == []
            case Some(MissingSummary) => e.summary == ""
            case Some(MissingDetailRef) => e.detailRef == []
            case Some(MissingExpiry) => e.expiresAt == ZERO_TIME
            case Some(MissingTaskID) => e.kind == KindTask && e.taskID == ""
            case Some(InvalidOp) => e.kind == KindTask && e.op !in {OpUpsert, OpComplete, OpWithdraw}
            case Some(MissingTaxonomy) => e.taxonomy == ""
            case Some(MissingFactID) => e.kind == KindAgentFact && e.factID == ""
            case Some(MissingFactKind) => e.kind == KindAgentFact && e.factKind == ""
            case _ => false
  {}

  /** `ValidateSigned`; `size` is the length of the encoded envelope. */
  function ValidateSigned(e: Envelope, size: nat): (r: Option<Defect>)
    ensures r.None? <==> Complete(e) && e.sig != "" && size <= 1024
  {
    var d := ValidateUnsigned(e);
    if d.Some? then d
    else if e.sig == "" then Some(MissingSignature)
    else if size > MAX_ENVELOPE_SIZE then Some(TooLarge)
    else None
  }

  function CanonicalOf(e: Envelope): Canonical {
    Canonical(e.kind, e.origin, e.publisher, e.seqNo, KeepTrimmed(e.topics), e.summary, e.detailRef, e.expiresAt,
              e.taskID, e.op, e.taxonomy, e.conf, e.factID, e.factKind)
  }

  /** The envelopes agree in all that a signature vouches for: every field but the signature, the topics apart
      from blanks around them and blank ones. */
  ghost predicate AgreeSigned(e: Envelope, f: Envelope) {
    && e.kind == f.kind && e.origin == f.origin && e.publisher == f.publisher && e.seqNo == f.seqNo
    && KeepTrimmed(e.topics) == KeepTrimmed(f.topics) && e.summary == f.summary && e.detailRef == f.detailRef
    && e.expiresAt == f.expiresAt && e.taskID == f.taskID && e.op == f.op && e.taxonomy == f.taxonomy
    && e.conf == f.conf && e.factID == f.factID && e.factKind == f.factKind
  }

  /** Two envelopes have one canonical form exactly when they agree in that. */
  lemma CanonicalExact(e: Envelope, f: Envelope)
    ensures CanonicalOf(e) == CanonicalOf(f) <==> AgreeSigned(e, f)
  {
    if CanonicalOf(e) == CanonicalOf(f) {
      var c, d := CanonicalOf(e), CanonicalOf(f);
      assert c.kind == d.kind && c.origin == d.origin && c.publisher == d.publisher && c.seqNo == d.seqNo;
      assert c.topics == d.topics && c.summary == d.summary && c.detailRef == d.detailRef && c.expiresAt == d.expiresAt;
      assert c.taskID == d.taskID && c.op == d.op && c.taxonomy == d.taxonomy && c.conf == d.conf;
      assert c.factID == d.factID && c.factKind == d.factKind;
    }
  }

  /** `canonical`, with its loop over the topics. */
  method MakeCanonical(e: Envelope) returns (c: Canonical)
    ensures c == CanonicalOf(e)
  {
    var topics: seq<string> := [];
    for i := 0 to |e.topics|
      invariant topics == KeepTrimmed(e.topics[..i])
    {
      var topic := TrimSpace(e.topics[i]);
      assert e.topics[..i + 1][..i] == e.topics[..i];
      if topic != "" {
        topics := topics + [topic];
      }
    }
    assert e.topics[..|e.topics|] == e.topics;
    c := Canonical(e.kind, e.origin, e.publisher, e.seqNo, topics, e.summary, e.detailRef, e.expiresAt,
                   e.taskID, e.op, e.taxonomy, e.conf, e.factID, e.factKind);
  }

  // ---------------------------------------------------------------- signatures

  /** A public key: its raw bytes, or, when the key type has none, sixteen bytes of a digest. */
  datatype PubKey = RawKey(raw: seq<byte>) | DigestKey(digest: seq<byte>)

  ghost predicate WellFormedKey(k: PubKey) {
    match k
    case RawKey(raw) => raw != []
    case DigestKey(digest) => |digest| == 16
  }

  /** One signing operation. An ideal scheme verifies exactly what was signed. */
  datatype Signed = Signed(key: PubKey, form: Canonical, sig: seq<byte>)

  /** How the node reads the key that a peer ID embeds and the bytes that a signature text stands for. */
  datatype Readers = Readers(keyOf: string -> Option<PubKey>, sigOf: string -> Option<seq<byte>>)

  /** `Sign`: `sig` is the text of the signature made and `size` the length of the signed encoding. */
  function Sign(e: Envelope, sig: string, size: nat): Result<Envelope, Defect> {
    match ValidateUnsigned(e)
    case Some(d) => Err(d)
    case None =>
      var signed := e.(sig := sig);
      match ValidateSigned(signed, size) case Some(d) => Err(d) case None => Ok(signed)
  }

  /** Signing succeeds exactly when the envelope with its signature is valid. */
  lemma SignOutcome(e: Envelope, sig: string, size: nat)
    ensures Sign(e, sig, size).Ok? <==> ValidateSigned(e.(sig := sig), size).None?
    ensures Sign(e, sig, size).Ok? ==> Sign(e, sig, size).value == e.(sig := sig)
  {}

  function Verify(e: Envelope, key: PubKey, size: nat, read: Readers, book: set<Signed>): Option<Defect> {
    match ValidateSigned(e, size)
    case Some(d) => Some(d)
    case None =>
      var sig := read.sigOf(e.sig);
      if sig.Some? && Signed(key, CanonicalOf(e), sig.value) in book then None else Some(BadSignature)
  }

  /** A complete envelope that the key in its publisher's peer ID signed, and whose origin is that key's. */
  predicate SignedByOrigin(e: Envelope, size: nat, read: Readers, book: set<Signed>) {
    var key, sig := read.keyOf(e.publisher), read.sigOf(e.sig);
    && Complete(e) && e.sig != "" && size <= MAX_ENVELOPE_SIZE
    && key.Some? && sig.Some? && Signed(key.value, CanonicalOf(e), sig.value) in book
    && DIDFromPubKey(key.value) == e.origin
  }

  function VerifyPublisher(e: Envelope, size: nat, read: Readers, book: set<Signed>): (r: Option<Defect>)
    ensures r.None? <==> SignedByOrigin(e, size, read, book)
  {
    match read.keyOf(e.publisher)
    case None => Some(UnknownPublisher)
    case Some(key) =>
      var d := Verify(e, key, size, read, book);
      if d.Some? then d
      else if DIDFromPubKey(key) != e.origin then Some(OriginMismatch)
      else None
  }

  /** A signed envelope of the publisher's own origin verifies; a change to it in transit that still
      carries the signature is accepted exactly when it changes nothing that the signature vouches for. */
  lemma TamperingExact(e: Envelope, text: string, sig: seq<byte>, size: nat, key: PubKey, read: Readers,
                       book: set<Signed>, e': Envelope, size': nat)
    requires Sign(e, text, size).Ok? && read.keyOf(e.publisher) == Some(key) && DIDFromPubKey(key) == e.origin
    requires forall s :: s in book && s.sig == sig ==> s == Signed(key, CanonicalOf(e), sig)
    requires Signed(key, CanonicalOf(e), sig) in book
    requires e'.sig != "" && read.sigOf(e'.sig) == Some(sig) && size' <= MAX_ENVELOPE_SIZE && e'.topics != []
    ensures VerifyPublisher(e', size', read, book).None? <==> AgreeSigned(e', e)
  {
    CanonicalExact(e', e);
  }

  // ---------------------------------------------------------------- origin names

  const DID_PREFIX := "did:key:"

  /** The base64url digit of value `d`. */
  function Base64Digit(d: nat): (c: char)
    requires d < 64
    ensures c != ':' && c != '/' && Base64Value(c) == d
  {
    if d < 26 then ('A' as int + d) as char
    else if d < 52 then ('a' as int + d - 26) as char
    else if d < 62 then ('0' as int + d - 52) as char
    else if d == 62 then '-' else '_'
  }

  function Base64Value(c: char): int {
    if 'A' <= c <= 'Z' then c as int - 'A' as int
    else if 'a' <= c <= 'z' then c as int - 'a' as int + 26
    else if '0' <= c <= '9' then c as int - '0' as int + 52
    else if c == '-' then 62 else 63
  }

  /** Unpadded base64url. */
  function Base64Url(raw: seq<byte>): (s: string)
    ensures forall i :: 0 <= i < |s| ==> s[i] != ':'
    ensures |s| == 4 * (|raw| / 3) + (if |raw| % 3 == 0 then 0 else |raw| % 3 + 1)
  {
    if |raw| == 0 then ""
    else if |raw| == 1 then [Base64Digit(raw[0] / 4), Base64Digit(raw[0] % 4 * 16)]
    else if |raw| == 2 then
      [Base64Digit(raw[0] / 4), Base64Digit(raw[0] % 4 * 16 + raw[1] / 16), Base64Digit(raw[1] % 16 * 4)]
    else
      [Base64Digit(raw[0] / 4), Base64Digit(raw[0] % 4 * 16 + raw[1] / 16),
       Base64Digit(raw[1] % 16 * 4 + raw[2] / 64), Base64Digit(raw[2] % 64)] + Base64Url(raw[3..])
  }

  lemma ByteFromQuotient(a: byte, b: byte, p: nat, q: nat)
    requires a / 4 == b / 4 && a % 4 * 16 + p == b % 4 * 16 + q && p < 16 && q < 16
    ensures a == b && p == q
  {}

  lemma ByteFromNibble(a: byte, b: byte, p: nat, q: nat)
    requires a / 16 == b / 16 && a % 16 * 4 + p == b % 16 * 4 + q && p < 4 && q < 4
    ensures a == b && p == q
  {}

  lemma {:induction false} Base64Injective(x: seq<byte>, y: seq<byte>)
    requires Base64Url(x) == Base64Url(y)
    ensures x == y
    decreases |x|
  {
    var s, t := Base64Url(x), Base64Url(y);
    assert |x| == |y|;
    if |x| == 1 {
      assert Base64Value(s[0]) == x[0] / 4 && Base64Value(s[1]) == x[0] % 4 * 16;
      assert Base64Value(t[0]) == y[0] / 4 && Base64Value(t[1]) == y[0] % 4 * 16;
    } else if |x| == 2 {
      Base64InjectivePair(x, y);
    } else if |x| >= 3 {
      Base64InjectiveUnit(x, y);
      assert s[4..] == Base64Url(x[3..]) && t[4..] == Base64Url(y[3..]);
      Base64Injective(x[3..], y[3..]);
      assert x == [x[0], x[1], x[2]] + x[3..] && y == [y[0], y[1], y[2]] + y[3..];
    }
  }

  lemma Base64InjectivePair(x: seq<byte>, y: seq<byte>)
    requires Base64Url(x) == Base64Url(y) && |x| == |y| == 2
    ensures x[0] == y[0] && x[1] == y[1]
  {}

  lemma Base64InjectiveUnit(x: seq<byte>, y: seq<byte>)
    requires Base64Url(x) == Base64Url(y) && |x| >= 3 && |y| >= 3
    ensures x[0] == y[0] && x[1] == y[1] && x[2] == y[2]
  {
    var s, t := Base64Url(x), Base64Url(y);
    assert Base64Value(s[0]) == x[0] / 4 && Base64Value(t[0]) == y[0] / 4;
    assert Base64Value(s[1]) == x[0] % 4 * 16 + x[1] / 16 && Base64Value(t[1]) == y[0] % 4 * 16 + y[1] / 16;
    assert Base64Value(s[2]) == x[1] % 16 * 4 + x[2] / 64 && Base64Value(t[2]) == y[1] % 16 * 4 + y[2] / 64;
    assert Base64Value(s[3]) == x[2] % 64 && Base64Value(t[3]) == y[2] % 64;
    ByteFromQuotient(x[0], y[0], x[1] / 16, y[1] / 16);
    ByteFromNibble(x[1], y[1], x[2] / 64, y[2] / 64);
  }

  function HexDigit(d: nat): (c: char)
    requires d < 16
    ensures c != ':' && c == "0123456789abcdef"[d]
  {
    if d < 10 then ('0' as int + d) as char else ('a' as int + d - 10) as char
  }

  function HexText(bs: seq<byte>): (s: string)
    ensures |s| == 2 * |bs| && forall i :: 0 <= i < |s| ==> s[i] != ':'
  {
    if bs == [] then "" else [HexDigit(bs[0] / 16), HexDigit(bs[0] % 16)] + HexText(bs[1..])
  }

  function DIDFromPubKey(key: PubKey): string {
    match key
    case RawKey(raw) => DID_PREFIX + Base64Url(raw)
    case DigestKey(digest) => DID_PREFIX + HexText(digest)
  }

  /** Origins that cannot be confused with an id across the "::" of a record key. */
  ghost predicate Separable(origin: string) {
    && (forall i :: 0 <= i < |origin| - 1 ==> !(origin[i] == ':' && origin[i + 1] == ':'))
    && (origin != "" ==> origin[|origin| - 1] != ':')
  }

  /** The alphabet: capitals, small letters, digits, '-' and '_' (section 5 of RFC 4648). */
  lemma Base64Alphabet(d: nat)
    requires d < 64
    ensures d < 26 ==> Base64Digit(d) == "ABCDEFGHIJKLMNOPQRSTUVWXYZ"[d]
    ensures 26 <= d < 52 ==> Base64Digit(d) == "abcdefghijklmnopqrstuvwxyz"[d - 26]
    ensures 52 <= d < 62 ==> Base64Digit(d) == "0123456789"[d - 52]
    ensures Base64Digit(62) == '-' && Base64Digit(63) == '_'
  {}

  /** The number that two, three or four digits stand for. */
  function DigitsValue(s: string): int {
    if s == "" then 0 else DigitsValue(s[..|s| - 1]) * 64 + Base64Value(s[|s| - 1])
  }

  lemma DigitsOfFour(s: string)
    requires 2 <= |s| <= 4
    ensures |s| == 2 ==> DigitsValue(s) == Base64Value(s[0]) * 64 + Base64Value(s[1])
    ensures |s| == 3 ==> DigitsValue(s) == (Base64Value(s[0]) * 64 + Base64Value(s[1])) * 64 + Base64Value(s[2])
    ensures |s| == 4 ==> DigitsValue(s)
                         == ((Base64Value(s[0]) * 64 + Base64Value(s[1])) * 64 + Base64Value(s[2])) * 64
                            + Base64Value(s[3])
  {
    assert s[..1][..0] == "" && s[..2][..1] == s[..1];
    assert DigitsValue(s[..1]) == Base64Value(s[0]);
    assert DigitsValue(s[..2]) == Base64Value(s[0]) * 64 + Base64Value(s[1]);
    if |s| == 2 {
      assert s[..2] == s;
    } else {
      assert s[..3][..2] == s[..2];
      assert DigitsValue(s[..3]) == (Base64Value(s[0]) * 64 + Base64Value(s[1])) * 64 + Base64Value(s[2]);
      if |s| == 3 {
        assert s[..3] == s;
      }
    }
  }

  /** Four digits stand for the 24 bits of three bytes, three for two bytes and two zero bits, two for one byte
      and four zero bits. */
  lemma Base64Bits(raw: seq<byte>)
    requires raw != []
    ensures var s, b := Base64Url(raw), raw[0] as int;
            && (|raw| == 1 ==> |s| == 2 && DigitsValue(s) == b * 16)
            && (|raw| == 2 ==> |s| == 3 && DigitsValue(s) == (b * 256 + raw[1] as int) * 4)
            && (|raw| >= 3 ==> |s| >= 4 && s[4..] == Base64Url(raw[3..])
                               && DigitsValue(s[..4]) == (b * 256 + raw[1] as int) * 256 + raw[2] as int)
  {
    var s := Base64Url(raw);
    DigitsOfFour(if |s| <= 4 then s else s[..4]);
    if |s| == 4 {
      assert s[..4] == s;
    }
  }

  /** Two digits for each byte. */
  lemma {:induction false} HexBits(bs: seq<byte>, i: nat)
    requires i < |bs|
    ensures var s, hex := HexText(bs), "0123456789abcdef";
            s[2 * i] == hex[bs[i] / 16] && s[2 * i + 1] == hex[bs[i] % 16]
  {
    if i > 0 {
      HexBits(bs[1..], i - 1);
    }
  }

  /** An origin is "did:key:" and the text of the key's bytes, or of the digest where the key has none. */
  lemma DIDText(key: PubKey)
    ensures DIDFromPubKey(key) == match key
                                  case RawKey(raw) => "did:key:" + Base64Url(raw)
                                  case DigestKey(digest) => "did:key:" + HexText(digest)
  {}

  /** Every origin the node derives from a key is separable, and raw keys have distinct origins. */
  lemma DIDSeparable(key: PubKey)
    requires WellFormedKey(key)
    ensures Separable(DIDFromPubKey(key))
  {}

  lemma DIDInjective(x: seq<byte>, y: seq<byte>)
    requires DIDFromPubKey(RawKey(x)) == DIDFromPubKey(RawKey(y))
    ensures x == y
  {
    var d := DIDFromPubKey(RawKey(x));
    assert d[|DID_PREFIX|..] == Base64Url(x) && d[|DID_PREFIX|..] == Base64Url(y);
    Base64Injective(x, y);
  }
}
