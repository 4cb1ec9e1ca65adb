/**
 The canonical byte envelope of an entry and its hash (src/crypto/mod.rs). SHA-256 (section 6.2 of
 FIPS 180-4) followed by hexadecimal printing is a parameter `h`; nothing is assumed of it here.
 */
module Envelope {
  import opened Options
  import opened ByteText

  /** `sha256_hex`. */
  type Hasher = Bytes -> Bytes

  /** What a client submits: the eleven fields of `WriteEntryInput`. */
  datatype Request = Request(
    entryType: Bytes,
    agentId: Bytes,
    content: Bytes,
    contentType: Bytes,
    sourceId: Bytes,
    correlationId: Option<Bytes>,
    idempotencyKey: Option<Bytes>,
    inputHash: Option<Bytes>,
    writerSignature: Option<Bytes>,
    signerKeyReference: Option<Bytes>,
    attestationReport: Option<Bytes>)

  /** `CanonicalEntryHashInput`: a request and the four fields the ledger assigns. */
  datatype HashInput = HashInput(
    entryId: Uuid,
    req: Request,
    chainPosition: int,
    writtenTsMs: int,
    previousHash: Bytes)

  /** The field names of the two envelopes. */
  datatype FieldName =
    | HashVersion
    | EntryId
    | EntryType
    | AgentId
    | Content
    | ContentType
    | SourceId
    | CorrelationId
    | IdempotencyKey
    | InputHash
    | WriterSignature
    | SignerKeyReference
    | AttestationReport
    | ChainPosition
    | WrittenTsMs
    | PreviousHash

  function NameText(n: FieldName): Bytes {
    match n
    case HashVersion => Ascii("hash_version")
    case EntryId => Ascii("entry_id")
    case EntryType => Ascii("entry_type")
    case AgentId => Ascii("agent_id")
    case Content => Ascii("content")
    case ContentType => Ascii("content_type")
    case SourceId => Ascii("source_id")
    case CorrelationId => Ascii("correlation_id")
    case IdempotencyKey => Ascii("idempotency_key")
    case InputHash => Ascii("input_hash")
    case WriterSignature => Ascii("writer_signature")
    case SignerKeyReference => Ascii("signer_key_reference")
    case AttestationReport => Ascii("attestation_report")
    case ChainPosition => Ascii("chain_position")
    case WrittenTsMs => Ascii("written_ts_ms")
    case PreviousHash => Ascii("previous_hash")
  }

  type Field = (FieldName, Bytes)

  type Naming = FieldName -> Bytes

  const VERSION_V2: Bytes := Ascii("ARE_LEDGER_ENTRY_HASH_V2")
  const VERSION_V3: Bytes := Ascii("ARE_LEDGER_ENTRY_HASH_V3")

  // ---------------------------------------------------------- specification

  /** One length-delimited field: name, colon, length, colon, value, newline. */
  function FieldText(name: Bytes, value: Bytes): Bytes {
    (name + [COLON]) + ((Decimal(|value|) + [COLON]) + (value + [NEWLINE]))
  }

  /** The fields in order. Nothing below depends on what the names are, so the naming is a parameter. */
  function FieldsBytes(naming: Naming, fs: seq<Field>): Bytes {
    if fs == [] then [] else FieldText(naming(fs[0].0), fs[0].1) + FieldsBytes(naming, fs[1..])
  }

  function IdentityFields(i: HashInput): seq<Field> {
    [ (EntryId, UuidText(i.entryId)),
      (EntryType, i.req.entryType),
      (AgentId, i.req.agentId),
      (Content, i.req.content),
      (ContentType, i.req.contentType),
      (SourceId, i.req.sourceId),
      (CorrelationId, i.req.correlationId.GetOr([])),
      (IdempotencyKey, i.req.idempotencyKey.GetOr([])),
      (InputHash, i.req.inputHash.GetOr([])) ]
  }

  function ProofFields(i: HashInput): seq<Field> {
    [ (WriterSignature, i.req.writerSignature.GetOr([])),
      (SignerKeyReference, i.req.signerKeyReference.GetOr([])),
      (AttestationReport, i.req.attestationReport.GetOr([])) ]
  }

  function PlaceFields(i: HashInput): seq<Field> {
    [ (ChainPosition, Signed(i.chainPosition)),
      (WrittenTsMs, Signed(i.writtenTsMs)),
      (PreviousHash, i.previousHash) ]
  }

  function FieldsV2(i: HashInput): seq<Field> {
    IdentityFields(i) + PlaceFields(i)
  }

  function FieldsV3(i: HashInput): seq<Field> {
    [(HashVersion, VERSION_V3)] + IdentityFields(i) + ProofFields(i) + PlaceFields(i)
  }

  function PreimageV2(i: HashInput): Bytes {
    VERSION_V2 + [NEWLINE] + FieldsBytes(NameText, FieldsV2(i))
  }

  function PreimageV3(i: HashInput): Bytes {
    VERSION_V3 + [NEWLINE] + FieldsBytes(NameText, FieldsV3(i))
  }

  /** A field by its name as it is written. */
  function Line(name: string, value: Bytes): Bytes {
    Ascii(name) + [58] + Decimal(|value|) + [58] + value + [10]
  }

  function Lines(ls: seq<(string, Bytes)>): Bytes {
    if ls == [] then [] else Line(ls[0].0, ls[0].1) + Lines(ls[1..])
  }

  lemma LineIsField(name: string, value: Bytes)
    ensures FieldText(Ascii(name), value) == Line(name, value)
  {
    var n, d := Ascii(name), Decimal(|value|);
    assert n + [58] + d + [58] + value + [10] == (n + [58]) + ((d + [58]) + (value + [10]));
  }

  /** The fields and their lines, name by name. */
  predicate SameFields(fs: seq<Field>, ls: seq<(string, Bytes)>) {
    |fs| == |ls| && forall k | 0 <= k < |fs| :: NameText(fs[k].0) == Ascii(ls[k].0) && fs[k].1 == ls[k].1
  }

  lemma {:induction false} LinesAreFields(fs: seq<Field>, ls: seq<(string, Bytes)>)
    requires SameFields(fs, ls)
    ensures FieldsBytes(NameText, fs) == Lines(ls)
    decreases |fs|
  {
    hide FieldText, Line, NameText, Ascii;
    if fs != [] {
      LineIsField(ls[0].0, ls[0].1);
      LinesAreFields(fs[1..], ls[1..]);
    }
  }

  function IdentityLines(i: HashInput): seq<(string, Bytes)> {
    [ ("entry_id", UuidText(i.entryId)),
      ("entry_type", i.req.entryType),
      ("agent_id", i.req.agentId),
      ("content", i.req.content),
      ("content_type", i.req.contentType),
      ("source_id", i.req.sourceId),
      ("correlation_id", if i.req.correlationId.Some? then i.req.correlationId.value else []),
      ("idempotency_key", if i.req.idempotencyKey.Some? then i.req.idempotencyKey.value else []),
      ("input_hash", if i.req.inputHash.Some? then i.req.inputHash.value else []) ]
  }

  function ProofLines(i: HashInput): seq<(string, Bytes)> {
    [ ("writer_signature", if i.req.writerSignature.Some? then i.req.writerSignature.value else []),
      ("signer_key_reference", if i.req.signerKeyReference.Some? then i.req.signerKeyReference.value else []),
      ("attestation_report", if i.req.attestationReport.Some? then i.req.attestationReport.value else []) ]
  }

  function PlaceLines(i: HashInput): seq<(string, Bytes)> {
    [ ("chain_position", Signed(i.chainPosition)),
      ("written_ts_ms", Signed(i.writtenTsMs)),
      ("previous_hash", i.previousHash) ]
  }

  lemma SameFieldsJoin(a: seq<Field>, b: seq<Field>, x: seq<(string, Bytes)>, y: seq<(string, Bytes)>)
    requires SameFields(a, x) && SameFields(b, y)
    ensures SameFields(a + b, x + y)
  {
    hide NameText, Ascii;
  }

  lemma WrittenFields(i: HashInput)
    ensures SameFields(IdentityFields(i), IdentityLines(i))
    ensures SameFields(ProofFields(i), ProofLines(i)) && SameFields(PlaceFields(i), PlaceLines(i))
    ensures SameFields([(HashVersion, VERSION_V3)], [("hash_version", Ascii("ARE_LEDGER_ENTRY_HASH_V3"))])
  {
    hide Ascii, UuidText, Signed;
  }

  /** The texts that are hashed, written out: the version, then each field on a line by its name, its length and its
      value, in this order. An absent option is the empty value. */
  lemma EnvelopeWritten(i: HashInput)
    ensures PreimageV2(i) == Ascii("ARE_LEDGER_ENTRY_HASH_V2") + [10] + Lines(IdentityLines(i) + PlaceLines(i))
    ensures PreimageV3(i) == Ascii("ARE_LEDGER_ENTRY_HASH_V3") + [10]
              + Lines([("hash_version", Ascii("ARE_LEDGER_ENTRY_HASH_V3"))] + IdentityLines(i) + ProofLines(i) + PlaceLines(i))
  {
    hide Ascii, Lines, FieldsBytes, IdentityFields, ProofFields, PlaceFields, IdentityLines, ProofLines, PlaceLines;
    var version, line := [(HashVersion, VERSION_V3)], [("hash_version", Ascii("ARE_LEDGER_ENTRY_HASH_V3"))];
    WrittenFields(i);
    SameFieldsJoin(IdentityFields(i), PlaceFields(i), IdentityLines(i), PlaceLines(i));
    LinesAreFields(FieldsV2(i), IdentityLines(i) + PlaceLines(i));
    SameFieldsJoin(version, IdentityFields(i), line, IdentityLines(i));
    SameFieldsJoin(version + IdentityFields(i), ProofFields(i), line + IdentityLines(i), ProofLines(i));
    SameFieldsJoin(version + IdentityFields(i) + ProofFields(i), PlaceFields(i), line + IdentityLines(i) + ProofLines(i), PlaceLines(i));
    LinesAreFields(FieldsV3(i), line + IdentityLines(i) + ProofLines(i) + PlaceLines(i));
  }

  /** The bytes a stored version hashes, or None for a version the code does not know. */
  function Preimage(version: Bytes, i: HashInput): Option<Bytes> {
    if version == VERSION_V2 then Some(PreimageV2(i))
    else if version == VERSION_V3 then Some(PreimageV3(i))
    else None
  }

  /** `canonical_entry_hash_for_version`. */
  function HashForVersion(h: Hasher, version: Bytes, i: HashInput): Option<Bytes> {
    match Preimage(version, i)
    case Some(p) => Some(h(p))
    case None => None
  }

  /** `canonical_entry_hash`: the current version. */
  function CurrentHash(h: Hasher, i: HashInput): Bytes {
    h(PreimageV3(i))
  }

  /** The fields a V2 hash binds; an absent option is bound as the empty value. */
  predicate SameBoundV2(a: HashInput, b: HashInput) {
    && a.entryId == b.entryId
    && a.req.entryType == b.req.entryType
    && a.req.agentId == b.req.agentId
    && a.req.content == b.req.content
    && a.req.contentType == b.req.contentType
    && a.req.sourceId == b.req.sourceId
    && a.req.correlationId.GetOr([]) == b.req.correlationId.GetOr([])
    && a.req.idempotencyKey.GetOr([]) == b.req.idempotencyKey.GetOr([])
    && a.req.inputHash.GetOr([]) == b.req.inputHash.GetOr([])
    && a.chainPosition == b.chainPosition
    && a.writtenTsMs == b.writtenTsMs
    && a.previousHash == b.previousHash
  }

  /** The proof material V3 added. */
  predicate SameProofMaterial(a: HashInput, b: HashInput) {
    && a.req.writerSignature.GetOr([]) == b.req.writerSignature.GetOr([])
    && a.req.signerKeyReference.GetOr([]) == b.req.signerKeyReference.GetOr([])
    && a.req.attestationReport.GetOr([]) == b.req.attestationReport.GetOr([])
  }

  predicate SameBound(version: Bytes, a: HashInput, b: HashInput) {
    && SameBoundV2(a, b)
    && (version == VERSION_V3 ==> SameProofMaterial(a, b))
  }

  // ---------------------------------------------------------------- decoder

  /** Reads one field called `name` from the front: its value and what follows. */
  function DecodeField(name: Bytes, b: Bytes): Option<(Bytes, Bytes)> {
    if !(name + [COLON] <= b) then None
    else
      var (n, tail) := ReadNat(0, b[|name| + 1..]);
      if |tail| < n + 2 || tail[0] != COLON || tail[n + 1] != NEWLINE then None
      else Some((tail[1..n + 1], tail[n + 2..]))
  }

  /** Reads exactly the named fields, in order, and nothing else. */
  function DecodeFields(naming: Naming, names: seq<FieldName>, b: Bytes): Option<seq<Field>> {
    if names == [] then (if b == [] then Some([]) else None)
    else
      match DecodeField(naming(names[0]), b)
      case None => None
      case Some((value, rest)) =>
        match DecodeFields(naming, names[1..], rest)
        case None => None
        case Some(fs) => Some([(names[0], value)] + fs)
  }

  function Names(fs: seq<Field>): (r: seq<FieldName>)
    ensures |r| == |fs|
  {
    seq(|fs|, i requires 0 <= i < |fs| => fs[i].0)
  }

  const NAMES_V2: seq<FieldName> :=
    [ EntryId, EntryType, AgentId, Content, ContentType, SourceId, CorrelationId, IdempotencyKey, InputHash,
      ChainPosition, WrittenTsMs, PreviousHash ]

  const NAMES_V3: seq<FieldName> :=
    [ HashVersion, EntryId, EntryType, AgentId, Content, ContentType, SourceId, CorrelationId, IdempotencyKey,
      InputHash, WriterSignature, SignerKeyReference, AttestationReport, ChainPosition, WrittenTsMs, PreviousHash ]

  /** Recovers the version and the field values from a preimage. */
  function DecodeEnvelope(b: Bytes): Option<(Bytes, seq<Field>)> {
    if VERSION_V2 + [NEWLINE] <= b then
      match DecodeFields(NameText, NAMES_V2, b[|VERSION_V2| + 1..])
      case Some(fs) => Some((VERSION_V2, fs))
      case None => None
    else if VERSION_V3 + [NEWLINE] <= b then
      match DecodeFields(NameText, NAMES_V3, b[|VERSION_V3| + 1..])
      case Some(fs) => Some((VERSION_V3, fs))
      case None => None
    else None
  }

  lemma DecodeFieldInverts(name: Bytes, value: Bytes, rest: Bytes)
    ensures DecodeField(name, FieldText(name, value) + rest) == Some((value, rest))
  {
    var n := |value|;
    var tail := [COLON] + value + [NEWLINE] + rest;
    var b := name + [COLON] + (Decimal(n) + tail);
    assert FieldText(name, value) + rest == b;
    assert b[|name| + 1..] == Decimal(n) + tail;
    ReadNatInvertsDecimal(n, tail);
    assert ReadNat(n, tail) == (n, tail);
    assert tail[1..n + 1] == value && tail[n + 2..] == rest;
  }

  lemma {:induction false} DecodeFieldsInverts(naming: Naming, fs: seq<Field>)
    ensures DecodeFields(naming, Names(fs), FieldsBytes(naming, fs)) == Some(fs)
  {
    hide DecodeField, FieldText;
    if fs == [] {
      assert Names(fs) == [];
    } else {
      DecodeFieldInverts(naming(fs[0].0), fs[0].1, FieldsBytes(naming, fs[1..]));
      DecodeFieldsInverts(naming, fs[1..]);
      assert Names(fs)[1..] == Names(fs[1..]);
      assert fs == [(Names(fs)[0], fs[0].1)] + fs[1..];
    }
  }

  lemma TagsDiffer()
    ensures |VERSION_V2| == |VERSION_V3| == 24 && VERSION_V2[23] != VERSION_V3[23]
  {
    assert VERSION_V2[23] == 50 && VERSION_V3[23] == 51;
  }

  lemma TagThenBody(tag: Bytes, other: Bytes, body: Bytes)
    requires |tag| == |other| == 24 && tag[23] != other[23]
    ensures var p := tag + [NEWLINE] + body;
            tag + [NEWLINE] <= p && p[|tag| + 1..] == body && !(other + [NEWLINE] <= p)
  {
    var p := tag + [NEWLINE] + body;
    assert p[23] == tag[23] && (other + [NEWLINE])[23] == other[23];
  }

  lemma FieldNames(i: HashInput)
    ensures Names(FieldsV2(i)) == NAMES_V2 && Names(FieldsV3(i)) == NAMES_V3
  {
  }

  /** The decoder inverts the V2 encoding, for every field content. */
  lemma EnvelopeRoundTripV2(i: HashInput)
    ensures DecodeEnvelope(PreimageV2(i)) == Some((VERSION_V2, FieldsV2(i)))
  {
    TagsDiffer();
    FieldNames(i);
    TagThenBody(VERSION_V2, VERSION_V3, FieldsBytes(NameText, FieldsV2(i)));
    DecodeFieldsInverts(NameText, FieldsV2(i));
  }

  /** The decoder inverts the V3 encoding, for every field content. */
  lemma EnvelopeRoundTripV3(i: HashInput)
    ensures DecodeEnvelope(PreimageV3(i)) == Some((VERSION_V3, FieldsV3(i)))
  {
    TagsDiffer();
    FieldNames(i);
    TagThenBody(VERSION_V3, VERSION_V2, FieldsBytes(NameText, FieldsV3(i)));
    DecodeFieldsInverts(NameText, FieldsV3(i));
  }

  /** Equal field lists are equal bound fields: the printed forms are injective. */
  lemma IdentityAndPlace(a: HashInput, b: HashInput)
    requires IdentityFields(a) == IdentityFields(b) && PlaceFields(a) == PlaceFields(b)
    ensures SameBoundV2(a, b)
  {
    var ia, ib := IdentityFields(a), IdentityFields(b);
    assert ia[0] == ib[0] && ia[1] == ib[1] && ia[2] == ib[2] && ia[3] == ib[3] && ia[4] == ib[4];
    assert ia[5] == ib[5] && ia[6] == ib[6] && ia[7] == ib[7] && ia[8] == ib[8];
    var pa, pb := PlaceFields(a), PlaceFields(b);
    assert pa[0] == pb[0] && pa[1] == pb[1] && pa[2] == pb[2];
    UuidTextInjective(a.entryId, b.entryId);
    ReadSignedInvertsSigned(a.chainPosition);
    ReadSignedInvertsSigned(b.chainPosition);
    ReadSignedInvertsSigned(a.writtenTsMs);
    ReadSignedInvertsSigned(b.writtenTsMs);
  }

  lemma FieldsV2Bind(a: HashInput, b: HashInput)
    requires FieldsV2(a) == FieldsV2(b)
    ensures SameBoundV2(a, b)
  {
    assert IdentityFields(a) == FieldsV2(a)[..9] && IdentityFields(b) == FieldsV2(b)[..9];
    assert PlaceFields(a) == FieldsV2(a)[9..] && PlaceFields(b) == FieldsV2(b)[9..];
    IdentityAndPlace(a, b);
  }

  lemma FieldsV3Bind(a: HashInput, b: HashInput)
    requires FieldsV3(a) == FieldsV3(b)
    ensures SameBoundV2(a, b) && SameProofMaterial(a, b)
  {
    assert IdentityFields(a) == FieldsV3(a)[1..10] && IdentityFields(b) == FieldsV3(b)[1..10];
    assert ProofFields(a) == FieldsV3(a)[10..13] && ProofFields(b) == FieldsV3(b)[10..13];
    assert PlaceFields(a) == FieldsV3(a)[13..] && PlaceFields(b) == FieldsV3(b)[13..];
    IdentityAndPlace(a, b);
    var pa, pb := ProofFields(a), ProofFields(b);
    assert pa[0] == pb[0] && pa[1] == pb[1] && pa[2] == pb[2];
  }

  /** A V2 preimage identifies exactly the V2 fields: it ignores the proof material and nothing else. */
  lemma PreimageV2Exact(a: HashInput, b: HashInput)
    ensures PreimageV2(a) == PreimageV2(b) <==> SameBoundV2(a, b)
  {
    if PreimageV2(a) == PreimageV2(b) {
      EnvelopeRoundTripV2(a);
      EnvelopeRoundTripV2(b);
      FieldsV2Bind(a, b);
    }
  }

  /** A V3 preimage identifies exactly the V2 fields and the proof material. */
  lemma PreimageV3Exact(a: HashInput, b: HashInput)
    ensures PreimageV3(a) == PreimageV3(b) <==> SameBoundV2(a, b) && SameProofMaterial(a, b)
  {
    if PreimageV3(a) == PreimageV3(b) {
      EnvelopeRoundTripV3(a);
      EnvelopeRoundTripV3(b);
      FieldsV3Bind(a, b);
    }
  }

  /** Preimages of supported versions coincide exactly when the version and every field it binds do. */
  lemma PreimageExact(va: Bytes, a: HashInput, vb: Bytes, b: HashInput)
    requires Preimage(va, a).Some? && Preimage(vb, b).Some?
    ensures Preimage(va, a) == Preimage(vb, b) <==> va == vb && SameBound(va, a, b)
  {
    TagsDiffer();
    EnvelopeRoundTripV2(a);
    EnvelopeRoundTripV3(a);
    EnvelopeRoundTripV2(b);
    EnvelopeRoundTripV3(b);
    PreimageV2Exact(a, b);
    PreimageV3Exact(a, b);
  }

  /** Every preimage starts with its version tag, so a genesis input that starts with neither is no preimage. */
  predicate NotAnEnvelope(genesisInput: Bytes) {
    !(VERSION_V2 <= genesisInput) && !(VERSION_V3 <= genesisInput)
  }

  lemma GenesisIsNoPreimage(genesisInput: Bytes, version: Bytes, i: HashInput)
    requires NotAnEnvelope(genesisInput)
    ensures Preimage(version, i) != Some(genesisInput)
  {
    assert PreimageV2(i)[..|VERSION_V2|] == VERSION_V2;
    assert PreimageV3(i)[..|VERSION_V3|] == VERSION_V3;
  }

  /** The configured default qualifies. */
  lemma DefaultGenesisQualifies()
    ensures NotAnEnvelope(Ascii("ARE_LEDGER_GENESIS"))
  {
  }

  // --------------------------------------------------------- imperative form

  /** The `Vec<u8>` the builders push into; `tag` and `fields` record what it holds. */
  class ByteBuffer {
    const naming: Naming
    var bytes: Bytes
    ghost var tag: Bytes
    ghost var fields: seq<Field>

    ghost predicate Valid()
      reads this
    {
      bytes == tag + FieldsBytes(naming, fields)
    }

    constructor (version: Bytes, naming: Naming)
      ensures Valid() && this.naming == naming && tag == version + [NEWLINE] && fields == []
    {
      this.naming := naming;
      bytes := version + [NEWLINE];
      tag, fields := version + [NEWLINE], [];
    }

    method ExtendFromSlice(s: Bytes)
      modifies this`bytes
      ensures bytes == old(bytes) + s
    {
      bytes := bytes + s;
    }

    method Push(b: byte)
      modifies this`bytes
      ensures bytes == old(bytes) + [b]
    {
      bytes := bytes + [b];
    }

    /** One slice and the byte that closes it. */
    method Put(s: Bytes, b: byte)
      modifies this`bytes
      ensures bytes == old(bytes) + (s + [b])
    {
      ExtendFromSlice(s);
      Push(b);
    }

    /** `append_field`. */
    method AppendField(name: FieldName, value: Bytes)
      requires Valid()
      modifies this
      ensures Valid() && tag == old(tag)
      ensures fields == old(fields) + [(name, value)]
    {
      ghost var before := bytes;
      Put(naming(name), COLON);
      Put(Decimal(|value|), COLON);
      Put(value, NEWLINE);
      Assoc(before, naming(name) + [COLON], Decimal(|value|) + [COLON], value + [NEWLINE]);
      FieldsBytesSnoc(naming, fields, name, value);
      assert tag + FieldsBytes(naming, fields) + FieldText(naming(name), value)
          == tag + (FieldsBytes(naming, fields) + FieldText(naming(name), value));
      fields := fields + [(name, value)];
    }

    method AppendSubmitted(i: HashInput)
      requires Valid()
      modifies this
      ensures Valid() && tag == old(tag)
      ensures fields == old(fields) + IdentityFields(i)[..5]
    {
      AppendField(EntryId, UuidText(i.entryId));
      AppendField(EntryType, i.req.entryType);
      AppendField(AgentId, i.req.agentId);
      AppendField(Content, i.req.content);
      AppendField(ContentType, i.req.contentType);
    }

    method AppendReferences(i: HashInput)
      requires Valid()
      modifies this
      ensures Valid() && tag == old(tag)
      ensures fields == old(fields) + IdentityFields(i)[5..]
    {
      AppendField(SourceId, i.req.sourceId);
      AppendField(CorrelationId, i.req.correlationId.GetOr([]));
      AppendField(IdempotencyKey, i.req.idempotencyKey.GetOr([]));
      AppendField(InputHash, i.req.inputHash.GetOr([]));
    }

    method AppendProof(i: HashInput)
      requires Valid()
      modifies this
      ensures Valid() && tag == old(tag)
      ensures fields == old(fields) + ProofFields(i)
    {
      AppendField(WriterSignature, i.req.writerSignature.GetOr([]));
      AppendField(SignerKeyReference, i.req.signerKeyReference.GetOr([]));
      AppendField(AttestationReport, i.req.attestationReport.GetOr([]));
    }

    method AppendPlace(i: HashInput)
      requires Valid()
      modifies this
      ensures Valid() && tag == old(tag)
      ensures fields == old(fields) + PlaceFields(i)
    {
      AppendField(ChainPosition, Signed(i.chainPosition));
      AppendField(WrittenTsMs, Signed(i.writtenTsMs));
      AppendField(PreviousHash, i.previousHash);
    }
  }

  lemma Assoc(a: Bytes, b: Bytes, c: Bytes, d: Bytes)
    ensures a + b + c + d == a + (b + (c + d))
  {
  }

  lemma {:induction false} FieldsBytesSnoc(naming: Naming, fs: seq<Field>, name: FieldName, value: Bytes)
    ensures FieldsBytes(naming, fs + [(name, value)]) == FieldsBytes(naming, fs) + FieldText(naming(name), value)
  {
    var all := fs + [(name, value)];
    if fs == [] {
      assert all[1..] == [];
    } else {
      assert all[1..] == fs[1..] + [(name, value)];
      FieldsBytesSnoc(naming, fs[1..], name, value);
    }
  }

  /** `canonical_entry_hash_v2`. */
  method CanonicalEntryHashV2(h: Hasher, i: HashInput) returns (digest: Bytes)
    ensures digest == h(PreimageV2(i))
  {
    var buf := new ByteBuffer(VERSION_V2, NameText);
    buf.AppendSubmitted(i);
    buf.AppendReferences(i);
    buf.AppendPlace(i);
    assert buf.fields == FieldsV2(i);
    digest := h(buf.bytes);
  }

  /** `canonical_entry_hash_v3`. */
  method CanonicalEntryHashV3(h: Hasher, i: HashInput) returns (digest: Bytes)
    ensures digest == h(PreimageV3(i))
  {
    var buf := new ByteBuffer(VERSION_V3, NameText);
    buf.AppendField(HashVersion, VERSION_V3);
    buf.AppendSubmitted(i);
    buf.AppendReferences(i);
    buf.AppendProof(i);
    buf.AppendPlace(i);
    assert buf.fields == FieldsV3(i);
    digest := h(buf.bytes);
  }
}
