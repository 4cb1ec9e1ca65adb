/**
 What a write answers, what a receipt echoes and what proof verification reports about it
 (src/service/mod.rs), and why a receipt stays good for ever.
 */
module Receipts {
  import opened Options
  import opened ByteText
  import opened Envelope
  import opened Ledger
  import opened Verifier

  datatype ServiceError = NoSuchEntry | InvalidArgument | AlreadyExists | ServiceUnavailable | Internal

  /** The requests `write_entry_impl` turns away before it looks at anything. */
  predicate Rejected(maxContentSize: nat, input: Request) {
    || input.entryType == [] || input.agentId == [] || input.contentType == [] || input.sourceId == []
    || |input.content| > maxContentSize
  }

  /** The previous hash a write on chain `c` carries. */
  function TipHash(h: Hasher, g: Bytes, c: seq<Entry>): Bytes {
    if c == [] then h(g) else c[|c| - 1].entryHash
  }

  /** A tip hash goes stale only when the chain has grown since it was read. */
  lemma StaleTipMeansGrowth(h: Hasher, g: Bytes, before: seq<Entry>, now: seq<Entry>)
    requires h(g) != [] && before <= now && !TipMatches(now, TipHash(h, g, before))
    ensures |now| > |before|
  {
  }

  lemma FreshTipMatches(h: Hasher, g: Bytes, c: seq<Entry>)
    requires h(g) != []
    ensures TipMatches(c, TipHash(h, g, c))
  {
  }

  /** `WriteEntryOutput`. */
  datatype WriteOutput = WriteOutput(
    entryId: Uuid,
    entryHash: Bytes,
    chainPosition: int,
    writtenTsMs: int,
    hashVersion: Bytes)

  function OutputOf(e: Entry): WriteOutput {
    WriteOutput(e.entryId, e.entryHash, e.chainPosition, e.writtenTsMs, e.hashVersion)
  }

  /** `idempotent_request_matches`: everything a client sends but the type and the key, which were looked up. */
  predicate Matches(existing: Entry, input: Request) {
    && existing.req.agentId == input.agentId
    && existing.req.content == input.content
    && existing.req.contentType == input.contentType
    && existing.req.sourceId == input.sourceId
    && existing.req.correlationId == input.correlationId
    && existing.req.inputHash == input.inputHash
    && existing.req.writerSignature == input.writerSignature
    && existing.req.signerKeyReference == input.signerKeyReference
    && existing.req.attestationReport == input.attestationReport
  }

  /** An entry of the request's type and key matches it exactly when it was submitted with the very same request. */
  lemma MatchesExact(existing: Entry, input: Request)
    requires existing.req.entryType == input.entryType && existing.req.idempotencyKey == input.idempotencyKey
    ensures Matches(existing, input) <==> existing.req == input
  {
  }

  /** Some entry holds the request's key with another request. */
  predicate Clashes(c: seq<Entry>, input: Request) {
    input.idempotencyKey.Some? &&
    exists i | 0 <= i < |c| :: c[i].req.idempotencyKey == input.idempotencyKey && c[i].req != input
  }

  /** `ProofReceiptOutput`: what the write answered and what the request said. */
  datatype Receipt = Receipt(
    entryHash: Bytes,
    entryType: Bytes,
    chainPosition: int,
    writtenTsMs: int,
    entryId: Uuid,
    inputHash: Bytes,
    writerSignature: Bytes,
    signerKeyReference: Bytes,
    attestationReport: Bytes,
    hashVersion: Bytes)

  function ReceiptOf(input: Request, out: WriteOutput): Receipt {
    Receipt(out.entryHash, input.entryType, out.chainPosition, out.writtenTsMs, out.entryId,
            input.inputHash.GetOr([]), input.writerSignature.GetOr([]), input.signerKeyReference.GetOr([]),
            input.attestationReport.GetOr([]), out.hashVersion)
  }

  /** `VerifyProofOutput`. */
  datatype Proof = Proof(
    valid: bool,
    entryType: Bytes,
    agentId: Bytes,
    writtenTsMs: int,
    chainPosition: int,
    failureReason: Reason,
    sourceId: Bytes,
    correlationId: Bytes,
    contentType: Bytes,
    inputHash: Bytes,
    writerSignature: Bytes,
    signerKeyReference: Bytes,
    attestationReport: Bytes,
    hashVersion: Bytes)

  function ProofOf(h: Hasher, e: Entry): Proof {
    var valid := Recomputed(h, e) == Some(e.entryHash);
    Proof(valid, e.req.entryType, e.req.agentId, e.writtenTsMs, e.chainPosition,
          if Recomputed(h, e) == None then UnsupportedHashVersion
          else if valid then NoFailure
          else EntryHashMismatch,
          e.req.sourceId, e.req.correlationId.GetOr([]), e.req.contentType, e.req.inputHash.GetOr([]),
          e.req.writerSignature.GetOr([]), e.req.signerKeyReference.GetOr([]), e.req.attestationReport.GetOr([]),
          e.hashVersion)
  }

  /** What the proof of entry `e` is to say, field by field: it is valid exactly if the text of the entry's version hashes
      to the stored hash. */
  predicate Attests(h: Hasher, e: Entry, proof: Proof) {
    var input := HashInput(e.entryId, e.req, e.chainPosition, e.writtenTsMs, e.previousHash);
    var v2, v3 := e.hashVersion == Ascii("ARE_LEDGER_ENTRY_HASH_V2"), e.hashVersion == Ascii("ARE_LEDGER_ENTRY_HASH_V3");
    && (proof.valid <==> (v2 && h(PreimageV2(input)) == e.entryHash) || (v3 && h(PreimageV3(input)) == e.entryHash))
    && (proof.failureReason == NoFailure <==> proof.valid)
    && (proof.failureReason == UnsupportedHashVersion <==> !v2 && !v3)
    && (proof.failureReason == EntryHashMismatch <==> (v2 || v3) && !proof.valid)
    && proof.entryType == e.req.entryType && proof.agentId == e.req.agentId
    && proof.sourceId == e.req.sourceId && proof.contentType == e.req.contentType
    && proof.writtenTsMs == e.writtenTsMs && proof.chainPosition == e.chainPosition && proof.hashVersion == e.hashVersion
    && proof.correlationId == (if e.req.correlationId.Some? then e.req.correlationId.value else [])
    && proof.inputHash == (if e.req.inputHash.Some? then e.req.inputHash.value else [])
    && proof.writerSignature == (if e.req.writerSignature.Some? then e.req.writerSignature.value else [])
    && proof.signerKeyReference == (if e.req.signerKeyReference.Some? then e.req.signerKeyReference.value else [])
    && proof.attestationReport == (if e.req.attestationReport.Some? then e.req.attestationReport.value else [])
  }

  lemma ProofMeans(h: Hasher, e: Entry)
    ensures Attests(h, e, ProofOf(h, e))
  {
    hide PreimageV2, PreimageV3, Recomputed, Ascii;
    RecomputedMeans(h, e);
    AsciiTagsDiffer();
  }

  /** The two version tags, as texts. */
  lemma AsciiTagsDiffer()
    ensures Ascii("ARE_LEDGER_ENTRY_HASH_V2") != Ascii("ARE_LEDGER_ENTRY_HASH_V3")
  {
    TagsDiffer();
  }

  /** The proof is valid and equals the receipt in every field the two share. */
  predicate Confirms(proof: Proof, receipt: Receipt) {
    && proof.valid && proof.failureReason == NoFailure
    && proof.entryType == receipt.entryType
    && proof.chainPosition == receipt.chainPosition
    && proof.writtenTsMs == receipt.writtenTsMs
    && proof.inputHash == receipt.inputHash
    && proof.writerSignature == receipt.writerSignature
    && proof.signerKeyReference == receipt.signerKeyReference
    && proof.attestationReport == receipt.attestationReport
    && proof.hashVersion == receipt.hashVersion
  }

  /** Some entry of the chain was submitted with this request, in all eleven fields, and is the one the answer names. */
  predicate Answers(c: seq<Entry>, input: Request, out: WriteOutput) {
    exists i | 0 <= i < |c| :: AnsweredBy(c[i], input, out)
  }

  predicate AnsweredBy(e: Entry, input: Request, out: WriteOutput) {
    && e.req == input
    && out.entryId == e.entryId && out.entryHash == e.entryHash && out.hashVersion == e.hashVersion
    && out.chainPosition == e.chainPosition && out.writtenTsMs == e.writtenTsMs
  }

  lemma OneHolder(c: seq<Entry>, i: nat, j: nat)
    requires KeysUnique(c) && i < |c| && j < |c|
    requires c[i].req.idempotencyKey.Some? && c[i].req.idempotencyKey == c[j].req.idempotencyKey
    ensures i == j
  {
  }

  /** What an answer on a chain with unique keys means, spelled out. */
  lemma AnswersMeans(c: seq<Entry>, input: Request, out: WriteOutput)
    requires Answers(c, input, out)
    ensures exists e | e in c ::
              && e.req == input
              && out.entryId == e.entryId && out.entryHash == e.entryHash && out.hashVersion == e.hashVersion
              && out.chainPosition == e.chainPosition && out.writtenTsMs == e.writtenTsMs
    ensures KeysUnique(c) && input.idempotencyKey.Some? ==>
              forall e | e in c && e.req.idempotencyKey == input.idempotencyKey :: e.req == input
  {
    var i :| 0 <= i < |c| && AnsweredBy(c[i], input, out);
    assert c[i] in c;
    if KeysUnique(c) && input.idempotencyKey.Some? {
      forall e | e in c && e.req.idempotencyKey == input.idempotencyKey
        ensures e.req == input
      {
        var j :| 0 <= j < |c| && c[j] == e;
        OneHolder(c, i, j);
      }
    }
  }

  /** What a clash means, spelled out. */
  lemma ClashesMeans(c: seq<Entry>, input: Request)
    requires Clashes(c, input)
    ensures input.idempotencyKey.Some?
    ensures exists e | e in c :: e.req.idempotencyKey == input.idempotencyKey && e.req != input
  {
    var i :| 0 <= i < |c| && c[i].req.idempotencyKey == input.idempotencyKey && c[i].req != input;
    assert c[i] in c;
  }

  lemma AppendAnswers(h: Hasher, l: Ledger, write: WriteInput, ids: Fresh)
    ensures var t := write.req.entryType; var e := NewEntry(h, |Chain(l, t)| + 1, write, ids.entryId);
            Answers(Chain(Appended(h, l, write, ids), t), write.req, OutputOf(e))
  {
    hide CurrentHash;
    var t := write.req.entryType;
    var c := Chain(Appended(h, l, write, ids), t);
    assert AnsweredBy(c[|c| - 1], write.req, OutputOf(c[|c| - 1]));
  }

  /** What is found under the key either answers the request or shows that the key is held with other content. */
  lemma ReplayMeans(c: seq<Entry>, existing: Entry, input: Request)
    requires input.idempotencyKey.Some? && existing in c && existing.req.idempotencyKey == input.idempotencyKey
    requires existing.req.entryType == input.entryType
    ensures if Matches(existing, input) then Answers(c, input, OutputOf(existing)) else Clashes(c, input)
  {
    var i :| 0 <= i < |c| && c[i] == existing;
    MatchesExact(existing, input);
    assert Matches(existing, input) ==> AnsweredBy(c[i], input, OutputOf(existing));
  }

  /** Entries of one consistent chain with the same hash are the same entry, or their texts collide. */
  lemma SameHashSameRow(h: Hasher, t: Bytes, c: seq<Entry>, i: nat, j: nat)
    requires ChainOk(h, t, c) && i < |c| && j < |c| && c[i].entryHash == c[j].entryHash
    ensures HasCollision(h, Preimages(c)) || i == j
  {
    hide Preimages, Preimage, Recomputed;
    assert EntryOk(h, t, c, i) && EntryOk(h, t, c, j);
    if i != j {
      var x := RowPreimage(h, t, c, i);
      var y := RowPreimage(h, t, c, j);
      PreimageExact(c[i].hashVersion, InputOf(c[i]), c[j].hashVersion, InputOf(c[j]));
      assert x != y;
    }
  }

  lemma RowPreimage(h: Hasher, t: Bytes, c: seq<Entry>, i: nat) returns (p: Bytes)
    requires ChainOk(h, t, c) && i < |c|
    ensures Preimage(c[i].hashVersion, InputOf(c[i])) == Some(p) && p in Preimages(c) && h(p) == c[i].entryHash
  {
    hide Preimage;
    assert EntryOk(h, t, c, i) && c[i] in c;
    p := Preimage(c[i].hashVersion, InputOf(c[i])).value;
  }

  lemma RowRecomputes(h: Hasher, t: Bytes, c: seq<Entry>, i: nat)
    requires ChainOk(h, t, c) && i < |c|
    ensures Recomputed(h, c[i]) == Some(c[i].entryHash) && c[i].req.entryType == t
  {
    hide Recomputed;
    assert EntryOk(h, t, c, i);
  }

  /** Whatever entry a later lookup by hash finds confirms the receipt, or two texts of the chain collide. */
  lemma ReceiptConfirmed(h: Hasher, t: Bytes, c: seq<Entry>, input: Request, out: WriteOutput, found: Entry)
    requires ChainOk(h, t, c) && Answers(c, input, out) && input.entryType == t
    requires found in c && found.entryHash == ReceiptOf(input, out).entryHash
    ensures HasCollision(h, Preimages(c)) || Confirms(ProofOf(h, found), ReceiptOf(input, out))
  {
    hide Preimages, Recomputed, ChainOk;
    var i :| 0 <= i < |c| && AnsweredBy(c[i], input, out);
    var j :| 0 <= j < |c| && c[j] == found;
    SameHashSameRow(h, t, c, i, j);
    RowRecomputes(h, t, c, i);
  }
}
