/**
 Entries and the abstract ledger: one list of entries per entry type and the outbox. Both repositories
 implement `Appended`, the only step that ever changes a chain.
 */
module Ledger {
  import opened Options
  import opened ByteText
  import opened Envelope

  datatype Entry = Entry(
    entryId: Uuid,
    req: Request,
    hashVersion: Bytes,
    entryHash: Bytes,
    previousHash: Bytes,
    chainPosition: int,
    writtenTsMs: int)

  datatype ChainTip = ChainTip(entryId: Uuid, hash: Bytes, hashVersion: Bytes, position: int, writtenTsMs: int)

  datatype OutboxStatus = Pending | Delivered | Failed

  datatype OutboxRecord = OutboxRecord(
    outboxId: Uuid,
    entryId: Uuid,
    entryType: Bytes,
    status: OutboxStatus,
    attemptCount: int)

  datatype RepositoryError = NotFound | Unavailable | ChainIntegrityViolation | IdempotencyConflict

  /** `EntryWriteInput`: the request, the tip hash it builds on, the clock reading and the outbox switch. */
  datatype WriteInput = WriteInput(req: Request, previousHash: Bytes, writtenTsMs: int, createOutbox: bool)

  /** The two ids a write draws. */
  datatype Fresh = Fresh(entryId: Uuid, outboxId: Uuid)

  datatype WriteResult = WriteResult(entry: Entry, outbox: Option<OutboxRecord>)

  datatype Ledger = Ledger(chains: map<Bytes, seq<Entry>>, outbox: map<Uuid, OutboxRecord>)

  function Chain(l: Ledger, t: Bytes): seq<Entry> {
    if t in l.chains then l.chains[t] else []
  }

  function InputOf(e: Entry): HashInput {
    HashInput(e.entryId, e.req, e.chainPosition, e.writtenTsMs, e.previousHash)
  }

  /** The hash a verifier recomputes from a stored entry. */
  function Recomputed(h: Hasher, e: Entry): Option<Bytes> {
    HashForVersion(h, e.hashVersion, InputOf(e))
  }

  function TipOf(e: Entry): ChainTip {
    ChainTip(e.entryId, e.entryHash, e.hashVersion, e.chainPosition, e.writtenTsMs)
  }

  // -------------------------------------------------------- the append step

  function NewEntry(h: Hasher, position: int, input: WriteInput, id: Uuid): Entry {
    Entry(id, input.req, VERSION_V3,
          CurrentHash(h, HashInput(id, input.req, position, input.writtenTsMs, input.previousHash)),
          input.previousHash, position, input.writtenTsMs)
  }

  function NewOutbox(input: WriteInput, ids: Fresh): OutboxRecord {
    OutboxRecord(ids.outboxId, ids.entryId, input.req.entryType, Pending, 0)
  }

  /** The write builds on the current tip; an empty chain takes any non-empty previous hash. */
  predicate TipMatches(c: seq<Entry>, previousHash: Bytes) {
    if c == [] then previousHash != [] else c[|c| - 1].entryHash == previousHash
  }

  predicate KeyAt(c: seq<Entry>, i: int, key: Bytes)
    requires 0 <= i < |c|
  {
    c[i].req.idempotencyKey == Some(key)
  }

  predicate KeyTaken(c: seq<Entry>, key: Option<Bytes>) {
    key.Some? && exists i | 0 <= i < |c| :: KeyAt(c, i, key.value)
  }

  predicate Appendable(l: Ledger, input: WriteInput) {
    var c := Chain(l, input.req.entryType);
    TipMatches(c, input.previousHash) && !KeyTaken(c, input.req.idempotencyKey)
  }

  function Appended(h: Hasher, l: Ledger, input: WriteInput, ids: Fresh): Ledger {
    var t := input.req.entryType;
    var c := Chain(l, t);
    Ledger(l.chains[t := c + [NewEntry(h, |c| + 1, input, ids.entryId)]],
           if input.createOutbox then l.outbox[ids.outboxId := NewOutbox(input, ids)] else l.outbox)
  }

  // ------------------------------------------------------------- invariants

  /** Entry `i` of chain `c` has its place, its recomputable hash and its link. Entries from before the third version of
      the envelope stay in their chains, each with the version it was hashed with. */
  predicate EntryOk(h: Hasher, t: Bytes, c: seq<Entry>, i: int)
    requires 0 <= i < |c|
  {
    && c[i].req.entryType == t
    && c[i].chainPosition == i + 1
    && Recomputed(h, c[i]) == Some(c[i].entryHash)
    && (i == 0 ==> c[i].previousHash != [])
    && (i > 0 ==> c[i].previousHash == c[i - 1].entryHash)
  }

  ghost predicate ChainOk(h: Hasher, t: Bytes, c: seq<Entry>) {
    forall i | 0 <= i < |c| :: EntryOk(h, t, c, i)
  }

  ghost predicate KeysUnique(c: seq<Entry>) {
    forall i, j | 0 <= i < j < |c| :: c[i].req.idempotencyKey.Some? ==> c[i].req.idempotencyKey != c[j].req.idempotencyKey
  }

  predicate Holds(c: seq<Entry>, id: Uuid) {
    exists i | 0 <= i < |c| :: c[i].entryId == id
  }

  ghost predicate IdsUnique(l: Ledger) {
    forall t, i, u, j | t in l.chains && u in l.chains && 0 <= i < |l.chains[t]| && 0 <= j < |l.chains[u]| ::
      l.chains[t][i].entryId == l.chains[u][j].entryId ==> t == u && i == j
  }

  ghost predicate OutboxOk(l: Ledger) {
    forall o | o in l.outbox :: l.outbox[o].outboxId == o && Holds(Chain(l, l.outbox[o].entryType), l.outbox[o].entryId)
  }

  ghost predicate TypeOk(h: Hasher, l: Ledger, t: Bytes)
    requires t in l.chains
  {
    l.chains[t] != [] && ChainOk(h, t, l.chains[t]) && KeysUnique(l.chains[t])
  }

  ghost predicate LedgerOk(h: Hasher, l: Ledger) {
    && (forall t | t in l.chains :: TypeOk(h, l, t))
    && OutboxOk(l)
  }

  ghost predicate Unused(l: Ledger, ids: Fresh) {
    && (forall t | t in l.chains :: !Holds(l.chains[t], ids.entryId))
    && ids.outboxId !in l.outbox
  }

  /** Every chain of `l` is a prefix of its chain in `m`: nothing was changed, dropped or reordered. */
  ghost predicate Extends(l: Ledger, m: Ledger) {
    forall t :: Chain(l, t) <= Chain(m, t)
  }

  /** What is hashed with the current version is recomputed from it. */
  lemma NewEntryRecomputes(h: Hasher, position: int, input: WriteInput, id: Uuid)
    ensures var e := NewEntry(h, position, input, id); Recomputed(h, e) == Some(e.entryHash)
  {
    hide PreimageV2, PreimageV3;
    TagsDiffer();
  }

  lemma AppendKeepsChainOk(h: Hasher, t: Bytes, c: seq<Entry>, input: WriteInput, id: Uuid)
    requires ChainOk(h, t, c) && KeysUnique(c) && input.req.entryType == t
    requires TipMatches(c, input.previousHash) && !KeyTaken(c, input.req.idempotencyKey)
    ensures var d := c + [NewEntry(h, |c| + 1, input, id)];
            ChainOk(h, t, d) && KeysUnique(d)
  {
    hide Recomputed, CurrentHash;
    var d := c + [NewEntry(h, |c| + 1, input, id)];
    NewEntryRecomputes(h, |c| + 1, input, id);
    forall i | 0 <= i < |d|
      ensures EntryOk(h, t, d, i)
    {
      if i < |c| {
        assert EntryOk(h, t, c, i);
      }
    }
    forall i, j | 0 <= i < j < |d| && d[i].req.idempotencyKey.Some?
      ensures d[i].req.idempotencyKey != d[j].req.idempotencyKey
    {
      if j == |c| && input.req.idempotencyKey.Some? {
        assert !KeyAt(c, i, input.req.idempotencyKey.value);
      }
    }
  }

  /** The entry a write makes, field by field, hashed in the current version. */
  lemma NewEntryMeans(h: Hasher, position: int, input: WriteInput, id: Uuid)
    ensures var e := NewEntry(h, position, input, id);
            && e.entryId == id && e.req == input.req && e.previousHash == input.previousHash
            && e.chainPosition == position && e.writtenTsMs == input.writtenTsMs
            && e.hashVersion == Ascii("ARE_LEDGER_ENTRY_HASH_V3")
            && e.entryHash == h(PreimageV3(HashInput(id, input.req, position, input.writtenTsMs, input.previousHash)))
  {
    hide PreimageV3;
  }

  /** What a write adds, field by field: one entry at the end of its chain, hashed in the current version, and, if asked
      for, one pending record that has not been tried. */
  lemma AppendedMeans(h: Hasher, l: Ledger, input: WriteInput, ids: Fresh)
    ensures var t := input.req.entryType; var m := Appended(h, l, input, ids);
            && |Chain(m, t)| == |Chain(l, t)| + 1 && Chain(m, t)[..|Chain(l, t)|] == Chain(l, t)
            && Chain(m, t) == Chain(l, t) + [Chain(m, t)[|Chain(l, t)|]]
            && var e := Chain(m, t)[|Chain(l, t)|];
            && e == NewEntry(h, |Chain(l, t)| + 1, input, ids.entryId)
            && e.entryId == ids.entryId && e.req == input.req && e.previousHash == input.previousHash
            && e.chainPosition == |Chain(l, t)| + 1 && e.writtenTsMs == input.writtenTsMs
            && e.hashVersion == Ascii("ARE_LEDGER_ENTRY_HASH_V3")
            && e.entryHash == h(PreimageV3(HashInput(e.entryId, e.req, e.chainPosition, e.writtenTsMs, e.previousHash)))
            && (forall u | u != t :: Chain(m, u) == Chain(l, u))
            && m.outbox == (if input.createOutbox then l.outbox[ids.outboxId := OutboxRecord(ids.outboxId, ids.entryId, t, Pending, 0)]
                            else l.outbox)
  {
    hide PreimageV3;
  }

  lemma NewIdIsNew(l: Ledger, ids: Fresh, t: Bytes, i: nat)
    requires Unused(l, ids)
    ensures i < |Chain(l, t)| ==> l.chains[t][i].entryId != ids.entryId
  {
    if i < |Chain(l, t)| {
      assert !Holds(l.chains[t], ids.entryId);
    }
  }

  lemma AppendKeepsIdsUnique(h: Hasher, l: Ledger, input: WriteInput, ids: Fresh)
    requires IdsUnique(l) && Unused(l, ids)
    ensures IdsUnique(Appended(h, l, input, ids))
  {
    var m := Appended(h, l, input, ids);
    forall t, i, u, j | t in m.chains && u in m.chains && 0 <= i < |m.chains[t]| && 0 <= j < |m.chains[u]| &&
                        m.chains[t][i].entryId == m.chains[u][j].entryId
      ensures t == u && i == j
    {
      NewIdIsNew(l, ids, t, i);
      NewIdIsNew(l, ids, u, j);
    }
  }

  lemma AppendKeepsOutboxOk(h: Hasher, l: Ledger, input: WriteInput, ids: Fresh)
    requires OutboxOk(l)
    ensures OutboxOk(Appended(h, l, input, ids))
  {
    var m := Appended(h, l, input, ids);
    var t := input.req.entryType;
    forall o | o in m.outbox
      ensures m.outbox[o].outboxId == o && Holds(Chain(m, m.outbox[o].entryType), m.outbox[o].entryId)
    {
      var r := m.outbox[o];
      var d := Chain(m, r.entryType);
      if o in l.outbox && r == l.outbox[o] {
        var c := Chain(l, r.entryType);
        var i :| 0 <= i < |c| && c[i].entryId == r.entryId;
        assert d[i] == c[i];
      } else {
        assert d[|d| - 1].entryId == ids.entryId;
      }
    }
  }

  /** One append keeps the whole ledger consistent and every earlier entry where it was. */
  lemma AppendKeepsLedgerOk(h: Hasher, l: Ledger, input: WriteInput, ids: Fresh)
    requires LedgerOk(h, l) && Appendable(l, input)
    ensures LedgerOk(h, Appended(h, l, input, ids))
    ensures Extends(l, Appended(h, l, input, ids))
  {
    var m := Appended(h, l, input, ids);
    AppendKeepsChainOk(h, input.req.entryType, Chain(l, input.req.entryType), input, ids.entryId);
    AppendKeepsOutboxOk(h, l, input, ids);
    forall t | t in m.chains
      ensures TypeOk(h, m, t)
    {
      assert t in l.chains ==> TypeOk(h, l, t);
    }
  }

  lemma ExtendsReflexive(l: Ledger)
    ensures Extends(l, l)
  {
  }

  lemma ExtendsTransitive(l: Ledger, m: Ledger, n: Ledger)
    requires Extends(l, m) && Extends(m, n)
    ensures Extends(l, n)
  {
    forall t
      ensures Chain(l, t) <= Chain(n, t)
    {
      assert Chain(l, t) <= Chain(m, t) <= Chain(n, t);
    }
  }

  /** The first entry of every chain links to the genesis hash. */
  ghost predicate StartsAtGenesis(genesis: Bytes, l: Ledger) {
    forall t :: Chain(l, t) != [] ==> Chain(l, t)[0].previousHash == genesis
  }

  /** Nothing was lost, and no chain was begun on anything but the genesis hash. */
  ghost predicate Grown(genesis: Bytes, l: Ledger, m: Ledger) {
    Extends(l, m) && (StartsAtGenesis(genesis, l) ==> StartsAtGenesis(genesis, m))
  }

  lemma GrownReflexive(genesis: Bytes, l: Ledger)
    ensures Grown(genesis, l, l)
  {
  }

  lemma GrownTransitive(genesis: Bytes, l: Ledger, m: Ledger, n: Ledger)
    requires Grown(genesis, l, m) && Grown(genesis, m, n)
    ensures Grown(genesis, l, n)
  {
    hide StartsAtGenesis, Extends;
    ExtendsTransitive(l, m, n);
  }

  lemma AppendedIsGrown(h: Hasher, genesis: Bytes, l: Ledger, input: WriteInput, ids: Fresh)
    requires Chain(l, input.req.entryType) == [] ==> input.previousHash == genesis
    ensures Grown(genesis, l, Appended(h, l, input, ids))
  {
    hide CurrentHash;
    var m := Appended(h, l, input, ids);
    if StartsAtGenesis(genesis, l) {
      forall t | Chain(m, t) != []
        ensures Chain(m, t)[0].previousHash == genesis
      {
        assert Chain(l, t) != [] ==> Chain(l, t)[0].previousHash == genesis;
      }
    }
  }

  lemma KeyTakenSurvives(before: seq<Entry>, after: seq<Entry>, key: Option<Bytes>)
    requires before <= after && KeyTaken(before, key)
    ensures KeyTaken(after, key)
  {
    var i :| 0 <= i < |before| && KeyAt(before, i, key.value);
    assert KeyAt(after, i, key.value);
  }
}
