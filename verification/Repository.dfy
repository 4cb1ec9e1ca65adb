/**
 The in-memory repository (src/repository/mod.rs): five maps updated in place under one write lock. The maps
 are proved to stay a faithful index of the abstract ledger.
 */
module Repository {
  import opened Options
  import opened ByteText
  import opened Envelope
  import opened Ledger

  /** A snapshot of the five maps of `Inner`. */
  datatype Inner = Inner(
    entries: map<Uuid, Entry>,
    orderedByType: map<Bytes, seq<Uuid>>,
    chainTips: map<Bytes, ChainTip>,
    idempotencyIndex: map<(Bytes, Bytes), Uuid>,
    outbox: map<Uuid, OutboxRecord>)

  // ------------------------------------------------------------ abstraction

  function Ids(m: Inner, t: Bytes): seq<Uuid> {
    if t in m.orderedByType then m.orderedByType[t] else []
  }

  /** The entries an id list leads to; an id without an entry is skipped. */
  function RowsOf(entries: map<Uuid, Entry>, ids: seq<Uuid>): seq<Entry> {
    if ids == [] then []
    else (if ids[0] in entries then [entries[ids[0]]] else []) + RowsOf(entries, ids[1..])
  }

  function Rows(m: Inner, t: Bytes): seq<Entry> {
    RowsOf(m.entries, Ids(m, t))
  }

  function Abs(m: Inner): Ledger {
    Ledger(map t | t in m.orderedByType :: Rows(m, t), m.outbox)
  }

  // -------------------------------------------------------------- invariant

  ghost predicate AllPresent(entries: map<Uuid, Entry>, t: Bytes, ids: seq<Uuid>) {
    forall i | 0 <= i < |ids| ::
      ids[i] in entries && entries[ids[i]].entryId == ids[i] && entries[ids[i]].req.entryType == t
  }

  /** An entry is listed under its own type, at its own position. */
  predicate Placed(m: Inner, id: Uuid)
    requires id in m.entries
  {
    var e := m.entries[id];
    var ids := Ids(m, e.req.entryType);
    1 <= e.chainPosition <= |ids| && ids[e.chainPosition - 1] == id
  }

  ghost predicate ListsOk(m: Inner) {
    forall t | t in m.orderedByType :: m.orderedByType[t] != [] && AllPresent(m.entries, t, m.orderedByType[t])
  }

  ghost predicate EntriesOk(m: Inner) {
    forall id | id in m.entries :: Placed(m, id)
  }

  predicate TipAgrees(m: Inner, t: Bytes)
    requires t in m.chainTips
  {
    var c := Rows(m, t);
    c != [] && m.chainTips[t] == TipOf(c[|c| - 1])
  }

  ghost predicate TipsOk(m: Inner) {
    && m.chainTips.Keys == m.orderedByType.Keys
    && (forall t | t in m.chainTips :: TipAgrees(m, t))
  }

  ghost predicate IndexOk(m: Inner) {
    && (forall id | id in m.entries && m.entries[id].req.idempotencyKey.Some? ::
          var r := m.entries[id].req;
          (r.entryType, r.idempotencyKey.value) in m.idempotencyIndex
          && m.idempotencyIndex[(r.entryType, r.idempotencyKey.value)] == id)
    && (forall tk | tk in m.idempotencyIndex ::
          var id := m.idempotencyIndex[tk];
          id in m.entries && m.entries[id].req.entryType == tk.0 && m.entries[id].req.idempotencyKey == Some(tk.1))
  }

  /** The five maps agree, and the ledger they index is consistent. */
  ghost predicate WellFormed(h: Hasher, m: Inner) {
    ListsOk(m) && EntriesOk(m) && TipsOk(m) && IndexOk(m) && LedgerOk(h, Abs(m))
  }

  lemma {:induction false} RowsOfAt(entries: map<Uuid, Entry>, t: Bytes, ids: seq<Uuid>)
    requires AllPresent(entries, t, ids)
    ensures |RowsOf(entries, ids)| == |ids|
    ensures forall i | 0 <= i < |ids| :: RowsOf(entries, ids)[i] == entries[ids[i]]
  {
    if ids != [] {
      RowsOfAt(entries, t, ids[1..]);
    }
  }

  lemma {:induction false} RowsOfSnoc(entries: map<Uuid, Entry>, ids: seq<Uuid>, e: Entry)
    requires e.entryId !in ids
    ensures RowsOf(entries[e.entryId := e], ids + [e.entryId]) == RowsOf(entries, ids) + [e]
  {
    var all := ids + [e.entryId];
    if ids == [] {
      assert all[1..] == [];
    } else {
      assert all[1..] == ids[1..] + [e.entryId];
      RowsOfSnoc(entries, ids[1..], e);
    }
  }

  lemma {:induction false} RowsOfFrame(entries: map<Uuid, Entry>, ids: seq<Uuid>, e: Entry)
    requires e.entryId !in ids
    ensures RowsOf(entries[e.entryId := e], ids) == RowsOf(entries, ids)
  {
    if ids != [] {
      RowsOfFrame(entries, ids[1..], e);
    }
  }

  /** What the five map insertions produce. */
  function Inserted(m: Inner, e: Entry, input: WriteInput, ids: Fresh): Inner {
    var t := input.req.entryType;
    Inner(m.entries[e.entryId := e],
          m.orderedByType[t := Ids(m, t) + [e.entryId]],
          m.chainTips[t := TipOf(e)],
          if input.req.idempotencyKey.Some? then m.idempotencyIndex[(t, input.req.idempotencyKey.value) := e.entryId]
          else m.idempotencyIndex,
          if input.createOutbox then m.outbox[ids.outboxId := NewOutbox(input, ids)] else m.outbox)
  }

  /** `e` is a new last entry of its type. */
  predicate Fits(m: Inner, e: Entry, input: WriteInput, ids: Fresh) {
    && e.entryId == ids.entryId
    && e.req == input.req
    && e.chainPosition == |Ids(m, input.req.entryType)| + 1
    && ids.entryId !in m.entries
  }

  lemma InsertedRows(m: Inner, e: Entry, input: WriteInput, ids: Fresh, t: Bytes)
    requires ListsOk(m) && Fits(m, e, input, ids)
    ensures Rows(Inserted(m, e, input, ids), t) == if t == input.req.entryType then Rows(m, t) + [e] else Rows(m, t)
  {
    assert e.entryId !in Ids(m, t);
    RowsOfSnoc(m.entries, Ids(m, t), e);
    RowsOfFrame(m.entries, Ids(m, t), e);
  }

  lemma SameChains(m: Inner, chains: map<Bytes, seq<Entry>>)
    requires m.orderedByType.Keys == chains.Keys
    requires forall t | t in m.orderedByType :: Rows(m, t) == chains[t]
    ensures Abs(m).chains == chains
  {
  }

  lemma InsertedAbs(h: Hasher, m: Inner, e: Entry, input: WriteInput, ids: Fresh)
    requires ListsOk(m) && Fits(m, e, input, ids)
    requires e == NewEntry(h, |Rows(m, input.req.entryType)| + 1, input, ids.entryId)
    ensures Abs(Inserted(m, e, input, ids)) == Appended(h, Abs(m), input, ids)
  {
    var m' := Inserted(m, e, input, ids);
    var l' := Appended(h, Abs(m), input, ids);
    forall t | t in m'.orderedByType
      ensures Rows(m', t) == l'.chains[t]
    {
      InsertedRows(m, e, input, ids, t);
    }
    SameChains(m', l'.chains);
  }

  lemma RowCount(m: Inner, t: Bytes)
    requires ListsOk(m)
    ensures |Rows(m, t)| == |Ids(m, t)|
    ensures forall i | 0 <= i < |Rows(m, t)| :: Ids(m, t)[i] in m.entries && Rows(m, t)[i] == m.entries[Ids(m, t)[i]]
    ensures Rows(m, t) == Chain(Abs(m), t)
  {
    RowsOfAt(m.entries, t, Ids(m, t));
  }

  lemma InsertedLists(m: Inner, e: Entry, input: WriteInput, ids: Fresh)
    requires ListsOk(m) && Fits(m, e, input, ids)
    ensures ListsOk(Inserted(m, e, input, ids))
  {
    var m' := Inserted(m, e, input, ids);
    forall t | t in m'.orderedByType
      ensures m'.orderedByType[t] != [] && AllPresent(m'.entries, t, m'.orderedByType[t])
    {
      assert AllPresent(m.entries, t, Ids(m, t));
    }
  }

  lemma InsertedEntries(m: Inner, e: Entry, input: WriteInput, ids: Fresh)
    requires EntriesOk(m) && Fits(m, e, input, ids)
    ensures EntriesOk(Inserted(m, e, input, ids))
  {
    var m' := Inserted(m, e, input, ids);
    forall id | id in m'.entries
      ensures Placed(m', id)
    {
      if id != e.entryId {
        assert Placed(m, id);
      }
    }
  }

  lemma InsertedTip(m: Inner, e: Entry, input: WriteInput, ids: Fresh, t: Bytes)
    requires ListsOk(m) && Fits(m, e, input, ids)
    requires t == input.req.entryType || (t in m.chainTips && TipAgrees(m, t))
    ensures TipAgrees(Inserted(m, e, input, ids), t)
  {
    InsertedRows(m, e, input, ids, t);
  }

  lemma InsertedTips(m: Inner, e: Entry, input: WriteInput, ids: Fresh)
    requires ListsOk(m) && TipsOk(m) && Fits(m, e, input, ids)
    ensures TipsOk(Inserted(m, e, input, ids))
  {
    var m' := Inserted(m, e, input, ids);
    assert m'.chainTips.Keys == m'.orderedByType.Keys;
    forall t | t in m'.chainTips
      ensures TipAgrees(m', t)
    {
      InsertedTip(m, e, input, ids, t);
    }
  }

  lemma RowAt(m: Inner, t: Bytes, i: nat)
    requires ListsOk(m)
    ensures |Rows(m, t)| == |Ids(m, t)|
    ensures i < |Ids(m, t)| ==>
              var id := Ids(m, t)[i];
              id in m.entries && Rows(m, t)[i] == m.entries[id] && m.entries[id].entryId == id && m.entries[id].req.entryType == t
  {
    assert AllPresent(m.entries, t, Ids(m, t));
    RowsOfAt(m.entries, t, Ids(m, t));
  }

  lemma IndexedIsTaken(m: Inner, t: Bytes, key: Bytes)
    requires ListsOk(m) && EntriesOk(m) && IndexOk(m)
    requires (t, key) in m.idempotencyIndex
    ensures KeyTaken(Rows(m, t), Some(key))
  {
    var id := m.idempotencyIndex[(t, key)];
    assert Placed(m, id);
    RowAt(m, t, m.entries[id].chainPosition - 1);
    assert KeyAt(Rows(m, t), m.entries[id].chainPosition - 1, key);
  }

  lemma TakenIsIndexed(m: Inner, t: Bytes, key: Bytes)
    requires ListsOk(m) && IndexOk(m)
    requires KeyTaken(Rows(m, t), Some(key))
    ensures (t, key) in m.idempotencyIndex
  {
    var i :| 0 <= i < |Rows(m, t)| && KeyAt(Rows(m, t), i, key);
    RowAt(m, t, i);
  }

  /** The idempotency index answers exactly whether a chain holds the key. */
  lemma IndexMeansTaken(m: Inner, t: Bytes, key: Bytes)
    requires ListsOk(m) && EntriesOk(m) && IndexOk(m)
    ensures (t, key) in m.idempotencyIndex <==> KeyTaken(Rows(m, t), Some(key))
  {
    if (t, key) in m.idempotencyIndex {
      IndexedIsTaken(m, t, key);
    }
    if KeyTaken(Rows(m, t), Some(key)) {
      TakenIsIndexed(m, t, key);
    }
  }

  lemma InsertedIndex(m: Inner, e: Entry, input: WriteInput, ids: Fresh)
    requires IndexOk(m) && Fits(m, e, input, ids)
    requires input.req.idempotencyKey.Some? ==>
               (input.req.entryType, input.req.idempotencyKey.value) !in m.idempotencyIndex
    ensures IndexOk(Inserted(m, e, input, ids))
  {
  }

  /** Every insertion leaves five maps that index the appended ledger. */
  lemma InsertKeepsWellFormed(h: Hasher, m: Inner, e: Entry, input: WriteInput, ids: Fresh)
    requires WellFormed(h, m) && Appendable(Abs(m), input)
    requires ids.entryId !in m.entries && ids.outboxId !in m.outbox
    requires e == NewEntry(h, |Rows(m, input.req.entryType)| + 1, input, ids.entryId)
    ensures WellFormed(h, Inserted(m, e, input, ids))
    ensures Abs(Inserted(m, e, input, ids)) == Appended(h, Abs(m), input, ids)
  {
    var t := input.req.entryType;
    RowCount(m, t);
    if input.req.idempotencyKey.Some? {
      IndexMeansTaken(m, t, input.req.idempotencyKey.value);
    }
    InsertedLists(m, e, input, ids);
    InsertedEntries(m, e, input, ids);
    InsertedTips(m, e, input, ids);
    InsertedIndex(m, e, input, ids);
    InsertedAbs(h, m, e, input, ids);
    AppendKeepsLedgerOk(h, Abs(m), input, ids);
  }

  /** A stored id names exactly one row: the one at its position in the list of its type. */
  lemma EntryIsRow(m: Inner, id: Uuid)
    requires ListsOk(m) && EntriesOk(m) && id in m.entries
    ensures var e := m.entries[id]; var c := Chain(Abs(m), e.req.entryType);
            1 <= e.chainPosition <= |c| && c[e.chainPosition - 1] == e && e.entryId == id
  {
    assert Placed(m, id);
    RowAt(m, m.entries[id].req.entryType, m.entries[id].chainPosition - 1);
    RowsAreChain(m, m.entries[id].req.entryType);
  }

  /** The index lookup answers whether the key is taken. */
  lemma KeyGuard(m: Inner, t: Bytes, key: Option<Bytes>)
    requires ListsOk(m) && EntriesOk(m) && IndexOk(m)
    ensures key.Some? && (t, key.value) in m.idempotencyIndex <==> KeyTaken(Chain(Abs(m), t), key)
  {
    RowsAreChain(m, t);
    if key.Some? {
      IndexMeansTaken(m, t, key.value);
    }
  }

  lemma RowsAreChain(m: Inner, t: Bytes)
    ensures Rows(m, t) == Chain(Abs(m), t)
  {
  }

  /** The tip lookup answers what the last entry of the chain says. */
  lemma TipGuard(h: Hasher, m: Inner, t: Bytes)
    requires TipsOk(m) && LedgerOk(h, Abs(m))
    ensures var c := Chain(Abs(m), t);
            && (t in m.chainTips <==> c != [])
            && (c != [] ==> m.chainTips[t] == TipOf(c[|c| - 1]) && m.chainTips[t].position == |c|)
  {
    RowsAreChain(m, t);
    if t in m.chainTips {
      var c := Chain(Abs(m), t);
      assert TipAgrees(m, t);
      assert TypeOk(h, Abs(m), t);
      assert EntryOk(h, t, c, |c| - 1);
    }
  }

  // ----------------------------------------------------------------- paging

  /** The rows past a position, in their order. */
  function After(rows: seq<Entry>, position: int): seq<Entry> {
    if rows == [] then []
    else (if rows[0].chainPosition > position then [rows[0]] else []) + After(rows[1..], position)
  }

  lemma AfterCons(e: Entry, rows: seq<Entry>, position: int)
    ensures After([e] + rows, position)
         == if e.chainPosition > position then [e] + After(rows, position) else After(rows, position)
  {
    assert ([e] + rows)[1..] == rows;
  }

  lemma RowsStep(entries: map<Uuid, Entry>, ids: seq<Uuid>, k: nat, position: int)
    requires k < |ids|
    ensures After(RowsOf(entries, ids[k..]), position)
         == if ids[k] in entries && entries[ids[k]].chainPosition > position
            then [entries[ids[k]]] + After(RowsOf(entries, ids[k + 1..]), position)
            else After(RowsOf(entries, ids[k + 1..]), position)
  {
    assert ids[k..][1..] == ids[k + 1..];
    var rest := RowsOf(entries, ids[k + 1..]);
    if ids[k] in entries {
      AfterCons(entries[ids[k]], rest, position);
    } else {
      assert [] + rest == rest;
    }
  }

  lemma AppendThen(out: seq<Entry>, e: Entry, rest: seq<Entry>)
    ensures out + ([e] + rest) == (out + [e]) + rest
  {
  }

  /** How many rows a limit lets through: the row is pushed before the limit is looked at, and the limit is
      cast to an unsigned size. */
  function PageCap(limit: int): nat {
    if limit < 0 then (if limit < -0xffff_ffff_ffff_ffff then 1 else limit + 0x1_0000_0000_0000_0000)
    else if limit == 0 then 1
    else limit
  }

  function Page(rows: seq<Entry>, position: int, limit: int): seq<Entry> {
    var a := After(rows, position);
    if |a| <= PageCap(limit) then a else a[..PageCap(limit)]
  }

  // -------------------------------------------------------------- the class

  class InMemoryLedgerRepository {
    const hash: Hasher
    var entries: map<Uuid, Entry>
    var orderedByType: map<Bytes, seq<Uuid>>
    var chainTips: map<Bytes, ChainTip>
    var idempotencyIndex: map<(Bytes, Bytes), Uuid>
    var outbox: map<Uuid, OutboxRecord>

    ghost function State(): Inner
      reads this
    {
      Inner(entries, orderedByType, chainTips, idempotencyIndex, outbox)
    }

    ghost function Contents(): Ledger
      reads this
    {
      Abs(State())
    }

    ghost predicate Valid()
      reads this
    {
      WellFormed(hash, State())
    }

    constructor (hash: Hasher)
      ensures Valid() && this.hash == hash
      ensures Contents() == Ledger(map[], map[])
    {
      this.hash := hash;
      entries, orderedByType, chainTips, idempotencyIndex, outbox := map[], map[], map[], map[], map[];
    }

    /** `write_entry_with_outbox`: the key is looked at before the tip. */
    method WriteEntryWithOutbox(input: WriteInput, ids: Fresh) returns (r: Result<WriteResult, RepositoryError>)
      requires Valid()
      requires ids.entryId !in entries && ids.outboxId !in outbox
      modifies this
      ensures Valid()
      ensures r.Ok? <==> Appendable(old(Contents()), input)
      ensures r.Ok? ==>
                && Contents() == Appended(hash, old(Contents()), input, ids)
                && r.value.entry == NewEntry(hash, |Chain(old(Contents()), input.req.entryType)| + 1, input, ids.entryId)
                && r.value.outbox == (if input.createOutbox then Some(NewOutbox(input, ids)) else None)
      // The same, spelled out: the fields of the entry, and one pending record that has not been tried.
      ensures r.Ok? ==>
                var e, n := r.value.entry, |Chain(old(Contents()), input.req.entryType)| + 1;
                && e.entryId == ids.entryId && e.req == input.req && e.previousHash == input.previousHash
                && e.chainPosition == n && e.writtenTsMs == input.writtenTsMs
                && e.hashVersion == Ascii("ARE_LEDGER_ENTRY_HASH_V3")
                && e.entryHash == hash(PreimageV3(HashInput(ids.entryId, input.req, n, input.writtenTsMs, input.previousHash)))
                && Chain(Contents(), input.req.entryType) == Chain(old(Contents()), input.req.entryType) + [e]
      ensures r.Ok? && input.createOutbox ==>
                var record := OutboxRecord(ids.outboxId, ids.entryId, input.req.entryType, Pending, 0);
                outbox == old(outbox)[ids.outboxId := record] && r.value.outbox == Some(record)
      ensures r.Err? || !input.createOutbox ==> outbox == old(outbox)
      ensures r.Err? ==> State() == old(State())
      ensures entries.Keys <= old(entries.Keys) + {ids.entryId} && outbox.Keys <= old(outbox.Keys) + {ids.outboxId}
      ensures r.Err? ==> r.error == if KeyTaken(Chain(old(Contents()), input.req.entryType), input.req.idempotencyKey)
                                    then IdempotencyConflict else ChainIntegrityViolation
    {
      hide ListsOk, EntriesOk, TipsOk, IndexOk, KeyTaken, TipMatches, PreimageV3, Appended, NewEntry, Ascii, LedgerOk, Chain;
      var refusal := Check(input);
      if refusal.Some? {
        return Err(refusal.value);
      }
      var t := input.req.entryType;
      TipGuard(hash, State(), t);
      var nextPosition := if t in chainTips then chainTips[t].position + 1 else 1;
      var entry := NewEntry(hash, nextPosition, input, ids.entryId);
      var record := NewOutbox(input, ids);
      AppendedMeans(hash, Contents(), input, ids);
      NewEntryMeans(hash, nextPosition, input, ids.entryId);
      Insert(entry, record, input, ids);
      return Ok(WriteResult(entry, if input.createOutbox then Some(record) else None));
    }

    /** The checks of `write_entry_with_outbox`, in its order. */
    method Check(input: WriteInput) returns (refusal: Option<RepositoryError>)
      requires Valid()
      ensures refusal.None? <==> Appendable(Contents(), input)
      ensures refusal.Some? ==>
                refusal.value == if KeyTaken(Chain(Contents(), input.req.entryType), input.req.idempotencyKey)
                                 then IdempotencyConflict else ChainIntegrityViolation
    {
      var t := input.req.entryType;
      KeyGuard(State(), t, input.req.idempotencyKey);
      TipGuard(hash, State(), t);
      if input.req.idempotencyKey.Some? && (t, input.req.idempotencyKey.value) in idempotencyIndex {
        return Some(IdempotencyConflict);
      }
      var nextPosition := if t in chainTips then chainTips[t].position + 1 else 1;
      if nextPosition == 1 && input.previousHash == [] {
        return Some(ChainIntegrityViolation);
      }
      if nextPosition > 1 && (t !in chainTips || chainTips[t].hash != input.previousHash) {
        return Some(ChainIntegrityViolation);
      }
      return None;
    }

    /** The map insertions that end a successful write. */
    method Insert(entry: Entry, record: OutboxRecord, input: WriteInput, ids: Fresh)
      requires Valid() && Appendable(Contents(), input)
      requires ids.entryId !in entries && ids.outboxId !in outbox
      requires entry == NewEntry(hash, |Chain(Contents(), input.req.entryType)| + 1, input, ids.entryId)
      requires record == NewOutbox(input, ids)
      modifies this
      ensures Valid() && Contents() == Appended(hash, old(Contents()), input, ids)
      ensures entries.Keys <= old(entries.Keys) + {ids.entryId} && outbox.Keys <= old(outbox.Keys) + {ids.outboxId}
    {
      RowsAreChain(State(), input.req.entryType);
      InsertKeepsWellFormed(hash, State(), entry, input, ids);
      UpdateMaps(entry, record, input, ids);
    }

    method UpdateMaps(entry: Entry, record: OutboxRecord, input: WriteInput, ids: Fresh)
      requires entry.entryId == ids.entryId && entry.hashVersion == VERSION_V3 && record == NewOutbox(input, ids)
      modifies this
      ensures State() == Inserted(old(State()), entry, input, ids)
    {
      var t := input.req.entryType;
      entries := entries[ids.entryId := entry];
      orderedByType := orderedByType[t := (if t in orderedByType then orderedByType[t] else []) + [ids.entryId]];
      chainTips := chainTips[t := ChainTip(ids.entryId, entry.entryHash, VERSION_V3, entry.chainPosition, entry.writtenTsMs)];
      if input.req.idempotencyKey.Some? {
        idempotencyIndex := idempotencyIndex[(t, input.req.idempotencyKey.value) := ids.entryId];
      }
      if input.createOutbox {
        outbox := outbox[ids.outboxId := record];
      }
    }

    /** `get_entry`. */
    method GetEntry(id: Uuid) returns (r: Result<Entry, RepositoryError>)
      ensures r == if id in entries then Ok(entries[id]) else Err(NotFound)
    {
      r := if id in entries then Ok(entries[id]) else Err(NotFound);
    }

    /** `get_chain_tip`. */
    method GetChainTip(t: Bytes) returns (r: Result<ChainTip, RepositoryError>)
      ensures r == if t in chainTips then Ok(chainTips[t]) else Err(NotFound)
      // On a consistent repository it is the last entry of the chain, field by field.
      ensures Valid() ==>
                var c := Chain(Contents(), t);
                && (r.Err? <==> c == [])
                && (r.Ok? ==>
                      var e, tip := c[|c| - 1], r.value;
                      && tip.entryId == e.entryId && tip.hash == e.entryHash && tip.hashVersion == e.hashVersion
                      && tip.position == e.chainPosition == |c| && tip.writtenTsMs == e.writtenTsMs)
    {
      hide ListsOk, EntriesOk, IndexOk, LedgerOk;
      if Valid() {
        TipGuard(hash, State(), t);
      }
      r := if t in chainTips then Ok(chainTips[t]) else Err(NotFound);
    }

    /** `get_entries_by_type_paged`: the rows past a position, in list order, cut at the limit. */
    method GetEntriesByTypePaged(t: Bytes, afterPosition: int, limit: int) returns (out: seq<Entry>)
      ensures out == Page(Rows(State(), t), afterPosition, limit)
    {
      out := [];
      if t !in orderedByType {
        return;
      }
      var ids := orderedByType[t];
      ghost var all := After(RowsOf(entries, ids), afterPosition);
      var k := 0;
      while k < |ids|
        invariant 0 <= k <= |ids|
        invariant all == out + After(RowsOf(entries, ids[k..]), afterPosition)
        invariant |out| < PageCap(limit)
      {
        RowsStep(entries, ids, k, afterPosition);
        if ids[k] in entries && entries[ids[k]].chainPosition > afterPosition {
          var entry := entries[ids[k]];
          AppendThen(out, entry, After(RowsOf(entries, ids[k + 1..]), afterPosition));
          out := out + [entry];
          if |out| >= PageCap(limit) {
            assert all[..|out|] == out;
            return;
          }
        }
        k := k + 1;
      }
      assert After(RowsOf(entries, ids[|ids|..]), afterPosition) == [];
    }

    /** `find_idempotent`: the entry of the type that holds the key, if any. */
    method FindIdempotent(t: Bytes, key: Bytes) returns (r: Option<Entry>)
      requires Valid()
      ensures r.Some? <==> KeyTaken(Chain(Contents(), t), Some(key))
      ensures r.Some? ==>
                r.value in Chain(Contents(), t) && r.value.req.idempotencyKey == Some(key) && r.value.req.entryType == t
    {
      ghost var m := State();
      IndexMeansTaken(m, t, key);
      RowCount(m, t);
      if (t, key) !in idempotencyIndex {
        return None;
      }
      var id := idempotencyIndex[(t, key)];
      EntryIsRow(m, id);
      return if id in entries then Some(entries[id]) else None;
    }

    /** The search through the map's values, in whatever order the map gives them. */
    method FindByHash(t: Bytes, entryHash: Bytes) returns (hit: Option<Uuid>)
      ensures hit.Some? ==> hit.value in entries && entries[hit.value].req.entryType == t && entries[hit.value].entryHash == entryHash
      ensures hit.None? ==> forall id | id in entries && entries[id].req.entryType == t :: entries[id].entryHash != entryHash
    {
      var rest := entries.Keys;
      while rest != {}
        invariant rest <= entries.Keys
        invariant forall id | id in entries && id !in rest && entries[id].req.entryType == t :: entries[id].entryHash != entryHash
      {
        var id :| id in rest;
        if entries[id].req.entryType == t && entries[id].entryHash == entryHash {
          return Some(id);
        }
        rest := rest - {id};
      }
      return None;
    }

    /** `get_entry_by_hash`: some entry of the type with the hash. */
    method GetEntryByHash(t: Bytes, entryHash: Bytes) returns (r: Result<Entry, RepositoryError>)
      ensures r.Ok? ==> r.value in entries.Values && r.value.req.entryType == t && r.value.entryHash == entryHash
      ensures r.Err? ==> r.error == NotFound && forall e | e in entries.Values && e.req.entryType == t :: e.entryHash != entryHash
      ensures Valid() ==> forall e :: e in Chain(Contents(), t) <==> e in entries.Values && e.req.entryType == t
    {
      hide LedgerOk, TipsOk, IndexOk;
      if Valid() {
        ChainIsEntries(State(), t);
      }
      var hit := FindByHash(t, entryHash);
      return if hit.Some? then Ok(entries[hit.value]) else Err(NotFound);
    }

    /** `pending_outbox`: the pending records, in whatever order the map gives them. */
    method PendingOutbox() returns (pending: seq<OutboxRecord>)
      requires Valid()
      ensures ListsPending(pending, outbox)
      // The same, spelled out.
      ensures forall r :: r in pending <==> r in outbox.Values && r.status == Pending
      ensures forall i, j | 0 <= i < j < |pending| :: pending[i].outboxId != pending[j].outboxId
    {
      hide WellFormed;
      OutboxKeyed(hash, State());
      pending := [];
      var rest := outbox.Keys;
      while rest != {}
        invariant rest <= outbox.Keys
        invariant forall i | 0 <= i < |pending| :: pending[i].outboxId in outbox.Keys - rest && InPending(outbox, pending[i])
        invariant forall i, j | 0 <= i < j < |pending| :: pending[i].outboxId != pending[j].outboxId
        invariant forall o | o in outbox.Keys - rest && outbox[o].status == Pending :: outbox[o] in pending
      {
        var o :| o in rest;
        if outbox[o].status == Pending {
          pending := pending + [outbox[o]];
        }
        rest := rest - {o};
      }
    }

    /** `mark_outbox_delivered`. */
    method MarkOutboxDelivered(o: Uuid) returns (r: Result<(), RepositoryError>)
      requires Valid()
      modifies this`outbox
      ensures Valid()
      ensures r == if o in old(outbox) then Ok(()) else Err(NotFound)
      ensures outbox == if o in old(outbox) then old(outbox)[o := old(outbox)[o].(status := Delivered)] else old(outbox)
    {
      r := SetRecord(o, if o in outbox then Some(outbox[o].(status := Delivered)) else None);
    }

    /** `increment_outbox_attempt`. */
    method IncrementOutboxAttempt(o: Uuid) returns (r: Result<(), RepositoryError>)
      requires Valid()
      modifies this`outbox
      ensures Valid()
      ensures r == if o in old(outbox) then Ok(()) else Err(NotFound)
      ensures outbox == if o in old(outbox) then old(outbox)[o := old(outbox)[o].(attemptCount := old(outbox)[o].attemptCount + 1)] else old(outbox)
    {
      r := SetRecord(o, if o in outbox then Some(outbox[o].(attemptCount := outbox[o].attemptCount + 1)) else None);
    }

    /** `mark_outbox_failed`. */
    method MarkOutboxFailed(o: Uuid) returns (r: Result<(), RepositoryError>)
      requires Valid()
      modifies this`outbox
      ensures Valid()
      ensures r == if o in old(outbox) then Ok(()) else Err(NotFound)
      ensures outbox == if o in old(outbox) then old(outbox)[o := old(outbox)[o].(status := Failed)] else old(outbox)
    {
      r := SetRecord(o, if o in outbox then Some(outbox[o].(status := Failed)) else None);
    }

    /** The assignment through `get_mut`: status and attempt count of a record that is there. */
    method SetRecord(o: Uuid, record: Option<OutboxRecord>) returns (r: Result<(), RepositoryError>)
      requires Valid()
      requires record.Some? <==> o in outbox
      requires record.Some? ==> SameSubject(record.value, outbox[o])
      modifies this`outbox
      ensures Valid()
      ensures r == if o in old(outbox) then Ok(()) else Err(NotFound)
      ensures outbox == if o in old(outbox) then old(outbox)[o := record.value] else old(outbox)
    {
      hide WellFormed;
      if record.None? {
        return Err(NotFound);
      }
      RecordSet(hash, State(), o, record.value);
      outbox := outbox[o := record.value];
      return Ok(());
    }
  }

  /** A record that may be delivered or retried but still speaks of the same entry. */
  predicate SameSubject(a: OutboxRecord, b: OutboxRecord) {
    a.outboxId == b.outboxId && a.entryId == b.entryId && a.entryType == b.entryType
  }

  predicate InPending(ob: map<Uuid, OutboxRecord>, r: OutboxRecord) {
    r.outboxId in ob && ob[r.outboxId] == r && r.status == Pending
  }

  /** `pending` lists each pending record once and nothing else. */
  ghost predicate ListsPending(pending: seq<OutboxRecord>, ob: map<Uuid, OutboxRecord>) {
    && (forall i | 0 <= i < |pending| :: InPending(ob, pending[i]))
    && (forall i, j | 0 <= i < j < |pending| :: pending[i].outboxId != pending[j].outboxId)
    && (forall o | o in ob && ob[o].status == Pending :: ob[o] in pending)
  }

  lemma OutboxKeyed(h: Hasher, m: Inner)
    requires WellFormed(h, m)
    ensures forall o | o in m.outbox :: m.outbox[o].outboxId == o
  {
  }

  lemma OutboxIsNoList(m: Inner, ob: map<Uuid, OutboxRecord>)
    requires ListsOk(m) && EntriesOk(m)
    ensures ListsOk(m.(outbox := ob)) && EntriesOk(m.(outbox := ob))
  {
    hide AllPresent;
    forall id | id in m.entries
      ensures Placed(m.(outbox := ob), id)
    {
      assert Placed(m, id);
    }
  }

  lemma OutboxIsNoIndex(m: Inner, ob: map<Uuid, OutboxRecord>)
    requires TipsOk(m) && IndexOk(m)
    ensures TipsOk(m.(outbox := ob)) && IndexOk(m.(outbox := ob))
  {
    forall t | t in m.chainTips
      ensures TipAgrees(m.(outbox := ob), t)
    {
      assert TipAgrees(m, t);
    }
  }

  lemma OutboxIsNoChain(h: Hasher, l: Ledger, o: Uuid, r: OutboxRecord)
    requires LedgerOk(h, l) && o in l.outbox && SameSubject(r, l.outbox[o])
    ensures LedgerOk(h, l.(outbox := l.outbox[o := r]))
  {
    hide ChainOk, KeysUnique, Holds;
    var l' := l.(outbox := l.outbox[o := r]);
    forall t | t in l'.chains
      ensures TypeOk(h, l', t)
    {
      assert TypeOk(h, l, t);
    }
  }

  /** Changing status or attempts keeps the five maps consistent. */
  lemma RecordSet(h: Hasher, m: Inner, o: Uuid, r: OutboxRecord)
    requires WellFormed(h, m) && o in m.outbox && SameSubject(r, m.outbox[o])
    ensures WellFormed(h, m.(outbox := m.outbox[o := r]))
  {
    hide ListsOk, EntriesOk, TipsOk, IndexOk, LedgerOk;
    OutboxIsNoList(m, m.outbox[o := r]);
    OutboxIsNoIndex(m, m.outbox[o := r]);
    OutboxIsNoChain(h, Abs(m), o, r);
    SameChains(m.(outbox := m.outbox[o := r]), Abs(m).chains);
  }

  /** The chain of a type holds the stored entries of the type and no others. */
  lemma ChainIsEntries(m: Inner, t: Bytes)
    requires ListsOk(m) && EntriesOk(m)
    ensures forall e :: e in Chain(Abs(m), t) <==> e in m.entries.Values && e.req.entryType == t
  {
    hide ListsOk, EntriesOk;
    forall e | e in Chain(Abs(m), t)
      ensures e in m.entries.Values && e.req.entryType == t
    {
      ChainEntry(m, t, e);
    }
    forall e | e in m.entries.Values && e.req.entryType == t
      ensures e in Chain(Abs(m), t)
    {
      var id :| id in m.entries && m.entries[id] == e;
      EntryIsRow(m, id);
    }
  }

  lemma ChainEntry(m: Inner, t: Bytes, e: Entry)
    requires ListsOk(m) && e in Chain(Abs(m), t)
    ensures e in m.entries.Values && e.req.entryType == t
  {
    assert AllPresent(m.entries, t, Ids(m, t));
    RowsOfAt(m.entries, t, Ids(m, t));
  }
}
