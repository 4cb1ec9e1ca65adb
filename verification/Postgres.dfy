/**
 The Postgres repository's write (src/repository/postgres.rs): one table of entries with unique indexes and bounded
 text columns, one outbox table, and a transaction under an advisory lock. For requests whose texts fit their columns
 it implements the same abstract append as the in-memory repository; for all others it is said exactly what it does.
 */
module Postgres {
  import opened Options
  import opened ByteText
  import opened Envelope
  import opened Ledger
  import opened Verifier
  import opened Columns

  // ------------------------------------------------------------- the tables

  /** The rows of a type, in the order they were inserted. */
  function OfType(rows: seq<Entry>, t: Bytes): seq<Entry> {
    if rows == [] then []
    else
      var last := rows[|rows| - 1];
      OfType(rows[..|rows| - 1], t) + (if last.req.entryType == t then [last] else [])
  }

  function Types(rows: seq<Entry>): set<Bytes> {
    set e | e in rows :: e.req.entryType
  }

  function Tables(rows: seq<Entry>, outbox: map<Uuid, OutboxRecord>): Ledger {
    Ledger(map t | t in Types(rows) :: OfType(rows, t), outbox)
  }

  lemma {:induction false} OfTypeAbsent(rows: seq<Entry>, t: Bytes)
    requires t !in Types(rows)
    ensures OfType(rows, t) == []
    decreases |rows|
  {
    if rows != [] {
      var n := |rows| - 1;
      assert rows[n] in rows;
      assert forall e | e in rows[..n] :: e in rows;
      OfTypeAbsent(rows[..n], t);
    }
  }

  lemma ChainIsOfType(rows: seq<Entry>, outbox: map<Uuid, OutboxRecord>, t: Bytes)
    ensures Chain(Tables(rows, outbox), t) == OfType(rows, t)
  {
    if t !in Types(rows) {
      OfTypeAbsent(rows, t);
    }
  }

  /** Rows and chain hold the same entries of the type. */
  lemma {:induction false} OfTypeHolds(rows: seq<Entry>, t: Bytes, e: Entry)
    ensures e in OfType(rows, t) <==> e in rows && e.req.entryType == t
    decreases |rows|
  {
    if rows != [] {
      var n := |rows| - 1;
      OfTypeHolds(rows[..n], t, e);
      assert rows == rows[..n] + [rows[n]];
    }
  }

  lemma InsertedType(rows: seq<Entry>, e: Entry, t: Bytes)
    ensures OfType(rows + [e], t) == if e.req.entryType == t then OfType(rows, t) + [e] else OfType(rows, t)
  {
    assert (rows + [e])[..|rows|] == rows;
  }

  lemma SameTables(rows: seq<Entry>, outbox: map<Uuid, OutboxRecord>, chains: map<Bytes, seq<Entry>>)
    requires Types(rows) == chains.Keys
    requires forall t | t in chains :: OfType(rows, t) == chains[t]
    ensures Tables(rows, outbox).chains == chains
  {
  }

  /** One inserted row is one append. */
  lemma InsertIsAppend(h: Hasher, rows: seq<Entry>, outbox: map<Uuid, OutboxRecord>, input: WriteInput, ids: Fresh)
    ensures var e := NewEntry(h, |OfType(rows, input.req.entryType)| + 1, input, ids.entryId);
            Tables(rows + [e], if input.createOutbox then outbox[ids.outboxId := NewOutbox(input, ids)] else outbox)
            == Appended(h, Tables(rows, outbox), input, ids)
  {
    hide CurrentHash, OfType, Types;
    var t := input.req.entryType;
    var e := NewEntry(h, |OfType(rows, t)| + 1, input, ids.entryId);
    var chains := Appended(h, Tables(rows, outbox), input, ids).chains;
    ChainIsOfType(rows, outbox, t);
    TypesSnoc(rows, e);
    assert chains.Keys == Types(rows) + {t};
    forall u | u in chains
      ensures OfType(rows + [e], u) == chains[u]
    {
      InsertedType(rows, e, u);
    }
    SameTables(rows + [e], outbox, chains);
  }

  lemma TypesSnoc(rows: seq<Entry>, e: Entry)
    ensures Types(rows + [e]) == Types(rows) + {e.req.entryType}
  {
    var all := rows + [e];
    assert e in all;
    forall t | t in Types(rows)
      ensures t in Types(all)
    {
      var x :| x in rows && x.req.entryType == t;
      assert x in all;
    }
  }

  /** The row with the highest position of a consistent type is the last of its chain. */
  lemma HighestIsLast(h: Hasher, t: Bytes, c: seq<Entry>, e: Entry)
    requires ChainOk(h, t, c) && e in c
    requires forall x | x in c :: x.chainPosition <= e.chainPosition
    ensures e == c[|c| - 1] && e.chainPosition == |c|
  {
    hide Recomputed;
    var k :| 0 <= k < |c| && c[k] == e;
    assert EntryOk(h, t, c, k) && EntryOk(h, t, c, |c| - 1);
    assert c[|c| - 1] in c;
  }

  // ---------------------------------------------------------- the write

  /** `ORDER BY chain_position DESC LIMIT 1` over the rows of a type. */
  function HighestRow(rows: seq<Entry>, t: Bytes): Option<Entry> {
    if rows == [] then None
    else
      var tip, last := HighestRow(rows[..|rows| - 1], t), rows[|rows| - 1];
      if last.req.entryType == t && (tip.None? || last.chainPosition > tip.value.chainPosition) then Some(last) else tip
  }

  predicate RowMatches(tip: Option<Entry>, previousHash: Bytes) {
    if tip.None? then previousHash != [] else tip.value.entryHash == previousHash
  }

  /** The entry as the code hashes and returns it. */
  function HashedEntry(h: Hasher, rows: seq<Entry>, input: WriteInput, ids: Fresh): Entry {
    var tip := HighestRow(rows, input.req.entryType);
    NewEntry(h, if tip.None? then 1 else tip.value.chainPosition + 1, input, ids.entryId)
  }

  /** The write as the columns take it. */
  function StoredWrite(input: WriteInput): Option<WriteInput> {
    var req, previous := StoredRequest(input.req), Stored(DIGEST_WIDTH, input.previousHash);
    if req.None? || previous.None? then None else Some(input.(req := req.value, previousHash := previous.value))
  }

  /** Every text of the write fits its column; a caller can tell. */
  predicate StorableWrite(input: WriteInput) {
    Storable(input.req) && FitsColumn(DIGEST_WIDTH, input.previousHash)
  }

  predicate CutWrite(input: WriteInput) {
    StoredWrite(input).Some? && !StorableWrite(input)
  }

  lemma StoredWriteExact(input: WriteInput)
    ensures StoredWrite(input) == Some(input) <==> StorableWrite(input)
    ensures StoredWrite(input).Some? ==> StorableWrite(StoredWrite(input).value)
  {
    hide StoredRequest, Storable, Stored, FitsColumn;
    StoredRequestExact(input.req);
    StoredExact(DIGEST_WIDTH, input.previousHash);
  }

  /** The row that is inserted for an entry. */
  function RowOf(e: Entry, stored: WriteInput): Entry {
    e.(req := stored.req, previousHash := stored.previousHash)
  }

  predicate IdOrPositionTaken(rows: seq<Entry>, e: Entry) {
    exists r | r in rows :: SameIdOrPosition(r, e)
  }

  predicate KeyHeld(rows: seq<Entry>, e: Entry) {
    exists r | r in rows :: SameKey(r, e)
  }

  /** The row a transaction inserts, or why it is rolled back. The tip read already fails on a type with a NUL; the
      insert converts the texts before it looks at the unique indexes. */
  function Outcome(h: Hasher, rows: seq<Entry>, input: WriteInput, ids: Fresh): Result<Entry, RepositoryError> {
    if !NoNul(input.req.entryType) then Err(Unavailable)
    else if !RowMatches(HighestRow(rows, input.req.entryType), input.previousHash) then Err(ChainIntegrityViolation)
    else if StoredWrite(input).None? then Err(Unavailable)
    else
      var row := RowOf(HashedEntry(h, rows, input, ids), StoredWrite(input).value);
      if IdOrPositionTaken(rows, row) then Err(ChainIntegrityViolation)
      else if KeyHeld(rows, row) then Err(IdempotencyConflict)
      else Ok(row)
  }

  ghost predicate Fitted(rows: seq<Entry>) {
    forall e | e in rows :: Storable(e.req)
  }

  class PostgresLedgerRepository {
    const hash: Hasher
    var rows: seq<Entry>
    var outbox: map<Uuid, OutboxRecord>

    ghost function Contents(): Ledger
      reads this
    {
      Tables(rows, outbox)
    }

    /** What the columns see to. */
    ghost predicate Valid()
      reads this
    {
      HexDigest(hash) && Fitted(rows)
    }

    /** Nothing was cut so far. */
    ghost predicate Consistent()
      reads this
    {
      LedgerOk(hash, Contents())
    }

    constructor (hash: Hasher)
      requires HexDigest(hash)
      ensures Valid() && Consistent() && this.hash == hash && Contents() == Ledger(map[], map[])
    {
      this.hash := hash;
      rows, outbox := [], map[];
    }

    method TipRow(t: Bytes) returns (tip: Option<Entry>)
      ensures tip == HighestRow(rows, t)
    {
      tip := None;
      var i := 0;
      while i < |rows|
        invariant 0 <= i <= |rows|
        invariant tip == HighestRow(rows[..i], t)
      {
        assert rows[..i + 1][..i] == rows[..i];
        if rows[i].req.entryType == t && (tip.None? || rows[i].chainPosition > tip.value.chainPosition) {
          tip := Some(rows[i]);
        }
        i := i + 1;
      }
      assert rows[..i] == rows;
    }

    /** The insert: the columns take the texts or refuse them, then the unique indexes are looked at. */
    method InsertRow(entry: Entry, input: WriteInput) returns (error: Option<RepositoryError>)
      modifies this`rows
      ensures var stored := StoredWrite(input);
              if stored.None? then error == Some(Unavailable) && rows == old(rows)
              else
                var row := RowOf(entry, stored.value);
                if IdOrPositionTaken(old(rows), row) then error == Some(ChainIntegrityViolation) && rows == old(rows)
                else if KeyHeld(old(rows), row) then error == Some(IdempotencyConflict) && rows == old(rows)
                else error == None && rows == old(rows) + [row]
    {
      hide SameIdOrPosition, SameKey, StoredWrite;
      var stored := StoredWrite(input);
      if stored.None? {
        return Some(Unavailable);
      }
      var row := RowOf(entry, stored.value);
      if IdOrPositionTaken(rows, row) {
        return Some(ChainIntegrityViolation);
      }
      if KeyHeld(rows, row) {
        return Some(IdempotencyConflict);
      }
      rows := rows + [row];
      return None;
    }

    /** `write_entry_with_outbox` as one transaction. The answer holds the texts as they were hashed, the tables hold
        them as the columns took them. */
    method WriteEntryWithOutbox(input: WriteInput, ids: Fresh) returns (r: Result<WriteResult, RepositoryError>)
      requires Valid() && ids.outboxId !in outbox
      modifies this
      ensures Valid()
      ensures var o := Outcome(hash, old(rows), input, ids);
              if o.Err? then r == Err(o.error) && rows == old(rows) && outbox == old(outbox)
              else
                && r == Ok(WriteResult(HashedEntry(hash, old(rows), input, ids),
                                       if input.createOutbox then Some(NewOutbox(input, ids)) else None))
                && rows == old(rows) + [o.value]
                && outbox == (if input.createOutbox then old(outbox)[ids.outboxId := NewOutbox(StoredWrite(input).value, ids)]
                              else old(outbox))
      // The same, spelled out: the fields of the answer, and one pending record that has not been tried.
      ensures r.Ok? ==>
                var e := r.value.entry;
                && e.entryId == ids.entryId && e.req == input.req && e.previousHash == input.previousHash
                && e.writtenTsMs == input.writtenTsMs && e.hashVersion == Ascii("ARE_LEDGER_ENTRY_HASH_V3")
                && e.entryHash == hash(PreimageV3(HashInput(e.entryId, e.req, e.chainPosition, e.writtenTsMs, e.previousHash)))
                && StoredWrite(input).Some?
      ensures r.Ok? && input.createOutbox ==>
                && outbox == old(outbox)[ids.outboxId :=
                     OutboxRecord(ids.outboxId, ids.entryId, StoredWrite(input).value.req.entryType, Pending, 0)]
                && r.value.outbox == Some(OutboxRecord(ids.outboxId, ids.entryId, input.req.entryType, Pending, 0))
      ensures r.Err? || !input.createOutbox ==> outbox == old(outbox)
    {
      hide SameIdOrPosition, SameKey, StoredWrite, HighestRow, CurrentHash, PreimageV3, Ascii, HexDigest, Storable, IdOrPositionTaken, KeyHeld;
      StoredWriteExact(input);
      if !NoNul(input.req.entryType) {
        return Err(Unavailable);
      }
      var tip := TipRow(input.req.entryType);
      if tip.None? {
        if input.previousHash == [] {
          return Err(ChainIntegrityViolation);
        }
      } else if tip.value.entryHash != input.previousHash {
        return Err(ChainIntegrityViolation);
      }
      var nextPosition := if tip.None? then 1 else tip.value.chainPosition + 1;
      var entry := NewEntry(hash, nextPosition, input, ids.entryId);
      NewEntryMeans(hash, nextPosition, input, ids.entryId);
      var error := InsertRow(entry, input);
      if error.Some? {
        return Err(error.value);
      }
      if input.createOutbox {
        outbox := outbox[ids.outboxId := NewOutbox(StoredWrite(input).value, ids)];
      }
      return Ok(WriteResult(entry, if input.createOutbox then Some(NewOutbox(input, ids)) else None));
    }
  }

  /** The primary key and the unique index on type and position. */
  predicate SameIdOrPosition(r: Entry, e: Entry) {
    r.entryId == e.entryId || (r.req.entryType == e.req.entryType && r.chainPosition == e.chainPosition)
  }

  /** `idx_ledger_idempotency`, the partial unique index on type and key. */
  predicate SameKey(r: Entry, e: Entry) {
    r.req.entryType == e.req.entryType && e.req.idempotencyKey.Some? && r.req.idempotencyKey == e.req.idempotencyKey
  }

  /** A new row past the tip can only violate the index on the key, and does so exactly when the key is taken. */
  lemma ViolationIsKey(h: Hasher, rows: seq<Entry>, outbox: map<Uuid, OutboxRecord>, e: Entry)
    requires LedgerOk(h, Tables(rows, outbox))
    requires forall r | r in rows :: r.entryId != e.entryId
    requires e.chainPosition == |Chain(Tables(rows, outbox), e.req.entryType)| + 1
    ensures forall r | r in rows :: !SameIdOrPosition(r, e)
    ensures (exists r | r in rows :: SameKey(r, e)) <==> KeyTaken(Chain(Tables(rows, outbox), e.req.entryType), e.req.idempotencyKey)
  {
    hide OutboxOk, CurrentHash;
    var t := e.req.entryType;
    var l := Tables(rows, outbox);
    var c := Chain(l, t);
    ChainIsOfType(rows, outbox, t);
    forall r | r in rows
      ensures !SameIdOrPosition(r, e)
      ensures SameKey(r, e) ==> KeyTaken(c, e.req.idempotencyKey)
    {
      if r.req.entryType == t {
        RowInChain(h, rows, outbox, r);
      }
    }
    if KeyTaken(c, e.req.idempotencyKey) {
      var k :| 0 <= k < |c| && KeyAt(c, k, e.req.idempotencyKey.value);
      OfTypeHolds(rows, t, c[k]);
      assert SameKey(c[k], e);
    }
  }

  lemma RowInChain(h: Hasher, rows: seq<Entry>, outbox: map<Uuid, OutboxRecord>, r: Entry)
    requires LedgerOk(h, Tables(rows, outbox)) && r in rows
    ensures var c := Chain(Tables(rows, outbox), r.req.entryType);
            && r.chainPosition <= |c|
            && (r.req.idempotencyKey.Some? ==> KeyTaken(c, r.req.idempotencyKey))
  {
    hide OutboxOk, CurrentHash;
    var t := r.req.entryType;
    var l := Tables(rows, outbox);
    var c := Chain(l, t);
    ChainIsOfType(rows, outbox, t);
    OfTypeHolds(rows, t, r);
    assert r in c;
    assert TypeOk(h, l, t);
    var k :| 0 <= k < |c| && c[k] == r;
    assert EntryOk(h, t, c, k);
    assert r.req.idempotencyKey.Some? ==> KeyAt(c, k, r.req.idempotencyKey.value);
  }

  // -------------------------------------------------- on a consistent ledger

  lemma TipRowIsLast(h: Hasher, rows: seq<Entry>, outbox: map<Uuid, OutboxRecord>, t: Bytes, tip: Option<Entry>)
    requires LedgerOk(h, Tables(rows, outbox))
    requires tip.None? ==> forall e | e in rows :: e.req.entryType != t
    requires tip.Some? ==> tip.value in rows && tip.value.req.entryType == t
    requires tip.Some? ==> forall e | e in rows && e.req.entryType == t :: e.chainPosition <= tip.value.chainPosition
    ensures var c := Chain(Tables(rows, outbox), t);
            && tip == (if c == [] then None else Some(c[|c| - 1]))
            && (tip.Some? ==> tip.value.chainPosition == |c|)
  {
    hide EntryOk, OutboxOk;
    var l := Tables(rows, outbox);
    var c := Chain(l, t);
    ChainIsOfType(rows, outbox, t);
    if tip.None? {
      assert t !in Types(rows);
    } else {
      OfTypeHolds(rows, t, tip.value);
      assert tip.value in c;
      assert TypeOk(h, l, t);
      forall x | x in c
        ensures x.chainPosition <= tip.value.chainPosition
      {
        OfTypeHolds(rows, t, x);
      }
      HighestIsLast(h, t, c, tip.value);
    }
  }

  lemma {:induction false} HighestRowExact(rows: seq<Entry>, t: Bytes)
    ensures var tip := HighestRow(rows, t);
            && (tip.None? <==> forall e | e in rows :: e.req.entryType != t)
            && (tip.Some? ==> tip.value in rows && tip.value.req.entryType == t)
            && (tip.Some? ==> forall e | e in rows && e.req.entryType == t :: e.chainPosition <= tip.value.chainPosition)
    decreases |rows|
  {
    if rows != [] {
      var n := |rows| - 1;
      HighestRowExact(rows[..n], t);
      assert rows == rows[..n] + [rows[n]];
      assert rows[n] in rows;
    }
  }

  /** The tip read answers the last entry of the chain. */
  lemma HighestOnLedger(h: Hasher, rows: seq<Entry>, outbox: map<Uuid, OutboxRecord>, t: Bytes)
    requires LedgerOk(h, Tables(rows, outbox))
    ensures var c := Chain(Tables(rows, outbox), t);
            && HighestRow(rows, t) == (if c == [] then None else Some(c[|c| - 1]))
            && (c != [] ==> c[|c| - 1].chainPosition == |c|)
  {
    hide LedgerOk, Tables, HighestRow;
    HighestRowExact(rows, t);
    TipRowIsLast(h, rows, outbox, t, HighestRow(rows, t));
  }

  /** No chain has a name that does not fit its column. */
  lemma WideNamesHaveNoChain(rows: seq<Entry>, outbox: map<Uuid, OutboxRecord>, t: Bytes)
    requires Fitted(rows) && !FitsColumn(NAME_WIDTH, t)
    ensures Chain(Tables(rows, outbox), t) == []
  {
    hide FitsColumn;
    forall e | e in rows
      ensures e.req.entryType != t
    {
      assert Storable(e.req);
    }
    assert t !in Types(rows);
  }

  /** What the write does to a consistent ledger, for every input. A type that is cut leads to the chain of the name
      that is left, where the row only fits as the first. */
  function LedgerOutcome(h: Hasher, l: Ledger, input: WriteInput, ids: Fresh): Result<Entry, RepositoryError> {
    var t := input.req.entryType;
    var c := Chain(l, t);
    if !NoNul(t) then Err(Unavailable)
    else if !TipMatches(c, input.previousHash) then Err(ChainIntegrityViolation)
    else if StoredWrite(input).None? then Err(Unavailable)
    else
      var s := StoredWrite(input).value;
      if s.req.entryType != t && Chain(l, s.req.entryType) != [] then Err(ChainIntegrityViolation)
      else if s.req.entryType == t && KeyTaken(c, s.req.idempotencyKey) then Err(IdempotencyConflict)
      else Ok(RowOf(NewEntry(h, |c| + 1, input, ids.entryId), s))
  }

  /** The first row of a chain that has none yet: its place and key are free. */
  lemma FirstPlace(h: Hasher, rows: seq<Entry>, outbox: map<Uuid, OutboxRecord>, e: Entry)
    requires LedgerOk(h, Tables(rows, outbox)) && e.chainPosition == 1
    requires forall r | r in rows :: r.entryId != e.entryId
    ensures IdOrPositionTaken(rows, e) <==> Chain(Tables(rows, outbox), e.req.entryType) != []
    ensures !IdOrPositionTaken(rows, e) ==> !KeyHeld(rows, e)
  {
    hide OutboxOk, CurrentHash, Recomputed;
    var u := e.req.entryType;
    var l := Tables(rows, outbox);
    var c := Chain(l, u);
    ChainIsOfType(rows, outbox, u);
    if c != [] {
      OfTypeHolds(rows, u, c[0]);
      assert TypeOk(h, l, u);
      assert EntryOk(h, u, c, 0);
      assert SameIdOrPosition(c[0], e);
    }
    forall r | r in rows && r.req.entryType == u
      ensures c != []
    {
      OfTypeHolds(rows, u, r);
    }
  }

  lemma OutcomeExact(h: Hasher, rows: seq<Entry>, outbox: map<Uuid, OutboxRecord>, input: WriteInput, ids: Fresh)
    requires LedgerOk(h, Tables(rows, outbox)) && Fitted(rows)
    requires forall e | e in rows :: e.entryId != ids.entryId
    ensures Outcome(h, rows, input, ids) == LedgerOutcome(h, Tables(rows, outbox), input, ids)
  {
    hide LedgerOk, Tables, HighestRow, CurrentHash, KeyTaken, SameIdOrPosition, SameKey, StoredWrite, FitsColumn;
    var t := input.req.entryType;
    var l := Tables(rows, outbox);
    HighestOnLedger(h, rows, outbox, t);
    var c := Chain(l, t);
    if StoredWrite(input).Some? {
      var s := StoredWrite(input).value;
      var row := RowOf(NewEntry(h, |c| + 1, input, ids.entryId), s);
      StoredType(input);
      if s.req.entryType == t {
        ViolationIsKey(h, rows, outbox, row);
      } else {
        WideNamesHaveNoChain(rows, outbox, t);
        FirstPlace(h, rows, outbox, row);
      }
    }
  }

  /** A type that is cut did not fit. */
  lemma StoredType(input: WriteInput)
    requires StoredWrite(input).Some?
    ensures StoredWrite(input).value.req.entryType != input.req.entryType ==> !FitsColumn(NAME_WIDTH, input.req.entryType)
  {
    hide Stored, FitsColumn;
    StoredExact(NAME_WIDTH, input.req.entryType);
  }

  /** A request that fits its columns is appended exactly as the abstract ledger appends it. */
  lemma StorableIsAppend(h: Hasher, rows: seq<Entry>, outbox: map<Uuid, OutboxRecord>, input: WriteInput, ids: Fresh)
    requires LedgerOk(h, Tables(rows, outbox)) && Fitted(rows) && StorableWrite(input)
    requires forall e | e in rows :: e.entryId != ids.entryId
    ensures var o := Outcome(h, rows, input, ids);
            && (o.Ok? <==> Appendable(Tables(rows, outbox), input))
            && (o.Ok? ==> o.value == HashedEntry(h, rows, input, ids)
                          && Tables(rows + [o.value], if input.createOutbox then outbox[ids.outboxId := NewOutbox(input, ids)] else outbox)
                             == Appended(h, Tables(rows, outbox), input, ids)
                          && LedgerOk(h, Appended(h, Tables(rows, outbox), input, ids)))
  {
    hide LedgerOk, Tables, CurrentHash, KeyTaken, StoredWrite, HighestRow, Outcome, Characters;
    OutcomeExact(h, rows, outbox, input, ids);
    StoredWriteExact(input);
    HighestOnLedger(h, rows, outbox, input.req.entryType);
    ChainIsOfType(rows, outbox, input.req.entryType);
    if Appendable(Tables(rows, outbox), input) {
      InsertIsAppend(h, rows, outbox, input, ids);
      AppendKeepsLedgerOk(h, Tables(rows, outbox), input, ids);
    }
  }

  /** The row that is stored is the one that was hashed exactly when nothing was cut. Otherwise its hash no longer
      recomputes, unless the two texts collide. */
  lemma StoredRowExact(h: Hasher, rows: seq<Entry>, input: WriteInput, ids: Fresh)
    requires Outcome(h, rows, input, ids).Ok?
    ensures var e, row := HashedEntry(h, rows, input, ids), Outcome(h, rows, input, ids).value;
            && (row == e <==> StorableWrite(input))
            && (Recomputed(h, row) == Some(row.entryHash) <==>
                StorableWrite(input) || HasCollision(h, {PreimageV3(InputOf(e)), PreimageV3(InputOf(row))}))
  {
    hide HighestRow, IdOrPositionTaken, KeyHeld, StoredWrite, Stored, StoredRequest, PreimageV3, PreimageV2, FitsColumn;
    StoredWriteExact(input);
    var e, row := HashedEntry(h, rows, input, ids), Outcome(h, rows, input, ids).value;
    TagsDiffer();
    CutChangesText(input, e, row);
  }

  /** A text that was cut is another text. */
  lemma CutChangesText(input: WriteInput, e: Entry, row: Entry)
    requires StoredWrite(input).Some? && e.req == input.req && e.previousHash == input.previousHash
    requires row == RowOf(e, StoredWrite(input).value)
    ensures StoredWrite(input) == Some(input) <==> PreimageV3(InputOf(e)) == PreimageV3(InputOf(row))
    ensures StoredWrite(input) == Some(input) <==> row == e
  {
    hide Stored, PreimageV3;
    PreimageV3Exact(InputOf(e), InputOf(row));
    KeptOption(NAME_WIDTH, input.req.correlationId);
    KeptOption(NAME_WIDTH, input.req.idempotencyKey);
    KeptOption(INPUT_HASH_WIDTH, input.req.inputHash);
    KeptOption(NAME_WIDTH, input.req.signerKeyReference);
  }

  lemma KeptOption(width: nat, text: Option<Bytes>)
    requires StoredOption(width, text).Some?
    ensures StoredOption(width, text).value.GetOr([]) == text.GetOr([]) ==> StoredOption(width, text).value == text
  {
    hide Stored;
  }
}
