/**
 The same write given to both repositories: where they agree, where their answers differ, and the requests that show
 it (src/repository/mod.rs, src/repository/postgres.rs and the column widths of the migrations).
 */
module BothRepositories {
  import opened Options
  import opened ByteText
  import opened Envelope
  import opened Ledger
  import opened Repository
  import opened Verifier
  import opened Columns
  import opened Postgres

  /** When the two answers differ: on a type with a NUL; on a stale tip with the key taken; and, on a matching tip, when
      the columns refuse the request, or cut it down to a key that is held or to a type that has entries. */
  predicate AnswersDiffer(l: Ledger, input: WriteInput) {
    var t := input.req.entryType;
    var c, key, s := Chain(l, t), input.req.idempotencyKey, StoredWrite(input);
    if !NoNul(t) then true
    else if !TipMatches(c, input.previousHash) then KeyTaken(c, key)
    else if s.None? then true
    else if s.value.req.entryType != t then Chain(l, s.value.req.entryType) != []
    else KeyTaken(c, key) != KeyTaken(c, s.value.req.idempotencyKey)
  }

  /** Unless a text is cut, that is: a type with a NUL, a stale tip with the key taken, or a matching tip and a request
      that does not fit. */
  lemma AnswersDifferUncut(l: Ledger, input: WriteInput)
    requires !CutWrite(input)
    ensures AnswersDiffer(l, input) <==>
            var c := Chain(l, input.req.entryType);
            || !NoNul(input.req.entryType)
            || (!TipMatches(c, input.previousHash) && KeyTaken(c, input.req.idempotencyKey))
            || (TipMatches(c, input.previousHash) && !StorableWrite(input))
  {
    hide TipMatches, KeyTaken, StoredWrite, Characters;
    StoredWriteExact(input);
  }

  lemma WideNameHasNoKey(l: Ledger, t: Bytes, key: Option<Bytes>)
    requires Chain(l, t) == []
    ensures !KeyTaken(Chain(l, t), key)
  {
  }

  /** The answers of both, in terms of the ledger they share. */
  lemma BothAnswers(h: Hasher, l: Ledger, input: WriteInput, ids: Fresh)
    requires var u := StoredWrite(input);
             u.Some? && u.value.req.entryType != input.req.entryType ==> Chain(l, input.req.entryType) == []
    ensures var c, o := Chain(l, input.req.entryType), LedgerOutcome(h, l, input, ids);
            AnswersDiffer(l, input) <==>
            || (Appendable(l, input) && o.Err?) || (!Appendable(l, input) && o.Ok?)
            || (o.Err? && o.error != if KeyTaken(c, input.req.idempotencyKey) then IdempotencyConflict else ChainIntegrityViolation)
  {
    hide TipMatches, KeyTaken, StoredWrite, CurrentHash, NoNul;
    if Chain(l, input.req.entryType) == [] {
      WideNameHasNoKey(l, input.req.entryType, input.req.idempotencyKey);
    }
  }

  /** A consistent table holds only rows whose hash recomputes. */
  lemma ConsistentRow(h: Hasher, rows: seq<Entry>, outbox: map<Uuid, OutboxRecord>, e: Entry)
    requires LedgerOk(h, Tables(rows, outbox)) && e in rows
    ensures Recomputed(h, e) == Some(e.entryHash)
  {
    hide Recomputed, OutboxOk;
    var t := e.req.entryType;
    var l := Tables(rows, outbox);
    ChainIsOfType(rows, outbox, t);
    OfTypeHolds(rows, t, e);
    assert e in Chain(l, t);
    assert TypeOk(h, l, t);
    var k :| 0 <= k < |Chain(l, t)| && Chain(l, t)[k] == e;
    assert EntryOk(h, t, Chain(l, t), k);
  }

  /** Both repositories, given the same ledger, the same write and the same ids. For every request of which no text is
      cut, Postgres succeeds exactly if the in-memory repository does and every text fits its column; if every text fits,
      both reach the same ledger. If a text is cut, the table holds a row that was not hashed, and stays consistent only
      if the two texts collide. */
  method WriteToBoth(mem: InMemoryLedgerRepository, pg: PostgresLedgerRepository, input: WriteInput, ids: Fresh)
    returns (rm: Result<WriteResult, RepositoryError>, rp: Result<WriteResult, RepositoryError>)
    requires mem.Valid() && pg.Valid() && pg.Consistent() && mem.hash == pg.hash && mem.Contents() == pg.Contents()
    requires ids.entryId !in mem.entries && ids.outboxId !in mem.outbox
    requires (forall e | e in pg.rows :: e.entryId != ids.entryId) && ids.outboxId !in pg.outbox
    modifies mem, pg
    ensures mem.Valid() && pg.Valid()
    ensures rm.Ok? <==> Appendable(old(mem.Contents()), input)
    ensures !CutWrite(input) ==> (rp.Ok? <==> rm.Ok? && StorableWrite(input))
    ensures rm != rp <==> AnswersDiffer(old(mem.Contents()), input)
    ensures !CutWrite(input) && rp.Err? ==>
              && (rp.error == Unavailable <==>
                    || !NoNul(input.req.entryType)
                    || (TipMatches(Chain(old(mem.Contents()), input.req.entryType), input.previousHash) && !StorableWrite(input)))
              && (rp.error == ChainIntegrityViolation <==>
                    NoNul(input.req.entryType) && !TipMatches(Chain(old(mem.Contents()), input.req.entryType), input.previousHash))
              && rp.error in {Unavailable, ChainIntegrityViolation, IdempotencyConflict}
    ensures rm.Ok? ==> mem.Contents() == Appended(mem.hash, old(mem.Contents()), input, ids)
    ensures rm.Err? ==> mem.Contents() == old(mem.Contents())
    ensures rp.Err? ==> pg.rows == old(pg.rows) && pg.outbox == old(pg.outbox)
    ensures StorableWrite(input) ==> pg.Consistent() && mem.Contents() == pg.Contents()
    ensures rp.Ok? ==>
              && |pg.rows| == |old(pg.rows)| + 1 && pg.rows[..|old(pg.rows)|] == old(pg.rows)
              && var row := pg.rows[|old(pg.rows)|];
              && (row == rp.value.entry <==> StorableWrite(input))
              && (pg.Consistent() ==> StorableWrite(input)
                                      || HasCollision(pg.hash, {PreimageV3(InputOf(rp.value.entry)), PreimageV3(InputOf(row))}))
  {
    hide WellFormed, LedgerOk, Abs, Tables, Appended, TipMatches, KeyTaken, CurrentHash, StoredWrite, Outcome, AnswersDiffer, LedgerOutcome;
    hide HighestRow, StorableWrite, HasCollision, PreimageV3, HexDigest, Fitted, Recomputed, RowOf;
    ghost var l, rows, outbox := mem.Contents(), pg.rows, pg.outbox;
    PostgresOutcome(pg.hash, rows, outbox, input, ids);
    rm := mem.WriteEntryWithOutbox(input, ids);
    rp := pg.WriteEntryWithOutbox(input, ids);
    if rp.Ok? {
      StoredRowExact(pg.hash, rows, input, ids);
      if pg.Consistent() {
        ConsistentRow(pg.hash, pg.rows, pg.outbox, pg.rows[|rows|]);
      }
    }
  }

  /** What Postgres makes of the write, against what the abstract append makes of it. */
  lemma PostgresOutcome(h: Hasher, rows: seq<Entry>, outbox: map<Uuid, OutboxRecord>, input: WriteInput, ids: Fresh)
    requires LedgerOk(h, Tables(rows, outbox)) && Fitted(rows)
    requires forall e | e in rows :: e.entryId != ids.entryId
    ensures var l, o := Tables(rows, outbox), Outcome(h, rows, input, ids);
            var c := Chain(l, input.req.entryType);
            && (!CutWrite(input) ==> (o.Ok? <==> Appendable(l, input) && StorableWrite(input)))
            && (!CutWrite(input) && o.Err? ==>
                  && (o.error == Unavailable <==>
                        !NoNul(input.req.entryType) || (TipMatches(c, input.previousHash) && !StorableWrite(input)))
                  && (o.error == ChainIntegrityViolation <==> NoNul(input.req.entryType) && !TipMatches(c, input.previousHash))
                  && o.error in {Unavailable, ChainIntegrityViolation, IdempotencyConflict})
            && (AnswersDiffer(l, input) <==>
                || (Appendable(l, input) && o.Err?) || (!Appendable(l, input) && o.Ok?)
                || (o.Err? && o.error != if KeyTaken(c, input.req.idempotencyKey) then IdempotencyConflict else ChainIntegrityViolation))
            && (o.Ok? ==> HashedEntry(h, rows, input, ids) == NewEntry(h, |c| + 1, input, ids.entryId))
            && (StorableWrite(input) && o.Ok? ==>
                  && StoredWrite(input) == Some(input)
                  && Tables(rows + [o.value], if input.createOutbox then outbox[ids.outboxId := NewOutbox(input, ids)] else outbox)
                     == Appended(h, l, input, ids)
                  && LedgerOk(h, Appended(h, l, input, ids)))
  {
    hide LedgerOk, Tables, TipMatches, KeyTaken, CurrentHash, StoredWrite, Outcome, AnswersDiffer, HighestRow, Storable, Fitted, Appended;
    OutcomeExact(h, rows, outbox, input, ids);
    HighestOnLedger(h, rows, outbox, input.req.entryType);
    StoredWriteExact(input);
    if StoredWrite(input).Some? {
      StoredType(input);
      if StoredWrite(input).value.req.entryType != input.req.entryType {
        WideNamesHaveNoChain(rows, outbox, input.req.entryType);
      }
    }
    BothAnswers(h, Tables(rows, outbox), input, ids);
    if StorableWrite(input) {
      StorableIsAppend(h, rows, outbox, input, ids);
    }
  }

  // ------------------------------------------------- requests that show it

  function Letters(n: nat): Bytes {
    seq(n, _ => 97)
  }

  /** A write on an empty chain, all right but for its agent. */
  function ByAgent(agentId: Bytes): WriteInput {
    var t := Letters(1);
    WriteInput(Request(t, agentId, [], t, t, None, None, None, None, None, None), Letters(64), 0, false)
  }

  lemma ByAgentFits(agentId: Bytes)
    ensures StorableWrite(ByAgent(agentId)) <==> FitsColumn(NAME_WIDTH, agentId)
    ensures StoredWrite(ByAgent(agentId)).Some? <==> Stored(NAME_WIDTH, agentId).Some?
    ensures NoNul(Letters(1)) && Appendable(Ledger(map[], map[]), ByAgent(agentId))
    ensures StoredWrite(ByAgent(agentId)).Some? ==> StoredWrite(ByAgent(agentId)).value.req.entryType == Letters(1)
  {
    hide Stored, FitsColumn, Characters, NoNul, Letters;
    ShortFits();
    StoredExact(NAME_WIDTH, Letters(1));
    StoredExact(CONTENT_TYPE_WIDTH, Letters(1));
    StoredExact(DIGEST_WIDTH, Letters(64));
  }

  lemma ShortFits()
    ensures FitsColumn(NAME_WIDTH, Letters(1)) && FitsColumn(CONTENT_TYPE_WIDTH, Letters(1)) && FitsColumn(DIGEST_WIDTH, Letters(64))
    ensures NoNul(Letters(1)) && Letters(64) != []
  {
    hide Characters;
    AsciiCount(Letters(1));
    AsciiCount(Letters(64));
  }

  lemma EmptyTables()
    ensures Tables([], map[]) == Ledger(map[], map[])
  {
  }

  /** What an empty table answers to such a write. */
  lemma EmptyAnswer(h: Hasher, agentId: Bytes, ids: Fresh)
    ensures Appendable(Tables([], map[]), ByAgent(agentId))
    ensures StoredWrite(ByAgent(agentId)).None? ==> Outcome(h, [], ByAgent(agentId), ids) == Err(Unavailable)
    ensures StoredWrite(ByAgent(agentId)).Some? ==> Outcome(h, [], ByAgent(agentId), ids).Ok?
  {
    hide StoredWrite, CurrentHash, NoNul;
    ByAgentFits(agentId);
    EmptyTables();
    assert NoNul(ByAgent(agentId).req.entryType);
  }

  /** An agent id of 256 letters, and any agent id with a NUL: the in-memory repository appends, Postgres refuses. */
  lemma RefusedByColumn(h: Hasher, ids: Fresh, agentId: Bytes)
    requires agentId == Letters(256) || !NoNul(agentId)
    ensures Appendable(Tables([], map[]), ByAgent(agentId)) && Outcome(h, [], ByAgent(agentId), ids) == Err(Unavailable)
  {
    hide StoredWrite, Outcome, Characters;
    EmptyAnswer(h, agentId, ids);
    ByAgentFits(agentId);
    if agentId == Letters(256) {
      AsciiCount(agentId);
      ClipCounts(agentId, NAME_WIDTH);
    }
  }

  /** An agent id of 255 letters and a space: Postgres appends a row that was not hashed, and its hash recomputes only if
      the two texts collide. So the table does not stay consistent. */
  lemma CutByColumn(h: Hasher, ids: Fresh)
    ensures var input := ByAgent(Letters(255) + [SPACE]);
            var o := Outcome(h, [], input, ids);
            && CutWrite(input) && Appendable(Tables([], map[]), input) && o.Ok?
            && o.value != HashedEntry(h, [], input, ids)
            && (Recomputed(h, o.value) == Some(o.value.entryHash) ==>
                  HasCollision(h, {PreimageV3(InputOf(HashedEntry(h, [], input, ids))), PreimageV3(InputOf(o.value))}))
            && (LedgerOk(h, Tables([o.value], map[])) ==> Recomputed(h, o.value) == Some(o.value.entryHash))
  {
    hide StoredWrite, Outcome, Characters, Recomputed, HasCollision, PreimageV3, HashedEntry, LedgerOk, Tables;
    var agentId := Letters(255) + [SPACE];
    var input := ByAgent(agentId);
    ByAgentFits(agentId);
    EmptyAnswer(h, agentId, ids);
    AsciiCount(agentId);
    ClipCounts(agentId, NAME_WIDTH);
    AsciiCount(agentId[..Clip(agentId, NAME_WIDTH)]);
    assert agentId[Clip(agentId, NAME_WIDTH)..] == [SPACE];
    StoredRowExact(h, [], input, ids);
    var o := Outcome(h, [], input, ids);
    if LedgerOk(h, Tables([o.value], map[])) {
      ConsistentRow(h, [o.value], map[], o.value);
    }
  }
}
