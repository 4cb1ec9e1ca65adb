/**
 The Postgres write as what it is, several statements between BEGIN and COMMIT, interleaved with any number of
 other transactions under read-committed isolation (src/repository/postgres.rs:84-213). The advisory lock key is
 any function of the entry type: types that share a key are only serialised. Texts may be refused or cut by their
 columns; only the type, which the lock is taken on, has to be stored as given.
 */
module PostgresTransactions {
  import opened Options
  import opened ByteText
  import opened Envelope
  import opened Ledger
  import opened Columns
  import opened Postgres

  datatype TxPc =
    | Begin
    | Locked
    | TipRead(nextPosition: int)
    | Inserted(row: Entry)
    | Finished(outcome: Result<Entry, RepositoryError>)

  datatype Tx = Tx(input: WriteInput, ids: Fresh, pc: TxPc)

  type LockKeys = Bytes -> int

  /** The committed ledger, the transactions and the advisory locks held. */
  datatype Db = Db(ledger: Ledger, txs: seq<Tx>, locks: map<int, nat>)

  function KeyOf(keys: LockKeys, tx: Tx): int {
    keys(tx.input.req.entryType)
  }

  function ChainOf(l: Ledger, tx: Tx): seq<Entry> {
    Chain(l, tx.input.req.entryType)
  }

  /** The next place of a transaction; `fail` is a lost connection or a database error. */
  function NextPc(h: Hasher, l: Ledger, tx: Tx, fail: bool): TxPc {
    var chain := ChainOf(l, tx);
    if tx.pc.Finished? then tx.pc
    else if fail then Finished(Err(Unavailable))
    else
      match tx.pc
      case Begin => Locked
      case Locked =>
        if !NoNul(tx.input.req.entryType) then Finished(Err(Unavailable))
        else if TipMatches(chain, tx.input.previousHash) then TipRead(|chain| + 1)
        else Finished(Err(ChainIntegrityViolation))
      case TipRead(nextPosition) =>
        if StoredWrite(tx.input).None? then Finished(Err(Unavailable))
        else if nextPosition <= |chain| then Finished(Err(ChainIntegrityViolation))
        else if KeyTaken(chain, StoredWrite(tx.input).value.req.idempotencyKey) then Finished(Err(IdempotencyConflict))
        else Inserted(RowOf(NewEntry(h, nextPosition, tx.input, tx.ids.entryId), StoredWrite(tx.input).value))
      case Inserted(row) => Finished(Ok(NewEntry(h, row.chainPosition, tx.input, tx.ids.entryId)))
  }

  /** The ledger with one more row. */
  function WithRow(l: Ledger, tx: Tx, row: Entry): Ledger {
    Ledger(l.chains[tx.input.req.entryType := ChainOf(l, tx) + [row]],
           if tx.input.createOutbox then l.outbox[tx.ids.outboxId := NewOutbox(tx.input, tx.ids)] else l.outbox)
  }

  /** COMMIT makes the inserted rows visible; nothing else does. */
  function NextLedger(l: Ledger, tx: Tx, fail: bool): Ledger {
    if tx.pc.Inserted? && !fail then WithRow(l, tx, tx.pc.row) else l
  }

  function Step(h: Hasher, keys: LockKeys, db: Db, who: nat, fail: bool): Db
    requires who < |db.txs|
  {
    var tx := db.txs[who];
    var next := NextPc(h, db.ledger, tx, fail);
    Db(NextLedger(db.ledger, tx, fail),
       db.txs[who := tx.(pc := next)],
       if next.Finished? then (if KeyOf(keys, tx) in db.locks && db.locks[KeyOf(keys, tx)] == who then db.locks - {KeyOf(keys, tx)} else db.locks)
       else if tx.pc.Begin? then db.locks[KeyOf(keys, tx) := who]
       else db.locks)
  }

  /** A transaction moves unless it has ended; it waits for its advisory lock. */
  predicate Enabled(keys: LockKeys, db: Db, who: nat, fail: bool) {
    && who < |db.txs| && !db.txs[who].pc.Finished?
    && (db.txs[who].pc.Begin? && !fail ==> KeyOf(keys, db.txs[who]) !in db.locks)
  }

  predicate HoldsLock(pc: TxPc) {
    pc.Locked? || pc.TipRead? || pc.Inserted?
  }

  ghost predicate LocksHeld(keys: LockKeys, db: Db) {
    forall i | 0 <= i < |db.txs| && HoldsLock(db.txs[i].pc) ::
      KeyOf(keys, db.txs[i]) in db.locks && db.locks[KeyOf(keys, db.txs[i])] == i
  }

  /** The tip matches, the columns take the texts, and the key as stored is free. */
  predicate Accepted(l: Ledger, tx: Tx) {
    && TipMatches(ChainOf(l, tx), tx.input.previousHash)
    && StoredWrite(tx.input).Some?
    && !KeyTaken(ChainOf(l, tx), StoredWrite(tx.input).value.req.idempotencyKey)
  }

  /** The entry type is stored as given, or the write is refused. */
  predicate TypeKept(input: WriteInput) {
    StoredWrite(input).Some? ==> StoredWrite(input).value.req.entryType == input.req.entryType
  }

  /** What a transaction has read or inserted is still true of the committed chain. */
  predicate Current(h: Hasher, l: Ledger, tx: Tx) {
    var chain := ChainOf(l, tx);
    TypeKept(tx.input) &&
    match tx.pc
    case TipRead(nextPosition) => TipMatches(chain, tx.input.previousHash) && nextPosition == |chain| + 1
    case Inserted(row) => Accepted(l, tx) && row == RowOf(NewEntry(h, |chain| + 1, tx.input, tx.ids.entryId), StoredWrite(tx.input).value)
    case _ => true
  }

  ghost predicate AllCurrent(h: Hasher, db: Db) {
    forall i | 0 <= i < |db.txs| :: Current(h, db.ledger, db.txs[i])
  }

  ghost predicate DbInv(h: Hasher, keys: LockKeys, db: Db) {
    LocksHeld(keys, db) && AllCurrent(h, db)
  }

  /** A run of any transactions, none of whose types is cut, from any committed ledger. */
  ghost predicate Run(h: Hasher, keys: LockKeys, trace: seq<Db>) {
    && trace != [] && trace[0].locks == map[]
    && (forall i | 0 <= i < |trace[0].txs| :: trace[0].txs[i].pc == Begin && TypeKept(trace[0].txs[i].input))
    && forall i | 0 <= i < |trace| - 1 :: Next(h, keys, trace[i], trace[i + 1])
  }

  ghost predicate Next(h: Hasher, keys: LockKeys, db: Db, db': Db) {
    exists who: nat, fail :: Enabled(keys, db, who, fail) && db' == Step(h, keys, db, who, fail)
  }

  lemma StepKeepsLocks(h: Hasher, keys: LockKeys, db: Db, who: nat, fail: bool)
    requires Enabled(keys, db, who, fail) && LocksHeld(keys, db)
    ensures LocksHeld(keys, Step(h, keys, db, who, fail))
  {
    hide TipMatches, KeyTaken, NextLedger, CurrentHash;
    var db' := Step(h, keys, db, who, fail);
    forall i | 0 <= i < |db'.txs| && HoldsLock(db'.txs[i].pc)
      ensures KeyOf(keys, db'.txs[i]) in db'.locks && db'.locks[KeyOf(keys, db'.txs[i])] == i
    {
      if i != who {
        assert db'.txs[i] == db.txs[i];
      }
    }
  }

  lemma OneHolder(keys: LockKeys, db: Db, i: nat, j: nat)
    requires LocksHeld(keys, db) && i < |db.txs| && j < |db.txs|
    requires HoldsLock(db.txs[i].pc) && HoldsLock(db.txs[j].pc)
    requires db.txs[i].input.req.entryType == db.txs[j].input.req.entryType
    ensures i == j
  {
  }

  lemma StepKeepsCurrent(h: Hasher, keys: LockKeys, db: Db, who: nat, fail: bool)
    requires Enabled(keys, db, who, fail) && DbInv(h, keys, db)
    ensures AllCurrent(h, Step(h, keys, db, who, fail))
  {
    hide TipMatches, KeyTaken, CurrentHash, LocksHeld;
    var db' := Step(h, keys, db, who, fail);
    forall i | 0 <= i < |db'.txs|
      ensures Current(h, db'.ledger, db'.txs[i])
    {
      assert Current(h, db.ledger, db.txs[i]);
      if i != who && HoldsLock(db.txs[i].pc) && HoldsLock(db.txs[who].pc)
         && db.txs[i].input.req.entryType == db.txs[who].input.req.entryType {
        OneHolder(keys, db, i, who);
      }
    }
  }

  lemma {:induction false} RunInv(h: Hasher, keys: LockKeys, trace: seq<Db>, n: nat)
    requires Run(h, keys, trace) && n < |trace|
    ensures DbInv(h, keys, trace[n])
  {
    hide Step, Current, KeyOf;
    if n == 0 {
      InitInv(h, keys, trace[0]);
    } else {
      RunInv(h, keys, trace, n - 1);
      assert Next(h, keys, trace[n - 1], trace[n - 1 + 1]);
      var who: nat, fail :| Enabled(keys, trace[n - 1], who, fail) && trace[n] == Step(h, keys, trace[n - 1], who, fail);
      StepKeepsLocks(h, keys, trace[n - 1], who, fail);
      StepKeepsCurrent(h, keys, trace[n - 1], who, fail);
    }
  }

  lemma InitInv(h: Hasher, keys: LockKeys, db: Db)
    requires forall i | 0 <= i < |db.txs| :: db.txs[i].pc == Begin && TypeKept(db.txs[i].input)
    ensures DbInv(h, keys, db)
  {
  }

  /** In every run transactions on one type never overlap between lock and end, whatever the lock keys are. */
  lemma SameTypeExcluded(h: Hasher, keys: LockKeys, trace: seq<Db>, n: nat, i: nat, j: nat)
    requires Run(h, keys, trace) && n < |trace| && i < |trace[n].txs| && j < |trace[n].txs|
    requires HoldsLock(trace[n].txs[i].pc) && HoldsLock(trace[n].txs[j].pc)
    requires trace[n].txs[i].input.req.entryType == trace[n].txs[j].input.req.entryType
    ensures i == j
  {
    hide Run;
    RunInv(h, keys, trace, n);
    OneHolder(keys, trace[n], i, j);
  }

  /** Every step of every run either leaves the committed ledger alone or commits one whole row, at the commit of the
      transaction that made it: exactly the abstract append if every text fits its column. An integrity violation is
      reported only on a tip that does not match, a key conflict only on a matching tip with the key as stored taken. */
  lemma TransactionsAreAtomic(h: Hasher, keys: LockKeys, trace: seq<Db>, n: nat, who: nat, fail: bool)
    requires Run(h, keys, trace) && n < |trace| && Enabled(keys, trace[n], who, fail)
    ensures var db := trace[n]; var tx := db.txs[who]; var db' := Step(h, keys, db, who, fail);
            var chain := ChainOf(db.ledger, tx); var pc := db'.txs[who].pc;
            && (if pc.Finished? && pc.outcome.Ok?
                then
                  && Accepted(db.ledger, tx)
                  && pc.outcome.value == NewEntry(h, |chain| + 1, tx.input, tx.ids.entryId)
                  && StoredWrite(tx.input).value.req.entryType == tx.input.req.entryType
                  && db'.ledger == WithRow(db.ledger, tx, RowOf(pc.outcome.value, StoredWrite(tx.input).value))
                  && db'.ledger.outbox == (if tx.input.createOutbox
                       then db.ledger.outbox[tx.ids.outboxId :=
                              OutboxRecord(tx.ids.outboxId, tx.ids.entryId, tx.input.req.entryType, Pending, 0)]
                       else db.ledger.outbox)
                  && (StorableWrite(tx.input) ==> Appendable(db.ledger, tx.input) && db'.ledger == Appended(h, db.ledger, tx.input, tx.ids))
                else db'.ledger == db.ledger)
            && (pc == Finished(Err(ChainIntegrityViolation)) ==> !TipMatches(chain, tx.input.previousHash))
            && (pc == Finished(Err(IdempotencyConflict)) ==>
                  && TipMatches(chain, tx.input.previousHash) && StoredWrite(tx.input).Some?
                  && KeyTaken(chain, StoredWrite(tx.input).value.req.idempotencyKey))
  {
    hide TipMatches, KeyTaken, CurrentHash, LocksHeld, Run, StoredWrite, StorableWrite, NoNul;
    RunInv(h, keys, trace, n);
    StoredWriteExact(trace[n].txs[who].input);
    assert Current(h, trace[n].ledger, trace[n].txs[who]);
  }

  /** A transaction whose request the columns refuse is never committed. */
  lemma {:induction false} RefusedStaysOut(h: Hasher, keys: LockKeys, trace: seq<Db>, n: nat, who: nat)
    requires Run(h, keys, trace) && n < |trace| && who < |trace[n].txs| && StoredWrite(trace[n].txs[who].input).None?
    ensures var pc := trace[n].txs[who].pc; !pc.Inserted? && !(pc.Finished? && pc.outcome.Ok?)
    decreases n
  {
    hide TipMatches, KeyTaken, CurrentHash, StoredWrite, NextLedger;
    if n > 0 {
      assert Next(h, keys, trace[n - 1], trace[n - 1 + 1]);
      var i: nat, fail :| Enabled(keys, trace[n - 1], i, fail) && trace[n] == Step(h, keys, trace[n - 1], i, fail);
      RefusedStaysOut(h, keys, trace, n - 1, who);
    }
  }
}
