/**
 The write protocol as a transition system: any number of writers, spread over any number of service instances
 that share one repository, each running `write_entry_impl` for one request. One step is one awaited repository
 call, lock acquisition or access to the halt map (src/service/mod.rs:269-433).
 */
module Protocol {
  import opened Options
  import opened ByteText
  import opened Envelope
  import opened Ledger
  import opened Columns
  import opened Receipts

  /** `initial` is the ledger the run begins with: empty, or what earlier runs have left. `postgres` says which repository
      it is: the Postgres transaction looks at the tip first, the in-memory repository at the key, and Postgres refuses
      texts that do not fit their columns. */
  datatype Setup = Setup(
    hash: Hasher,
    genesisInput: Bytes,
    maxContentSize: nat,
    maxRetries: nat,
    createOutbox: bool,
    postgres: bool,
    initial: Ledger)

  /** Where a writer stands; `seen` records the chain length at its tip read. */
  datatype Pc =
    | Start
    | ClearHalt
    | Lookup
    | WaitLock
    | ReadTip(attempt: nat)
    | Write(attempt: nat, previousHash: Bytes, seen: nat)
    | Relookup
    | Halt
    | Done(answer: Result<WriteOutput, ServiceError>)

  datatype Writer = Writer(instance: nat, req: Request, pc: Pc)

  /** The shared ledger, the writers, and per (instance, type) the chain lock and the halt mark. */
  datatype State = State(
    ledger: Ledger,
    writers: seq<Writer>,
    locks: map<(nat, Bytes), nat>,
    halted: set<(nat, Bytes)>)

  /** Who moves, and what the environment supplies: a repository failure, whether the halt has expired, the clock
      reading and the ids the write draws. */
  datatype Action = Action(who: nat, fail: bool, expired: bool, now: int, ids: Fresh)

  function LockKey(w: Writer): (nat, Bytes) {
    (w.instance, w.req.entryType)
  }

  function Genesis(c: Setup): Bytes {
    c.hash(c.genesisInput)
  }

  // -------------------------------------------------------------------- steps

  /** `find_idempotent`. */
  function FindKey(chain: seq<Entry>, key: Option<Bytes>): Option<Entry> {
    if chain == [] || key.None? then None
    else if chain[|chain| - 1].req.idempotencyKey == key then Some(chain[|chain| - 1])
    else FindKey(chain[..|chain| - 1], key)
  }

  function ReplayAnswer(existing: Entry, req: Request): Result<WriteOutput, ServiceError> {
    if Matches(existing, req) then Ok(OutputOf(existing)) else Err(AlreadyExists)
  }

  function AfterHaltCheck(req: Request): Pc {
    if req.idempotencyKey.Some? then Lookup else WaitLock
  }

  function WriteOf(c: Setup, w: Writer, now: int): WriteInput
    requires w.pc.Write?
  {
    WriteInput(w.req, w.pc.previousHash, now, c.createOutbox)
  }

  /** The repository accepts the write of `w`. */
  predicate Appends(c: Setup, l: Ledger, w: Writer, a: Action) {
    && w.pc.Write? && !a.fail && (c.postgres ==> Storable(w.req))
    && TipMatches(Chain(l, w.req.entryType), w.pc.previousHash)
    && !KeyTaken(Chain(l, w.req.entryType), w.req.idempotencyKey)
  }

  /** The columns refuse the write of `w`, once its tip has matched. */
  predicate ColumnsRefuse(c: Setup, l: Ledger, w: Writer) {
    c.postgres && w.pc.Write? && !Storable(w.req) && TipMatches(Chain(l, w.req.entryType), w.pc.previousHash)
  }

  /** What a refused write turns into: a second lookup, a retry or a halt. */
  function AfterRefusal(c: Setup, chain: seq<Entry>, w: Writer): Pc
    requires w.pc.Write?
  {
    var stale := !TipMatches(chain, w.pc.previousHash);
    if KeyTaken(chain, w.req.idempotencyKey) && !(stale && c.postgres) then Relookup
    else if w.pc.attempt + 1 < c.maxRetries then ReadTip(w.pc.attempt + 1)
    else Halt
  }

  function NextPc(c: Setup, s: State, w: Writer, a: Action): Pc {
    var chain := Chain(s.ledger, w.req.entryType);
    match w.pc
    case Start =>
      if Rejected(c.maxContentSize, w.req) then Done(Err(InvalidArgument))
      else if LockKey(w) in s.halted then (if a.expired then ClearHalt else Done(Err(ServiceUnavailable)))
      else AfterHaltCheck(w.req)
    case ClearHalt => AfterHaltCheck(w.req)
    case Lookup =>
      if a.fail then Done(Err(ServiceUnavailable))
      else
        var found := FindKey(chain, w.req.idempotencyKey);
        if found.Some? then Done(ReplayAnswer(found.value, w.req)) else WaitLock
    case WaitLock => if c.maxRetries == 0 then Done(Err(Internal)) else ReadTip(0)
    case ReadTip(attempt) =>
      if a.fail then Done(Err(ServiceUnavailable))
      else Write(attempt, TipHash(c.hash, c.genesisInput, chain), |chain|)
    case Write(attempt, previousHash, seen) =>
      if a.fail || ColumnsRefuse(c, s.ledger, w) then Done(Err(ServiceUnavailable))
      else if Appends(c, s.ledger, w, a) then
        Done(Ok(OutputOf(NewEntry(c.hash, |chain| + 1, WriteOf(c, w, a.now), a.ids.entryId))))
      else AfterRefusal(c, chain, w)
    case Relookup =>
      if a.fail then Done(Err(ServiceUnavailable))
      else
        var found := FindKey(chain, w.req.idempotencyKey);
        if found.Some? then Done(ReplayAnswer(found.value, w.req)) else Done(Err(ServiceUnavailable))
    case Halt => Done(Err(Internal))
    case Done(answer) => w.pc
  }

  function NextLedger(c: Setup, l: Ledger, w: Writer, a: Action): Ledger {
    if Appends(c, l, w, a) then Appended(c.hash, l, WriteOf(c, w, a.now), a.ids) else l
  }

  /** The chain lock is taken when the wait ends and dropped when the call returns. */
  function NextLocks(locks: map<(nat, Bytes), nat>, who: nat, w: Writer, next: Pc): map<(nat, Bytes), nat> {
    if next.Done? then (if LockKey(w) in locks && locks[LockKey(w)] == who then locks - {LockKey(w)} else locks)
    else if w.pc.WaitLock? then locks[LockKey(w) := who]
    else locks
  }

  function NextHalted(halted: set<(nat, Bytes)>, w: Writer): set<(nat, Bytes)> {
    if w.pc.Halt? then halted + {LockKey(w)}
    else if w.pc.ClearHalt? then halted - {LockKey(w)}
    else halted
  }

  /** The lock is free when it is waited for, and a write draws ids nobody has used. */
  ghost predicate Enabled(s: State, a: Action) {
    && a.who < |s.writers|
    && !s.writers[a.who].pc.Done?
    && (s.writers[a.who].pc.WaitLock? ==> LockKey(s.writers[a.who]) !in s.locks)
    && (s.writers[a.who].pc.Write? ==> Unused(s.ledger, a.ids))
  }

  function Step(c: Setup, s: State, a: Action): State
    requires a.who < |s.writers|
  {
    var w := s.writers[a.who];
    var next := NextPc(c, s, w, a);
    State(NextLedger(c, s.ledger, w, a),
          s.writers[a.who := w.(pc := next)],
          NextLocks(s.locks, a.who, w, next),
          NextHalted(s.halted, w))
  }

  /** A service that has just been started: its ledger is consistent, its locks and halt marks are new. Over Postgres no
      request may have a text that a column would cut. */
  ghost predicate Init(c: Setup, s: State) {
    && s.ledger == c.initial && LedgerInv(c, c.initial) && s.locks == map[] && s.halted == {}
    && (forall i | 0 <= i < |s.writers| :: s.writers[i].pc == Start)
    && (c.postgres ==> forall i | 0 <= i < |s.writers| :: !Cut(s.writers[i].req))
  }

  ghost predicate Next(c: Setup, s: State, s': State) {
    exists a :: Enabled(s, a) && s' == Step(c, s, a)
  }

  /** A run: every interleaving of the writers, with every environment. */
  ghost predicate Run(c: Setup, trace: seq<State>) {
    && trace != [] && Init(c, trace[0])
    && forall i | 0 <= i < |trace| - 1 :: Next(c, trace[i], trace[i + 1])
  }

  /** SHA-256 in hexadecimal is never empty. */
  predicate Sane(c: Setup) {
    Genesis(c) != []
  }

  // --------------------------------------------------------- ledger invariant

  ghost predicate LedgerInv(c: Setup, l: Ledger) {
    && LedgerOk(c.hash, l) && IdsUnique(l) && StartsAtGenesis(Genesis(c), l)
    && Extends(c.initial, l) && NewEntriesOk(c, l)
  }

  /** What was appended since has the current version of the envelope and, over Postgres, texts that fit their columns,
      so what is stored is what was hashed. */
  ghost predicate NewEntriesOk(c: Setup, l: Ledger) {
    forall t, i | |Chain(c.initial, t)| <= i < |Chain(l, t)| ::
      Chain(l, t)[i].hashVersion == VERSION_V3 && (c.postgres ==> Storable(Chain(l, t)[i].req))
  }

  /** How many entries the type has got since the run began. */
  function Growth(c: Setup, chain: seq<Entry>, t: Bytes): int {
    |chain| - |Chain(c.initial, t)|
  }

  // --------------------------------------------------------- writer invariant

  /** What a writer's place in the code says about the chain of its type. Each clause survives any appends. */
  ghost predicate WriterInv(c: Setup, chain: seq<Entry>, w: Writer) {
    var growth := Growth(c, chain, w.req.entryType);
    match w.pc
    case ReadTip(attempt) => attempt < c.maxRetries && attempt <= growth
    case Write(attempt, previousHash, seen) =>
      && attempt < c.maxRetries && seen <= |chain| && attempt <= Growth(c, chain[..seen], w.req.entryType)
      && previousHash == TipHash(c.hash, c.genesisInput, chain[..seen])
    case Relookup => KeyTaken(chain, w.req.idempotencyKey)
    case Halt => c.maxRetries <= growth
    case Done(answer) =>
      && (answer.Ok? ==> Answers(chain, w.req, answer.value))
      && (answer == Err(AlreadyExists) ==> Clashes(chain, w.req))
      && (answer == Err(Internal) ==> c.maxRetries <= growth)
    case _ => true
  }

  ghost predicate WritersInv(c: Setup, s: State) {
    forall i | 0 <= i < |s.writers| :: WriterInv(c, Chain(s.ledger, s.writers[i].req.entryType), s.writers[i])
  }

  lemma WriterInvSurvives(c: Setup, before: seq<Entry>, after: seq<Entry>, w: Writer)
    requires before <= after && WriterInv(c, before, w)
    ensures WriterInv(c, after, w)
  {
    match w.pc
    case Write(attempt, previousHash, seen) =>
      assert before[..seen] == after[..seen];
    case Relookup =>
      KeyTakenSurvives(before, after, w.req.idempotencyKey);
    case Done(answer) =>
      AnswersSurvive(before, after, w.req, answer);
    case _ =>
  }

  lemma AnswersSurvive(before: seq<Entry>, after: seq<Entry>, req: Request, answer: Result<WriteOutput, ServiceError>)
    requires before <= after
    ensures answer.Ok? && Answers(before, req, answer.value) ==> Answers(after, req, answer.value)
    ensures Clashes(before, req) ==> Clashes(after, req)
  {
    if answer.Ok? && Answers(before, req, answer.value) {
      var i :| 0 <= i < |before| && AnsweredBy(before[i], req, answer.value);
      assert AnsweredBy(after[i], req, answer.value);
    }
    if Clashes(before, req) {
      var i :| 0 <= i < |before| && before[i].req.idempotencyKey == req.idempotencyKey && before[i].req != req;
      assert after[i] == before[i];
    }
  }

  lemma {:induction false} FindKeyExact(chain: seq<Entry>, key: Option<Bytes>)
    ensures FindKey(chain, key).Some? <==> KeyTaken(chain, key)
    ensures FindKey(chain, key).Some? ==> FindKey(chain, key).value in chain && FindKey(chain, key).value.req.idempotencyKey == key
    decreases |chain|
  {
    if chain != [] && key.Some? {
      var n := |chain| - 1;
      FindKeyExact(chain[..n], key);
      if chain[n].req.idempotencyKey == key {
        assert KeyAt(chain, n, key.value);
      } else {
        if KeyTaken(chain, key) {
          var i :| 0 <= i < |chain| && KeyAt(chain, i, key.value);
          assert KeyAt(chain[..n], i, key.value);
        }
        if KeyTaken(chain[..n], key) {
          KeyTakenSurvives(chain[..n], chain, key);
        }
      }
    }
  }

  /** What a lookup leads to is true of the chain. */
  lemma ReplayInv(c: Setup, chain: seq<Entry>, w: Writer, found: Entry)
    requires w.req.idempotencyKey.Some?
    requires FindKey(chain, w.req.idempotencyKey) == Some(found) && found.req.entryType == w.req.entryType
    ensures WriterInv(c, chain, w.(pc := Done(ReplayAnswer(found, w.req))))
  {
    FindKeyExact(chain, w.req.idempotencyKey);
    ReplayMeans(chain, found, w.req);
  }

  /** A refused write: either the key is held, or someone has appended since the tip read. */
  lemma RefusalInv(c: Setup, l: Ledger, w: Writer, a: Action)
    requires Sane(c) && w.pc.Write? && !a.fail && !ColumnsRefuse(c, l, w) && !Appends(c, l, w, a)
    requires WriterInv(c, Chain(l, w.req.entryType), w)
    ensures WriterInv(c, Chain(l, w.req.entryType), w.(pc := AfterRefusal(c, Chain(l, w.req.entryType), w)))
    ensures AfterRefusal(c, Chain(l, w.req.entryType), w) != Relookup ==> |Chain(l, w.req.entryType)| > w.pc.seen
  {
    var chain := Chain(l, w.req.entryType);
    if !TipMatches(chain, w.pc.previousHash) {
      StaleTipMeansGrowth(c.hash, c.genesisInput, chain[..w.pc.seen], chain);
    }
  }

  lemma MoverInv(c: Setup, s: State, a: Action)
    requires Sane(c) && a.who < |s.writers|
    requires Growth(c, Chain(s.ledger, s.writers[a.who].req.entryType), s.writers[a.who].req.entryType) >= 0
    requires forall e | e in Chain(s.ledger, s.writers[a.who].req.entryType) :: e.req.entryType == s.writers[a.who].req.entryType
    requires WriterInv(c, Chain(s.ledger, s.writers[a.who].req.entryType), s.writers[a.who])
    ensures var s' := Step(c, s, a);
            WriterInv(c, Chain(s'.ledger, s'.writers[a.who].req.entryType), s'.writers[a.who])
  {
    hide CurrentHash, Answers, Clashes, KeyTaken, FindKey;
    var w := s.writers[a.who];
    var chain := Chain(s.ledger, w.req.entryType);
    match w.pc
    case Lookup =>
      FindKeyExact(chain, w.req.idempotencyKey);
      if FindKey(chain, w.req.idempotencyKey).Some? {
        KeyTakenSome(chain, w.req.idempotencyKey);
        ReplayInv(c, chain, w, FindKey(chain, w.req.idempotencyKey).value);
      }
    case Relookup =>
      FindKeyExact(chain, w.req.idempotencyKey);
      KeyTakenSome(chain, w.req.idempotencyKey);
      ReplayInv(c, chain, w, FindKey(chain, w.req.idempotencyKey).value);
    case ReadTip(attempt) =>
      assert chain[..|chain|] == chain;
    case Write(attempt, previousHash, seen) =>
      if Appends(c, s.ledger, w, a) {
        AppendAnswers(c.hash, s.ledger, WriteOf(c, w, a.now), a.ids);
      } else if !a.fail && !ColumnsRefuse(c, s.ledger, w) {
        RefusalInv(c, s.ledger, w, a);
      }
    case _ =>
  }

  lemma KeyTakenSome(chain: seq<Entry>, key: Option<Bytes>)
    ensures KeyTaken(chain, key) ==> key.Some?
  {
  }
}
