/**
 The outbox retry machine (src/service/mod.rs): one processor that takes the pending records in passes and
 publishes each, while writers keep adding records. The publisher may succeed or fail at will.
 */
module Outbox {
  import opened Options
  import opened ByteText
  import opened Envelope
  import opened Ledger
  import opened Repository

  type Records = map<Uuid, OutboxRecord>

  type u32 = x: int | 0 <= x < 0x1_0000_0000

  /** `max_retries as i32`: the upper half of the range turns negative. */
  function AsI32(m: u32): int {
    if m < 0x8000_0000 then m else m - 0x1_0000_0000
  }

  /** The attempt at which a record is given up. */
  function Limit(maxRetries: u32): int {
    if AsI32(maxRetries) >= 1 then AsI32(maxRetries) else 1
  }

  predicate GivesUp(maxRetries: u32, attempts: int) {
    attempts >= AsI32(maxRetries)
  }

  /** The configured number is the limit exactly when it is positive and fits a signed 32-bit integer; else the limit is
      a single attempt. */
  lemma LimitIsConfigured(maxRetries: u32)
    ensures Limit(maxRetries) == maxRetries <==> 1 <= maxRetries <= 0x7fff_ffff
    ensures Limit(maxRetries) == maxRetries || Limit(maxRetries) == 1
  {
  }

  // ------------------------------------------------------ transition system

  /** Between two repository calls of `publish_one`: delivered but not marked, failed but not counted, counted but
      not judged. */
  datatype Phase =
    | Idle
    | Published(record: OutboxRecord)
    | Refused(record: OutboxRecord)
    | Counted(record: OutboxRecord)

  /** The records, what is left of the pass, where the processor stands, and the ids published successfully. */
  datatype State = State(records: Records, pass: seq<OutboxRecord>, phase: Phase, published: set<Uuid>)

  /** One step: a writer adds a record, the processor fetches a pass, publishes the next record with some outcome,
      or makes its next repository call. */
  datatype Action = Arrive(record: OutboxRecord) | Fetch(pending: seq<OutboxRecord>) | Publish(ok: bool) | Proceed

  ghost predicate Enabled(s: State, a: Action) {
    match a
    case Arrive(r) => r.outboxId !in s.records && r.status == Pending && r.attemptCount == 0
    case Fetch(pending) => s.phase == Idle && s.pass == [] && ListsPending(pending, s.records)
    case Publish(ok) => s.phase == Idle && s.pass != []
    case Proceed => s.phase != Idle
  }

  function Apply(maxRetries: u32, s: State, a: Action): State {
    match a
    case Arrive(r) => s.(records := s.records[r.outboxId := r])
    case Fetch(pending) => s.(pass := pending)
    case Publish(ok) =>
      if s.pass == [] then s
      else
        var r := s.pass[0];
        if ok then s.(pass := s.pass[1..], phase := Published(r), published := s.published + {r.outboxId})
        else s.(pass := s.pass[1..], phase := Refused(r))
    case Proceed =>
      match s.phase
      case Idle => s
      case Published(r) => s.(records := SetStatus(s.records, r.outboxId, Delivered), phase := Idle)
      case Refused(r) => s.(records := CountAttempt(s.records, r.outboxId), phase := Counted(r))
      case Counted(r) =>
        s.(records := if GivesUp(maxRetries, r.attemptCount + 1) then SetStatus(s.records, r.outboxId, Failed) else s.records,
           phase := Idle)
  }

  function SetStatus(ob: Records, o: Uuid, status: OutboxStatus): Records {
    if o in ob then ob[o := ob[o].(status := status)] else ob
  }

  function CountAttempt(ob: Records, o: Uuid): Records {
    if o in ob then ob[o := ob[o].(attemptCount := ob[o].attemptCount + 1)] else ob
  }

  ghost predicate Init(s: State) {
    s == State(map[], [], Idle, {})
  }

  ghost predicate Next(maxRetries: u32, s: State, s': State) {
    exists a :: Enabled(s, a) && s' == Apply(maxRetries, s, a)
  }

  ghost predicate Run(maxRetries: u32, trace: seq<State>) {
    && trace != [] && Init(trace[0])
    && forall i | 0 <= i < |trace| - 1 :: Next(maxRetries, trace[i], trace[i + 1])
  }

  /** The record a write leaves is an arrival, and the next listing of pending records has it. */
  lemma WriteArrives(maxRetries: u32, s: State, entryId: Uuid, outboxId: Uuid, entryType: Bytes, after: Records, pending: seq<OutboxRecord>)
    requires outboxId !in s.records
    requires after == s.records[outboxId := OutboxRecord(outboxId, entryId, entryType, Pending, 0)]
    requires ListsPending(pending, after)
    ensures var r := OutboxRecord(outboxId, entryId, entryType, Pending, 0);
            && Enabled(s, Arrive(r)) && Apply(maxRetries, s, Arrive(r)) == s.(records := after)
            && r in pending
  {
    assert after[outboxId] in pending;
  }

  /** A write to the repository, and the listing of the pending records after it: the record is in the list, and to the
      retry machine it has just arrived. */
  method WriteThenList(repo: InMemoryLedgerRepository, input: WriteInput, ids: Fresh, ghost maxRetries: u32, ghost s: State)
    returns (r: Result<WriteResult, RepositoryError>, pending: seq<OutboxRecord>)
    requires repo.Valid() && ids.entryId !in repo.entries && ids.outboxId !in repo.outbox
    requires s.records == repo.outbox
    modifies repo
    ensures repo.Valid()
    ensures r.Ok? && input.createOutbox ==>
              var record := OutboxRecord(ids.outboxId, ids.entryId, input.req.entryType, Pending, 0);
              && record in pending
              && Enabled(s, Arrive(record)) && Apply(maxRetries, s, Arrive(record)) == s.(records := repo.outbox)
  {
    hide WellFormed, ListsPending, Abs, Appended, Appendable, NewEntry, KeyTaken, PreimageV3;
    r := repo.WriteEntryWithOutbox(input, ids);
    pending := repo.PendingOutbox();
    if r.Ok? && input.createOutbox {
      WriteArrives(maxRetries, s, ids.entryId, ids.outboxId, input.req.entryType, repo.outbox, pending);
    }
  }

  // -------------------------------------------------------------- invariant

  /** The record in hand, with the attempt count the repository has for it by now. */
  predicate InHand(s: State, o: Uuid) {
    s.phase != Idle && s.phase.record.outboxId == o
  }

  /** A record and its attempts. A pending record at the limit exists only between its count and its verdict. */
  predicate RecordInv(maxRetries: u32, s: State, o: Uuid)
    requires o in s.records
  {
    var r := s.records[o];
    && r.outboxId == o
    && 0 <= r.attemptCount
    && (r.status == Pending ==> r.attemptCount < Limit(maxRetries) || (s.phase.Counted? && InHand(s, o)))
    && (r.status == Failed ==> r.attemptCount == Limit(maxRetries))
    && (r.status == Delivered ==> o in s.published && r.attemptCount < Limit(maxRetries))
  }

  /** The snapshot of the pass is still what the repository holds, and does not contain the record in hand. */
  ghost predicate PassInv(s: State) {
    && (forall i | 0 <= i < |s.pass| :: InPending(s.records, s.pass[i]) && !InHand(s, s.pass[i].outboxId))
    && (forall i, j | 0 <= i < j < |s.pass| :: s.pass[i].outboxId != s.pass[j].outboxId)
  }

  predicate PhaseInv(maxRetries: u32, s: State) {
    match s.phase
    case Idle => true
    case Published(r) => InPending(s.records, r) && r.outboxId in s.published && r.attemptCount < Limit(maxRetries)
    case Refused(r) => InPending(s.records, r) && r.attemptCount < Limit(maxRetries)
    case Counted(r) =>
      InPending(s.records, r.(attemptCount := r.attemptCount + 1)) && 0 <= r.attemptCount < Limit(maxRetries)
  }

  ghost predicate Inv(maxRetries: u32, s: State) {
    && (forall o | o in s.records :: RecordInv(maxRetries, s, o))
    && PassInv(s)
    && PhaseInv(maxRetries, s)
  }

  lemma StepKeepsRecords(maxRetries: u32, s: State, a: Action)
    requires Enabled(s, a) && Inv(maxRetries, s)
    ensures var s' := Apply(maxRetries, s, a); forall o | o in s'.records :: RecordInv(maxRetries, s', o)
  {
    var s' := Apply(maxRetries, s, a);
    forall o | o in s'.records
      ensures RecordInv(maxRetries, s', o)
    {
      assert o in s.records ==> RecordInv(maxRetries, s, o);
    }
  }

  lemma StepKeepsPass(maxRetries: u32, s: State, a: Action)
    requires Enabled(s, a) && Inv(maxRetries, s)
    ensures PassInv(Apply(maxRetries, s, a))
  {
    hide RecordInv;
    var s' := Apply(maxRetries, s, a);
    forall i | 0 <= i < |s'.pass|
      ensures InPending(s'.records, s'.pass[i]) && !InHand(s', s'.pass[i].outboxId)
    {
      if a.Publish? {
        assert s'.pass[i] == s.pass[i + 1];
      }
    }
  }

  lemma StepKeepsPhase(maxRetries: u32, s: State, a: Action)
    requires Enabled(s, a) && Inv(maxRetries, s)
    ensures PhaseInv(maxRetries, Apply(maxRetries, s, a))
  {
    hide ListsPending;
    if a.Publish? {
      assert InPending(s.records, s.pass[0]) && RecordInv(maxRetries, s, s.pass[0].outboxId);
    } else if a.Proceed? {
      assert s.phase.record.outboxId in s.records ==> RecordInv(maxRetries, s, s.phase.record.outboxId);
    }
  }

  lemma {:induction false} RunInv(maxRetries: u32, trace: seq<State>, n: nat)
    requires Run(maxRetries, trace) && n < |trace|
    ensures Inv(maxRetries, trace[n])
  {
    hide Enabled, Apply, RecordInv, PassInv, PhaseInv;
    if n == 0 {
      EmptyInv(maxRetries, trace[0]);
    } else {
      RunInv(maxRetries, trace, n - 1);
      assert Next(maxRetries, trace[n - 1], trace[n - 1 + 1]);
      var a :| Enabled(trace[n - 1], a) && trace[n] == Apply(maxRetries, trace[n - 1], a);
      StepKeepsRecords(maxRetries, trace[n - 1], a);
      StepKeepsPass(maxRetries, trace[n - 1], a);
      StepKeepsPhase(maxRetries, trace[n - 1], a);
    }
  }

  lemma EmptyInv(maxRetries: u32, s: State)
    requires Init(s)
    ensures Inv(maxRetries, s)
  {
  }

  // ----------------------------------------------------------------- safety

  /** In every run, for every configured maximum: attempts never exceed the limit; a failed record has used up
      exactly the limit; a delivered record was published successfully, with attempts to spare. A pending record has
      attempts to spare as well, but for the moment in which its last attempt is counted and not yet judged. */
  lemma OutboxSafety(maxRetries: u32, trace: seq<State>, n: nat, o: Uuid)
    requires Run(maxRetries, trace) && n < |trace| && o in trace[n].records
    ensures var s := trace[n]; var r := s.records[o];
            && 0 <= r.attemptCount <= Limit(maxRetries)
            && (r.status == Pending ==> (r.attemptCount == Limit(maxRetries) <==> AwaitsVerdict(maxRetries, s, o)))
            && (r.status == Failed ==> r.attemptCount == Limit(maxRetries))
            && (r.status == Delivered ==> o in s.published && r.attemptCount < Limit(maxRetries))
  {
    RunInv(maxRetries, trace, n);
    assert RecordInv(maxRetries, trace[n], o);
  }

  /** The processor has counted an attempt of this record and is about to mark it failed. */
  predicate AwaitsVerdict(maxRetries: u32, s: State, o: Uuid) {
    s.phase.Counted? && s.phase.record.outboxId == o && GivesUp(maxRetries, s.phase.record.attemptCount + 1)
  }

  lemma Extend(maxRetries: u32, trace: seq<State>, a: Action) returns (longer: seq<State>)
    requires Run(maxRetries, trace) && trace != [] && Enabled(trace[|trace| - 1], a)
    ensures Run(maxRetries, longer) && longer != []
    ensures longer[|longer| - 1] == Apply(maxRetries, trace[|trace| - 1], a)
  {
    hide Apply, Enabled;
    var s := trace[|trace| - 1];
    longer := trace + [Apply(maxRetries, s, a)];
    forall i | 0 <= i < |longer| - 1
      ensures Next(maxRetries, longer[i], longer[i + 1])
    {
      if i < |trace| - 1 {
        assert Next(maxRetries, trace[i], trace[i + 1]);
      } else {
        assert longer[i] == s && longer[i + 1] == Apply(maxRetries, s, a);
      }
    }
  }

  /** A record that has been refused `k` times. */
  function Tried(k: nat): OutboxRecord {
    OutboxRecord(0, 0, [], Pending, k)
  }

  lemma {:induction false} RefusedTimes(maxRetries: u32, k: nat) returns (trace: seq<State>)
    requires k < Limit(maxRetries)
    ensures Run(maxRetries, trace) && trace != []
    ensures trace[|trace| - 1] == State(map[0 := Tried(k)], [], Idle, {})
    decreases k, 0
  {
    hide Run;
    if k == 0 {
      trace := [State(map[], [], Idle, {})];
      assert Run(maxRetries, trace) by {
        RunStarts(maxRetries, trace[0]);
      }
      trace := Extend(maxRetries, trace, Arrive(Tried(0)));
    } else {
      trace := RefusedOnceMore(maxRetries, k - 1);
      trace := Extend(maxRetries, trace, Proceed);
    }
  }

  lemma RunStarts(maxRetries: u32, s: State)
    requires Init(s)
    ensures Run(maxRetries, [s])
  {
  }

  lemma {:induction false} RefusedOnceMore(maxRetries: u32, k: nat) returns (trace: seq<State>)
    requires k < Limit(maxRetries)
    ensures Run(maxRetries, trace) && trace != []
    ensures trace[|trace| - 1] == State(map[0 := Tried(k + 1)], [], Counted(Tried(k)), {})
    decreases k, 1
  {
    hide Run;
    trace := RefusedTimes(maxRetries, k);
    trace := Extend(maxRetries, trace, Fetch([Tried(k)]));
    trace := Extend(maxRetries, trace, Publish(false));
    trace := Extend(maxRetries, trace, Proceed);
  }

  /** Whatever the configured maximum, that moment is reached: some run leaves a pending record at the limit. */
  lemma LimitIsMetPending(maxRetries: u32)
    ensures exists trace: seq<State> ::
              && Run(maxRetries, trace) && trace != []
              && var s := trace[|trace| - 1];
              && 0 in s.records && s.records[0].status == Pending && s.records[0].attemptCount == Limit(maxRetries)
              && AwaitsVerdict(maxRetries, s, 0)
  {
    hide Run;
    var trace := RefusedOnceMore(maxRetries, Limit(maxRetries) - 1);
  }

  lemma StepKeepsFinal(maxRetries: u32, s: State, a: Action, o: Uuid)
    requires Enabled(s, a) && Inv(maxRetries, s) && o in s.records && s.records[o].status != Pending
    ensures var s' := Apply(maxRetries, s, a); o in s'.records && s'.records[o] == s.records[o]
  {
    hide ListsPending, PassInv, RecordInv;
  }

  /** Delivered and failed records never change again. */
  lemma {:induction false} FinalIsFinal(maxRetries: u32, trace: seq<State>, m: nat, n: nat, o: Uuid)
    requires Run(maxRetries, trace) && m <= n < |trace|
    requires o in trace[m].records && trace[m].records[o].status != Pending
    ensures o in trace[n].records && trace[n].records[o] == trace[m].records[o]
    decreases n
  {
    hide Enabled, Apply, Inv;
    if m < n {
      FinalIsFinal(maxRetries, trace, m, n - 1, o);
      RunInv(maxRetries, trace, n - 1);
      assert Next(maxRetries, trace[n - 1], trace[n - 1 + 1]);
      var a :| Enabled(trace[n - 1], a) && trace[n] == Apply(maxRetries, trace[n - 1], a);
      StepKeepsFinal(maxRetries, trace[n - 1], a, o);
    }
  }

  // --------------------------------------------------------------- progress

  /** The attempts a record may still cost. */
  function Credit(maxRetries: u32, r: OutboxRecord): nat {
    if r.status == Pending && r.attemptCount < Limit(maxRetries) then Limit(maxRetries) - r.attemptCount else 0
  }

  /** The attempts all records may still cost. */
  ghost function TotalCredit(maxRetries: u32, ob: Records): nat
    decreases |ob|
  {
    if ob == map[] then 0
    else
      var o := AnyKey(ob);
      Credit(maxRetries, ob[o]) + TotalCredit(maxRetries, ob - {o})
  }

  ghost function AnyKey(ob: Records): (o: Uuid)
    requires ob != map[]
    ensures o in ob
  {
    var o :| o in ob.Keys;
    o
  }

  lemma {:induction false} TotalWithout(maxRetries: u32, ob: Records, o: Uuid)
    requires o in ob
    ensures TotalCredit(maxRetries, ob) == Credit(maxRetries, ob[o]) + TotalCredit(maxRetries, ob - {o})
    decreases |ob|
  {
    var k := AnyKey(ob);
    if k != o {
      TotalWithout(maxRetries, ob - {k}, o);
      TotalWithout(maxRetries, ob - {o}, k);
      assert ob - {k} - {o} == ob - {o} - {k};
    }
  }

  lemma TotalAfterSet(maxRetries: u32, ob: Records, o: Uuid, r: OutboxRecord)
    requires o in ob
    ensures TotalCredit(maxRetries, ob[o := r]) == TotalCredit(maxRetries, ob) - Credit(maxRetries, ob[o]) + Credit(maxRetries, r)
  {
    TotalWithout(maxRetries, ob, o);
    TotalWithout(maxRetries, ob[o := r], o);
    assert ob[o := r] - {o} == ob - {o};
  }

  lemma StepSpendsCredit(maxRetries: u32, s: State, a: Action)
    requires Enabled(s, a) && Inv(maxRetries, s)
    ensures var before := TotalCredit(maxRetries, s.records);
            var after := TotalCredit(maxRetries, Apply(maxRetries, s, a).records);
            && (a.Proceed? && !s.phase.Counted? ==> after < before)
            && (a.Proceed? ==> after <= before)
            && (a.Fetch? || a.Publish? ==> after == before)
  {
    hide ListsPending, PassInv, TotalCredit;
    if a.Proceed? {
      var o := s.phase.record.outboxId;
      assert o in s.records;
      assert RecordInv(maxRetries, s, o);
      var ob' := Apply(maxRetries, s, a).records;
      if ob' != s.records {
        TotalAfterSet(maxRetries, s.records, o, ob'[o]);
      }
    }
  }

  /** In every run every publish costs credit: marking a delivery or counting a refusal lowers the total, and judging
      never raises it. Only writers add credit, so a processor with nothing new to do comes to rest. */
  lemma PublishSpendsCredit(maxRetries: u32, trace: seq<State>, n: nat, a: Action)
    requires Run(maxRetries, trace) && n < |trace| && Enabled(trace[n], a)
    ensures var s := trace[n];
            var before := TotalCredit(maxRetries, s.records);
            var after := TotalCredit(maxRetries, Apply(maxRetries, s, a).records);
            && (a.Proceed? && !s.phase.Counted? ==> after < before)
            && (a.Proceed? ==> after <= before)
            && (a.Fetch? || a.Publish? ==> after == before)
  {
    hide Run, Enabled, Apply, Inv, TotalCredit;
    RunInv(maxRetries, trace, n);
    StepSpendsCredit(maxRetries, trace[n], a);
  }

  // ------------------------------------------------------- imperative form

  /** What one `publish_one` leaves behind when nothing else runs: a delivery mark, or a counted attempt and, at the
      limit, a failure mark. */
  function Settle(maxRetries: u32, ob: Records, r: OutboxRecord, ok: bool): Records {
    if ok then SetStatus(ob, r.outboxId, Delivered)
    else
      var counted := CountAttempt(ob, r.outboxId);
      if GivesUp(maxRetries, r.attemptCount + 1) then SetStatus(counted, r.outboxId, Failed) else counted
  }

  /** The steps of the transition system make up one `publish_one`. */
  lemma SettleIsSteps(maxRetries: u32, s: State, ok: bool)
    requires s.phase == Idle && s.pass != []
    ensures var r := s.pass[0];
            var s1 := Apply(maxRetries, Apply(maxRetries, s, Publish(ok)), Proceed);
            var s2 := if ok then s1 else Apply(maxRetries, s1, Proceed);
            s2.phase == Idle && s2.pass == s.pass[1..] && s2.records == Settle(maxRetries, s.records, r, ok)
  {
  }

  function Settled(maxRetries: u32, r: OutboxRecord, ok: bool): OutboxRecord {
    if ok then r.(status := Delivered)
    else r.(attemptCount := r.attemptCount + 1,
            status := if GivesUp(maxRetries, r.attemptCount + 1) then Failed else r.status)
  }

  /** On a current snapshot of a pending record with attempts to spare, `publish_one` settles that record alone and
      lowers the total credit. */
  lemma SettleCurrent(maxRetries: u32, ob: Records, r: OutboxRecord, ok: bool)
    requires InPending(ob, r)
    ensures Settle(maxRetries, ob, r, ok) == ob[r.outboxId := Settled(maxRetries, r, ok)]
    ensures TotalCredit(maxRetries, Settle(maxRetries, ob, r, ok))
         <= TotalCredit(maxRetries, ob) - (if r.attemptCount < Limit(maxRetries) then 1 else 0)
  {
    hide TotalCredit;
    TotalAfterSet(maxRetries, ob, r.outboxId, Settled(maxRetries, r, ok));
  }

  /** After `n` publishes of a pass that began with `start`: the first `n` records are settled, each by its own
      outcome, every other record is as it was, and each publish of a record with attempts to spare has cost
      credit. */
  ghost predicate PassSettles(maxRetries: u32, start: Records, pending: seq<OutboxRecord>, outcomes: nat -> bool, n: nat, now: Records)
    requires n <= |pending|
  {
    && now.Keys == start.Keys
    && (forall i | 0 <= i < n ::
          pending[i].outboxId in now && now[pending[i].outboxId] == Settled(maxRetries, pending[i], outcomes(i)))
    && (forall o | o in start && !Among(pending, n, o) :: o in now && now[o] == start[o])
    && TotalCredit(maxRetries, now) <= TotalCredit(maxRetries, start) - WithCredit(maxRetries, pending, n)
  }

  /** How many of the first `n` records of the pass have attempts to spare; in a run, all of them. */
  function WithCredit(maxRetries: u32, pending: seq<OutboxRecord>, n: nat): nat
    requires n <= |pending|
  {
    if n == 0 then 0
    else WithCredit(maxRetries, pending, n - 1) + (if pending[n - 1].attemptCount < Limit(maxRetries) then 1 else 0)
  }

  /** One of the first `n` records of the pass has this id. */
  predicate Among(pending: seq<OutboxRecord>, n: nat, o: Uuid)
    requires n <= |pending|
  {
    exists i :: 0 <= i < n && pending[i].outboxId == o
  }

  lemma PassStarts(maxRetries: u32, start: Records, pending: seq<OutboxRecord>, outcomes: nat -> bool)
    ensures PassSettles(maxRetries, start, pending, outcomes, 0, start)
  {
  }

  lemma NotAmongBefore(start: Records, pending: seq<OutboxRecord>, n: nat)
    requires ListsPending(pending, start) && n < |pending|
    ensures InPending(start, pending[n]) && !Among(pending, n, pending[n].outboxId)
  {
  }

  lemma AmongNext(pending: seq<OutboxRecord>, n: nat, o: Uuid)
    requires n < |pending|
    ensures Among(pending, n + 1, o) <==> Among(pending, n, o) || pending[n].outboxId == o
  {
  }

  lemma PassGoesOn(maxRetries: u32, start: Records, pending: seq<OutboxRecord>, outcomes: nat -> bool, n: nat, now: Records)
    requires ListsPending(pending, start) && n < |pending|
    requires PassSettles(maxRetries, start, pending, outcomes, n, now)
    ensures PassSettles(maxRetries, start, pending, outcomes, n + 1, Settle(maxRetries, now, pending[n], outcomes(n)))
  {
    hide TotalCredit, Settle, Settled, Limit, ListsPending, Among;
    var r := pending[n];
    NotAmongBefore(start, pending, n);
    SettleCurrent(maxRetries, now, r, outcomes(n));
    var next := Settle(maxRetries, now, r, outcomes(n));
    forall i | 0 <= i < n + 1
      ensures pending[i].outboxId in next && next[pending[i].outboxId] == Settled(maxRetries, pending[i], outcomes(i))
    {
      assert i < n ==> pending[i].outboxId != r.outboxId by {
        AmongAt(pending, n, i);
      }
    }
    forall o | o in start && !Among(pending, n + 1, o)
      ensures o in next && next[o] == start[o]
    {
      AmongNext(pending, n, o);
    }
  }

  lemma AmongAt(pending: seq<OutboxRecord>, n: nat, i: nat)
    requires n <= |pending|
    ensures i < n ==> Among(pending, n, pending[i].outboxId)
  {
  }

  class OutboxProcessor {
    const repo: InMemoryLedgerRepository
    const maxRetries: u32

    constructor (repo: InMemoryLedgerRepository, maxRetries: u32)
      ensures this.repo == repo && this.maxRetries == maxRetries
    {
      this.repo := repo;
      this.maxRetries := maxRetries;
    }

    /** `publish_one`; `ok` is what the publisher answers. */
    method PublishOne(record: OutboxRecord, ok: bool) returns (delivered: bool)
      requires repo.Valid()
      modifies repo`outbox
      ensures repo.Valid()
      ensures repo.outbox == Settle(maxRetries, old(repo.outbox), record, ok)
      ensures delivered <==> ok && record.outboxId in old(repo.outbox)
      // The same, spelled out: on success the record is delivered; otherwise one more attempt is counted, and it is given
      // up when that attempt reaches the maximum, read as a signed number of 32 bits.
      ensures record.outboxId !in old(repo.outbox) ==> repo.outbox == old(repo.outbox)
      ensures record.outboxId in old(repo.outbox) ==>
                var before := old(repo.outbox)[record.outboxId];
                var most := if maxRetries < 0x8000_0000 then maxRetries else maxRetries - 0x1_0000_0000;
                repo.outbox == old(repo.outbox)[record.outboxId :=
                  OutboxRecord(before.outboxId, before.entryId, before.entryType,
                               if ok then Delivered else if record.attemptCount + 1 >= most then Failed else before.status,
                               if ok then before.attemptCount else before.attemptCount + 1)]
    {
      hide WellFormed;
      if ok {
        var marked := repo.MarkOutboxDelivered(record.outboxId);
        return marked.Ok?;
      }
      var counted := repo.IncrementOutboxAttempt(record.outboxId);
      var nextAttempt := record.attemptCount + 1;
      if nextAttempt >= AsI32(maxRetries) {
        var failed := repo.MarkOutboxFailed(record.outboxId);
      }
      return false;
    }

    /** One pass of the processor loop; `outcomes` are the publisher's answers in order. Every record that was
        pending is settled by its own outcome, no other record changes, and each publish has its price. */
    method RunPass(outcomes: nat -> bool) returns (pending: seq<OutboxRecord>)
      requires repo.Valid()
      modifies repo`outbox
      ensures repo.Valid() && ListsPending(pending, old(repo.outbox))
      ensures PassSettles(maxRetries, old(repo.outbox), pending, outcomes, |pending|, repo.outbox)
    {
      hide WellFormed, TotalCredit, ListsPending, PassSettles;
      pending := repo.PendingOutbox();
      PassStarts(maxRetries, repo.outbox, pending, outcomes);
      for i := 0 to |pending|
        invariant repo.Valid()
        invariant PassSettles(maxRetries, old(repo.outbox), pending, outcomes, i, repo.outbox)
      {
        PassGoesOn(maxRetries, old(repo.outbox), pending, outcomes, i, repo.outbox);
        var delivered := PublishOne(pending[i], outcomes(i));
      }
    }
  }
}
