/**
 What every interleaving of the write protocol keeps: a consistent ledger that only grows, exactly one entry per
 idempotency key, a bound on contention without the chain lock, and no contention at all with it.
 */
module Interleavings {
  import opened Options
  import opened ByteText
  import opened Envelope
  import opened Ledger
  import opened Columns
  import opened Verifier
  import opened Receipts
  import opened Protocol

  // ------------------------------------------------------------- the ledger

  lemma StepKeepsLedgerInv(c: Setup, s: State, a: Action)
    requires Enabled(s, a) && LedgerInv(c, s.ledger)
    requires WriterInv(c, Chain(s.ledger, s.writers[a.who].req.entryType), s.writers[a.who])
    ensures LedgerInv(c, Step(c, s, a).ledger)
    ensures Extends(s.ledger, Step(c, s, a).ledger)
  {
    hide LedgerOk, IdsUnique, Unused, CurrentHash, Answers, Clashes, NextPc;
    var w := s.writers[a.who];
    if Appends(c, s.ledger, w, a) {
      var write := WriteOf(c, w, a.now);
      AppendKeepsLedgerOk(c.hash, s.ledger, write, a.ids);
      AppendKeepsIdsUnique(c.hash, s.ledger, write, a.ids);
      forall t | Chain(Step(c, s, a).ledger, t) != []
        ensures Chain(Step(c, s, a).ledger, t)[0].previousHash == Genesis(c)
      {
        assert Chain(s.ledger, t) != [] ==> Chain(s.ledger, t)[0].previousHash == Genesis(c);
      }
    }
  }

  lemma GrowthIsNatural(c: Setup, l: Ledger, t: Bytes)
    requires LedgerInv(c, l)
    ensures Growth(c, Chain(l, t), t) >= 0
  {
    hide LedgerOk, IdsUnique, StartsAtGenesis, NewEntriesOk;
    assert Chain(c.initial, t) <= Chain(l, t);
  }

  lemma EntriesOfType(c: Setup, l: Ledger, t: Bytes)
    requires LedgerInv(c, l)
    ensures forall e | e in Chain(l, t) :: e.req.entryType == t
  {
    hide IdsUnique, StartsAtGenesis, NewEntriesOk, Extends, OutboxOk, Recomputed, KeysUnique;
    var chain := Chain(l, t);
    assert t in l.chains ==> TypeOk(c.hash, l, t);
    forall e | e in chain
      ensures e.req.entryType == t
    {
      var i :| 0 <= i < |chain| && chain[i] == e;
      assert EntryOk(c.hash, t, chain, i);
    }
  }

  lemma StepKeepsWritersInv(c: Setup, s: State, a: Action)
    requires Sane(c) && Enabled(s, a) && LedgerInv(c, s.ledger) && WritersInv(c, s)
    ensures WritersInv(c, Step(c, s, a))
  {
    hide LedgerInv, Unused, WriterInv, NextPc, NextLedger;
    var s' := Step(c, s, a);
    StepKeepsLedgerInv(c, s, a);
    forall i | 0 <= i < |s'.writers|
      ensures WriterInv(c, Chain(s'.ledger, s'.writers[i].req.entryType), s'.writers[i])
    {
      if i == a.who {
        GrowthIsNatural(c, s.ledger, s.writers[i].req.entryType);
        EntriesOfType(c, s.ledger, s.writers[i].req.entryType);
        MoverInv(c, s, a);
      } else {
        var w := s.writers[i];
        assert Chain(s.ledger, w.req.entryType) <= Chain(s'.ledger, w.req.entryType);
        WriterInvSurvives(c, Chain(s.ledger, w.req.entryType), Chain(s'.ledger, w.req.entryType), w);
      }
    }
  }

  // -------------------------------------------------------------- the counts

  predicate AnsweredOk(w: Writer, t: Bytes) {
    w.req.entryType == t && w.pc.Done? && w.pc.answer.Ok?
  }

  function OkWriters(s: State, t: Bytes): set<int> {
    set i | 0 <= i < |s.writers| && AnsweredOk(s.writers[i], t)
  }

  function KeylessOk(s: State, t: Bytes): set<int> {
    set i | 0 <= i < |s.writers| && AnsweredOk(s.writers[i], t) && s.writers[i].req.idempotencyKey.None?
  }

  function KeysOk(s: State, t: Bytes): set<Bytes> {
    set i | 0 <= i < |s.writers| && AnsweredOk(s.writers[i], t) && s.writers[i].req.idempotencyKey.Some?
      :: s.writers[i].req.idempotencyKey.value
  }

  function KeysIn(chain: seq<Entry>): set<Bytes> {
    set i | 0 <= i < |chain| && chain[i].req.idempotencyKey.Some? :: chain[i].req.idempotencyKey.value
  }

  function WritersOn(s: State, t: Bytes): set<int> {
    set i | 0 <= i < |s.writers| && s.writers[i].req.entryType == t
  }

  /** The keys answered Ok that the run did not find there at its start. */
  function NewKeysOk(c: Setup, s: State, t: Bytes): set<Bytes> {
    KeysOk(s, t) - KeysIn(Chain(c.initial, t))
  }

  /** What a chain has grown is paid for exactly by its keyless Ok answers and the distinct new keys answered Ok. */
  ghost predicate CountInv(c: Setup, s: State, t: Bytes) {
    var chain := Chain(s.ledger, t);
    && KeysIn(Chain(c.initial, t)) + KeysOk(s, t) == KeysIn(chain)
    && Growth(c, chain, t) == |KeylessOk(s, t)| + |NewKeysOk(c, s, t)|
    && Growth(c, chain, t) <= |OkWriters(s, t)|
  }

  /** `w` returns Ok in this step, by an append or by a replay. */
  predicate TurnsOk(c: Setup, s: State, a: Action)
    requires a.who < |s.writers|
  {
    var next := NextPc(c, s, s.writers[a.who], a);
    next.Done? && next.answer.Ok?
  }

  lemma StepOkSets(c: Setup, s: State, a: Action, t: Bytes)
    requires a.who < |s.writers| && !s.writers[a.who].pc.Done?
    ensures var w := s.writers[a.who]; var s' := Step(c, s, a);
            var counts := TurnsOk(c, s, a) && w.req.entryType == t;
            && a.who !in OkWriters(s, t) && a.who !in KeylessOk(s, t)
            && OkWriters(s', t) == (if counts then OkWriters(s, t) + {a.who as int} else OkWriters(s, t))
            && KeylessOk(s', t) == (if counts && w.req.idempotencyKey.None? then KeylessOk(s, t) + {a.who as int} else KeylessOk(s, t))
  {
    hide NextPc, NextLedger, NextLocks, NextHalted;
    var s' := Step(c, s, a);
    assert forall i | 0 <= i < |s.writers| && i != a.who :: s'.writers[i] == s.writers[i];
  }

  lemma StepOkKeys(c: Setup, s: State, a: Action, t: Bytes)
    requires a.who < |s.writers| && !s.writers[a.who].pc.Done?
    ensures var w := s.writers[a.who]; var s' := Step(c, s, a);
            KeysOk(s', t) == if TurnsOk(c, s, a) && w.req.entryType == t && w.req.idempotencyKey.Some?
                             then KeysOk(s, t) + {w.req.idempotencyKey.value} else KeysOk(s, t)
  {
    hide NextPc, NextLedger, NextLocks, NextHalted;
    var s' := Step(c, s, a);
    var w := s.writers[a.who];
    assert forall i | 0 <= i < |s.writers| && i != a.who :: s'.writers[i] == s.writers[i];
    forall k | k in KeysOk(s, t)
      ensures k in KeysOk(s', t)
    {
      var i :| 0 <= i < |s.writers| && AnsweredOk(s.writers[i], t) && s.writers[i].req.idempotencyKey == Some(k);
      assert AnsweredOk(s'.writers[i], t) && s'.writers[i].req.idempotencyKey.value == k;
    }
    if TurnsOk(c, s, a) && w.req.entryType == t && w.req.idempotencyKey.Some? {
      assert AnsweredOk(s'.writers[a.who], t) && s'.writers[a.who].req.idempotencyKey.value == w.req.idempotencyKey.value;
    }
    forall k | k in KeysOk(s', t)
      ensures k in KeysOk(s, t) || (TurnsOk(c, s, a) && w.req.entryType == t && w.req.idempotencyKey == Some(k))
    {
      var i :| 0 <= i < |s'.writers| && AnsweredOk(s'.writers[i], t) && s'.writers[i].req.idempotencyKey == Some(k);
      if i != a.who {
        assert AnsweredOk(s.writers[i], t) && s.writers[i].req.idempotencyKey.value == k;
      }
    }
  }

  lemma KeysInSnoc(chain: seq<Entry>, e: Entry)
    ensures KeysIn(chain + [e])
         == if e.req.idempotencyKey.Some? then KeysIn(chain) + {e.req.idempotencyKey.value} else KeysIn(chain)
  {
    var all := chain + [e];
    forall k | k in KeysIn(chain)
      ensures k in KeysIn(all)
    {
      var i :| 0 <= i < |chain| && chain[i].req.idempotencyKey == Some(k);
      assert all[i].req.idempotencyKey.value == k;
    }
    assert e.req.idempotencyKey.Some? ==> all[|chain|].req.idempotencyKey.value in KeysIn(all);
  }

  lemma KeysInMeansTaken(chain: seq<Entry>, key: Bytes)
    ensures key in KeysIn(chain) <==> KeyTaken(chain, Some(key))
  {
    if key in KeysIn(chain) {
      var i :| 0 <= i < |chain| && chain[i].req.idempotencyKey == Some(key);
      assert KeyAt(chain, i, key);
    }
    if KeyTaken(chain, Some(key)) {
      var i :| 0 <= i < |chain| && KeyAt(chain, i, key);
      assert chain[i].req.idempotencyKey.value in KeysIn(chain);
    }
  }

  /** A writer that turns Ok without appending replays a key that the chain holds. */
  lemma ReplayHasKey(c: Setup, s: State, a: Action)
    requires a.who < |s.writers| && !s.writers[a.who].pc.Done? && TurnsOk(c, s, a)
    requires !Appends(c, s.ledger, s.writers[a.who], a)
    ensures var w := s.writers[a.who];
            w.req.idempotencyKey.Some? && w.req.idempotencyKey.value in KeysIn(Chain(s.ledger, w.req.entryType))
  {
    hide CurrentHash, Rejected, TipHash, KeyTaken, KeysIn, FindKey;
    var w := s.writers[a.who];
    var chain := Chain(s.ledger, w.req.entryType);
    FindKeyExact(chain, w.req.idempotencyKey);
    KeyTakenSome(chain, w.req.idempotencyKey);
    if w.req.idempotencyKey.Some? {
      KeysInMeansTaken(chain, w.req.idempotencyKey.value);
    }
  }

  lemma AppendingTurnsOk(c: Setup, s: State, a: Action)
    requires a.who < |s.writers| && Appends(c, s.ledger, s.writers[a.who], a)
    ensures TurnsOk(c, s, a)
  {
    hide CurrentHash;
  }

  lemma StepChain(c: Setup, s: State, a: Action, t: Bytes)
    requires a.who < |s.writers|
    ensures var w := s.writers[a.who]; var chain := Chain(s.ledger, t);
            Chain(Step(c, s, a).ledger, t)
            == if Appends(c, s.ledger, w, a) && w.req.entryType == t
               then chain + [NewEntry(c.hash, |chain| + 1, WriteOf(c, w, a.now), a.ids.entryId)] else chain
  {
    hide NextPc, CurrentHash, KeyTaken;
  }

  lemma OneMoreKey(start: set<Bytes>, ok: set<Bytes>, key: Bytes)
    ensures start + (ok + {key}) == start + ok + {key}
    ensures key in start + ok ==> start + (ok + {key}) == start + ok && (ok + {key}) - start == ok - start
    ensures key !in start + ok ==> |(ok + {key}) - start| == |ok - start| + 1
  {
    if key !in start + ok {
      assert (ok + {key}) - start == (ok - start) + {key};
    }
  }

  /** The count when the step appends to the chain: one more keyless answer, or one more new key. */
  lemma CountAppend(c: Setup, s: State, a: Action, t: Bytes)
    requires a.who < |s.writers| && !s.writers[a.who].pc.Done? && CountInv(c, s, t)
    requires Appends(c, s.ledger, s.writers[a.who], a) && s.writers[a.who].req.entryType == t
    ensures CountInv(c, Step(c, s, a), t)
  {
    hide Step, KeysOk, KeylessOk, OkWriters, KeysIn, TurnsOk, CurrentHash, KeyTaken, Chain;
    var w := s.writers[a.who];
    var chain := Chain(s.ledger, t);
    StepOkSets(c, s, a, t);
    StepOkKeys(c, s, a, t);
    StepChain(c, s, a, t);
    AppendingTurnsOk(c, s, a);
    KeysInSnoc(chain, NewEntry(c.hash, |chain| + 1, WriteOf(c, w, a.now), a.ids.entryId));
    if w.req.idempotencyKey.Some? {
      KeysInMeansTaken(chain, w.req.idempotencyKey.value);
      OneMoreKey(KeysIn(Chain(c.initial, t)), KeysOk(s, t), w.req.idempotencyKey.value);
    }
  }

  /** The count when the step leaves the chain alone: a replayed key was held before. */
  lemma CountReplay(c: Setup, s: State, a: Action, t: Bytes)
    requires a.who < |s.writers| && !s.writers[a.who].pc.Done? && CountInv(c, s, t)
    requires !(Appends(c, s.ledger, s.writers[a.who], a) && s.writers[a.who].req.entryType == t)
    ensures CountInv(c, Step(c, s, a), t)
  {
    hide Step, KeysOk, KeylessOk, OkWriters, KeysIn, TurnsOk, Appends, Chain;
    var w := s.writers[a.who];
    StepOkSets(c, s, a, t);
    StepOkKeys(c, s, a, t);
    StepChain(c, s, a, t);
    if TurnsOk(c, s, a) && w.req.entryType == t {
      ReplayHasKey(c, s, a);
      OneMoreKey(KeysIn(Chain(c.initial, t)), KeysOk(s, t), w.req.idempotencyKey.value);
    }
  }

  lemma StepKeepsCountInv(c: Setup, s: State, a: Action, t: Bytes)
    requires a.who < |s.writers| && !s.writers[a.who].pc.Done? && CountInv(c, s, t)
    ensures CountInv(c, Step(c, s, a), t)
  {
    hide Step, CountInv, Appends;
    if Appends(c, s.ledger, s.writers[a.who], a) && s.writers[a.who].req.entryType == t {
      CountAppend(c, s, a, t);
    } else {
      CountReplay(c, s, a, t);
    }
  }

  lemma InitCounts(c: Setup, s: State, t: Bytes)
    requires Init(c, s)
    ensures CountInv(c, s, t)
  {
    hide LedgerInv, KeysIn;
    assert OkWriters(s, t) == {} && KeylessOk(s, t) == {} && KeysOk(s, t) == {};
  }

  // --------------------------------------------------------------- the locks

  predicate InCriticalSection(pc: Pc) {
    pc.ReadTip? || pc.Write? || pc.Relookup? || pc.Halt?
  }

  /** Whoever is past the lock of its instance and type holds it. */
  ghost predicate LockInv(s: State) {
    forall i | 0 <= i < |s.writers| && InCriticalSection(s.writers[i].pc) ::
      LockKey(s.writers[i]) in s.locks && s.locks[LockKey(s.writers[i])] == i
  }

  lemma StepKeepsLockInv(c: Setup, s: State, a: Action)
    requires Enabled(s, a) && LockInv(s)
    ensures LockInv(Step(c, s, a))
  {
    hide Unused, NextPc, NextLedger, NextHalted;
    var s' := Step(c, s, a);
    var w := s.writers[a.who];
    if InCriticalSection(NextPc(c, s, w, a)) {
      MoverNeedsLock(c, s, a);
    }
    forall i | 0 <= i < |s'.writers| && InCriticalSection(s'.writers[i].pc)
      ensures LockKey(s'.writers[i]) in s'.locks && s'.locks[LockKey(s'.writers[i])] == i
    {
      if i != a.who {
        assert s'.writers[i] == s.writers[i];
      }
    }
  }

  lemma MoverNeedsLock(c: Setup, s: State, a: Action)
    requires a.who < |s.writers|
    requires InCriticalSection(NextPc(c, s, s.writers[a.who], a))
    ensures s.writers[a.who].pc.WaitLock? || InCriticalSection(s.writers[a.who].pc)
  {
    hide CurrentHash, KeyTaken, TipMatches, FindKey;
  }

  // --------------------------------------------------------------- the halts

  ghost predicate FailedOn(s: State, t: Bytes) {
    exists i | 0 <= i < |s.writers| :: s.writers[i].req.entryType == t && s.writers[i].pc == Done(Err(Internal))
  }

  /** A halt mark was left by a writer of the type that failed on integrity. */
  ghost predicate HaltInv(s: State) {
    forall key | key in s.halted :: FailedOn(s, key.1)
  }

  lemma StepKeepsHaltInv(c: Setup, s: State, a: Action)
    requires Enabled(s, a) && HaltInv(s)
    ensures HaltInv(Step(c, s, a))
  {
    hide Unused, NextLedger, NextLocks, CurrentHash, Appends, FindKey, Rejected, ReplayAnswer;
    var s' := Step(c, s, a);
    var w := s.writers[a.who];
    forall key | key in s'.halted
      ensures FailedOn(s', key.1)
    {
      if key in s.halted {
        var i :| 0 <= i < |s.writers| && s.writers[i].req.entryType == key.1 && s.writers[i].pc == Done(Err(Internal));
        assert s'.writers[i] == s.writers[i];
      } else {
        assert s'.writers[a.who].pc == Done(Err(Internal));
      }
    }
  }

  // --------------------------------------------------------------- every run

  ghost predicate Inv(c: Setup, s: State) {
    && LedgerInv(c, s.ledger)
    && WritersInv(c, s)
    && LockInv(s)
    && HaltInv(s)
    && forall t :: CountInv(c, s, t)
  }

  lemma StepKeepsInv(c: Setup, s: State, a: Action)
    requires Sane(c) && Enabled(s, a) && Inv(c, s)
    ensures Inv(c, Step(c, s, a)) && Extends(s.ledger, Step(c, s, a).ledger)
  {
    hide LedgerInv, LockInv, HaltInv, CountInv, Step, Unused, WriterInv, Extends;
    StepKeepsWritersInv(c, s, a);
    StepKeepsLedgerInv(c, s, a);
    StepKeepsLockInv(c, s, a);
    StepKeepsHaltInv(c, s, a);
    forall t
      ensures CountInv(c, Step(c, s, a), t)
    {
      StepKeepsCountInv(c, s, a, t);
    }
  }

  lemma InitInv(c: Setup, s: State)
    requires Init(c, s)
    ensures Inv(c, s)
  {
    hide CountInv;
    forall t
      ensures CountInv(c, s, t)
    {
      InitCounts(c, s, t);
    }
  }

  lemma {:induction false} RunInv(c: Setup, trace: seq<State>, n: nat)
    requires Sane(c) && Run(c, trace) && n < |trace|
    ensures Inv(c, trace[n])
  {
    hide Inv, Init, Unused, Step;
    if n == 0 {
      InitInv(c, trace[0]);
    } else {
      RunInv(c, trace, n - 1);
      assert Next(c, trace[n - 1], trace[n - 1 + 1]);
      var a :| Enabled(trace[n - 1], a) && trace[n] == Step(c, trace[n - 1], a);
      StepKeepsInv(c, trace[n - 1], a);
    }
  }

  /** In every run every store is consistent: positions 1..n in list order, linked from genesis, each hash recomputed
      from the version it was made with, keys and ids unique, outbox records on stored entries. What the run has appended
      has the current version and, over Postgres, is stored as it was hashed. */
  lemma EveryStoreConsistent(c: Setup, trace: seq<State>, n: nat, t: Bytes)
    requires Sane(c) && Run(c, trace) && n < |trace|
    ensures LedgerOk(c.hash, trace[n].ledger) && IdsUnique(trace[n].ledger) && NewEntriesOk(c, trace[n].ledger)
    ensures FromGenesis(c.hash, c.genesisInput, t, Chain(trace[n].ledger, t))
    ensures KeysUnique(Chain(trace[n].ledger, t))
  {
    hide CountInv, WritersInv, LockInv, HaltInv, EntryOk, IdsUnique, OutboxOk, Run;
    RunInv(c, trace, n);
    assert t in trace[n].ledger.chains ==> TypeOk(c.hash, trace[n].ledger, t);
  }

  /** A restart: whatever a run has left, new requests begin a new run on it, with no locks and no halt marks. */
  lemma RestartBeginsARun(c: Setup, trace: seq<State>, n: nat, writers: seq<Writer>)
    requires Sane(c) && Run(c, trace) && n < |trace|
    requires forall i | 0 <= i < |writers| :: writers[i].pc == Start && (c.postgres ==> !Cut(writers[i].req))
    ensures var d := c.(initial := trace[n].ledger); Sane(d) && Run(d, [State(trace[n].ledger, writers, map[], {})])
  {
    hide LedgerOk, IdsUnique, StartsAtGenesis, CountInv, WritersInv, LockInv, HaltInv;
    RunInv(c, trace, n);
    ExtendsReflexive(trace[n].ledger);
  }

  /** No step of any run changes, drops or reorders an entry. */
  lemma {:induction false} NothingIsLost(c: Setup, trace: seq<State>, m: nat, n: nat)
    requires Sane(c) && Run(c, trace) && m <= n < |trace|
    ensures Extends(trace[m].ledger, trace[n].ledger)
    decreases n
  {
    hide Inv, Init, Unused, Step, Extends;
    if m == n {
      assert Extends(trace[m].ledger, trace[m].ledger) by {
        ExtendsReflexive(trace[m].ledger);
      }
    } else {
      NothingIsLost(c, trace, m, n - 1);
      RunInv(c, trace, n - 1);
      assert Next(c, trace[n - 1], trace[n - 1 + 1]);
      var a :| Enabled(trace[n - 1], a) && trace[n] == Step(c, trace[n - 1], a);
      StepKeepsInv(c, trace[n - 1], a);
      ExtendsTransitive(trace[m].ledger, trace[n - 1].ledger, trace[n].ledger);
    }
  }

  // ------------------------------------------------------------ exactly once

  ghost predicate AtMostOnePerKey(chain: seq<Entry>) {
    forall i, j | 0 <= i < |chain| && 0 <= j < |chain| ::
      chain[i].req.idempotencyKey.Some? && chain[i].req.idempotencyKey == chain[j].req.idempotencyKey ==> i == j
  }

  lemma SameKeySameAnswer(chain: seq<Entry>, left: Request, leftOut: WriteOutput, right: Request, rightOut: WriteOutput)
    requires AtMostOnePerKey(chain) && left.idempotencyKey.Some? && left.idempotencyKey == right.idempotencyKey
    requires Answers(chain, left, leftOut) && Answers(chain, right, rightOut)
    ensures leftOut == rightOut
  {
    var i :| 0 <= i < |chain| && AnsweredBy(chain[i], left, leftOut);
    var j :| 0 <= j < |chain| && AnsweredBy(chain[j], right, rightOut);
    assert i == j;
  }

  lemma ClashExcludesAnswer(chain: seq<Entry>, req: Request, out: WriteOutput)
    requires AtMostOnePerKey(chain) && Answers(chain, req, out)
    ensures !Clashes(chain, req)
  {
    var i :| 0 <= i < |chain| && AnsweredBy(chain[i], req, out);
    forall j | 0 <= j < |chain| && req.idempotencyKey.Some? && chain[j].req.idempotencyKey == req.idempotencyKey
      ensures chain[j].req == req
    {
      assert i == j;
    }
  }

  /** Exactly once, in every interleaving: a key has at most one entry; all Ok answers under a key name the same
      entry; an Ok request is answered by an entry with its content, a clashing one is never answered Ok; and since
      the start of the run the chain has grown by its keyless Ok answers and the distinct new keys answered Ok. */
  lemma ExactlyOnce(c: Setup, trace: seq<State>, n: nat, t: Bytes)
    requires Sane(c) && Run(c, trace) && n < |trace|
    ensures var s := trace[n]; var chain := Chain(s.ledger, t);
            && AtMostOnePerKey(chain)
            && (forall i | i in OkWriters(s, t) ::
                  Answers(chain, s.writers[i].req, s.writers[i].pc.answer.value) && !Clashes(chain, s.writers[i].req))
            && (forall i, j | i in OkWriters(s, t) && j in OkWriters(s, t) && s.writers[i].req.idempotencyKey.Some? &&
                              s.writers[i].req.idempotencyKey == s.writers[j].req.idempotencyKey ::
                  s.writers[i].pc.answer == s.writers[j].pc.answer)
            && (forall i | 0 <= i < |s.writers| && s.writers[i].req.entryType == t && s.writers[i].pc == Done(Err(AlreadyExists)) ::
                  Clashes(chain, s.writers[i].req))
            // The same, spelled out: what Ok and AlreadyExists say about the entries of the chain.
            && (forall i | i in OkWriters(s, t) ::
                  var out, req := s.writers[i].pc.answer.value, s.writers[i].req;
                  && (exists e | e in chain ::
                        && e.req == req
                        && out.entryId == e.entryId && out.entryHash == e.entryHash && out.hashVersion == e.hashVersion
                        && out.chainPosition == e.chainPosition && out.writtenTsMs == e.writtenTsMs)
                  && (req.idempotencyKey.Some? ==> forall e | e in chain && e.req.idempotencyKey == req.idempotencyKey :: e.req == req))
            && (forall i | 0 <= i < |s.writers| && s.writers[i].req.entryType == t && s.writers[i].pc == Done(Err(AlreadyExists)) ::
                  exists e | e in chain :: e.req.idempotencyKey == s.writers[i].req.idempotencyKey && e.req != s.writers[i].req)
            && Growth(c, chain, t) == |KeylessOk(s, t)| + |NewKeysOk(c, s, t)|
  {
    hide LedgerInv, LockInv, HaltInv, Run, Answers, Clashes, KeysOk, KeylessOk, KeysIn;
    var s := trace[n];
    var chain := Chain(s.ledger, t);
    EveryStoreConsistent(c, trace, n, t);
    RunInv(c, trace, n);
    assert CountInv(c, s, t);
    forall i | i in OkWriters(s, t)
      ensures Answers(chain, s.writers[i].req, s.writers[i].pc.answer.value) && !Clashes(chain, s.writers[i].req)
    {
      assert WriterInv(c, chain, s.writers[i]);
      ClashExcludesAnswer(chain, s.writers[i].req, s.writers[i].pc.answer.value);
    }
    forall i | i in OkWriters(s, t)
      ensures var out, req := s.writers[i].pc.answer.value, s.writers[i].req;
              && (exists e | e in chain ::
                    && e.req == req
                    && out.entryId == e.entryId && out.entryHash == e.entryHash && out.hashVersion == e.hashVersion
                    && out.chainPosition == e.chainPosition && out.writtenTsMs == e.writtenTsMs)
              && (req.idempotencyKey.Some? ==> forall e | e in chain && e.req.idempotencyKey == req.idempotencyKey :: e.req == req)
    {
      AnswersMeans(chain, s.writers[i].req, s.writers[i].pc.answer.value);
    }
    forall i | 0 <= i < |s.writers| && s.writers[i].req.entryType == t && s.writers[i].pc == Done(Err(AlreadyExists))
      ensures exists e | e in chain :: e.req.idempotencyKey == s.writers[i].req.idempotencyKey && e.req != s.writers[i].req
    {
      assert WriterInv(c, chain, s.writers[i]);
      ClashesMeans(chain, s.writers[i].req);
    }
    forall i, j | i in OkWriters(s, t) && j in OkWriters(s, t) && s.writers[i].req.idempotencyKey.Some? &&
                  s.writers[i].req.idempotencyKey == s.writers[j].req.idempotencyKey
      ensures s.writers[i].pc.answer == s.writers[j].pc.answer
    {
      SameKeySameAnswer(chain, s.writers[i].req, s.writers[i].pc.answer.value, s.writers[j].req, s.writers[j].pc.answer.value);
    }
  }

  /** A writer past its checks was admitted, or refused for its request. */
  predicate Admitted(c: Setup, w: Writer) {
    && (w.pc != Start ==> (w.pc == Done(Err(InvalidArgument)) <==> Rejected(c.maxContentSize, w.req)))
    && w.pc != Done(Err(NoSuchEntry))
  }

  lemma StepAdmits(c: Setup, s: State, a: Action, i: nat)
    requires Enabled(s, a) && i < |s.writers| && Admitted(c, s.writers[i])
    ensures Admitted(c, Step(c, s, a).writers[i])
  {
    hide Rejected, FindKey, Matches, KeyTaken, TipMatches, Unused;
  }

  lemma {:induction false} RunAdmits(c: Setup, trace: seq<State>, n: nat, i: nat)
    requires Run(c, trace) && n < |trace| && i < |trace[n].writers|
    ensures Admitted(c, trace[n].writers[i])
  {
    hide Admitted, Step, Unused, LedgerInv;
    if n == 0 {
      StartAdmits(c, trace[0], i);
    } else {
      assert Next(c, trace[n - 1], trace[n - 1 + 1]);
      var a :| Enabled(trace[n - 1], a) && trace[n] == Step(c, trace[n - 1], a);
      StepShape(c, trace[n - 1], a);
      RunAdmits(c, trace, n - 1, i);
      StepAdmits(c, trace[n - 1], a, i);
    }
  }

  lemma StartAdmits(c: Setup, s: State, i: nat)
    requires Init(c, s) && i < |s.writers|
    ensures Admitted(c, s.writers[i])
  {
    assert s.writers[i].pc == Start;
  }

  /** In every run a request is refused as invalid exactly if it lacks one of four fields or has too much content; an
      integrity failure means the chain has grown by as many entries as there are attempts. */
  lemma RefusalsExplained(c: Setup, trace: seq<State>, n: nat, i: nat)
    requires Sane(c) && Run(c, trace) && n < |trace| && i < |trace[n].writers| && trace[n].writers[i].pc.Done?
    ensures var w := trace[n].writers[i]; var req, answer := w.req, w.pc.answer;
            && (answer == Err(InvalidArgument) <==>
                  || req.entryType == [] || req.agentId == [] || req.contentType == [] || req.sourceId == []
                  || |req.content| > c.maxContentSize)
            && answer != Err(NoSuchEntry)
            && (answer == Err(Internal) ==>
                  |Chain(trace[n].ledger, req.entryType)| - |Chain(trace[0].ledger, req.entryType)| >= c.maxRetries)
  {
    hide LedgerInv, LockInv, HaltInv, CountInv, Answers, Clashes, Run;
    RunInv(c, trace, n);
    RunAdmits(c, trace, n, i);
    assert WriterInv(c, Chain(trace[n].ledger, trace[n].writers[i].req.entryType), trace[n].writers[i]);
    RunStarts(c, trace);
  }

  lemma RunStarts(c: Setup, trace: seq<State>)
    requires Run(c, trace)
    ensures trace[0].ledger == c.initial
  {
  }

  // ---------------------------------------------------- contention, unlocked

  /** A refused write that is not a key conflict means that the chain has grown since the writer read its tip. */
  lemma ViolationMeansGrowth(c: Setup, trace: seq<State>, n: nat, i: nat)
    requires Sane(c) && Run(c, trace) && n < |trace| && i < |trace[n].writers|
    requires trace[n].writers[i].pc.Write?
    ensures var s := trace[n]; var w := s.writers[i]; var chain := Chain(s.ledger, w.req.entryType);
            !TipMatches(chain, w.pc.previousHash) ==> |chain| > w.pc.seen
  {
    hide LedgerInv, LockInv, HaltInv, CountInv, Run;
    RunInv(c, trace, n);
    var w := trace[n].writers[i];
    var chain := Chain(trace[n].ledger, w.req.entryType);
    assert WriterInv(c, chain, w);
    if !TipMatches(chain, w.pc.previousHash) {
      StaleTipMeansGrowth(c.hash, c.genesisInput, chain[..w.pc.seen], chain);
    }
  }

  lemma StrictSubset(a: set<int>, b: set<int>, x: int)
    requires a <= b && x in b && x !in a
    ensures |a| < |b|
  {
    assert b == a + (b - a) && x in b - a;
  }

  lemma WriterSetsFinite(s: State, t: Bytes, i: nat)
    requires i < |s.writers| && s.writers[i].req.entryType == t && !AnsweredOk(s.writers[i], t)
    ensures |OkWriters(s, t)| < |WritersOn(s, t)|
  {
    StrictSubset(OkWriters(s, t), WritersOn(s, t), i);
  }

  /** Without a common lock, and however the instances interleave: with at least as many attempts as there are
      writers on a type, none of them fails on integrity and the type is never halted. */
  lemma ContentionBound(c: Setup, trace: seq<State>, n: nat, t: Bytes)
    requires Sane(c) && Run(c, trace) && n < |trace|
    requires |WritersOn(trace[n], t)| <= c.maxRetries
    ensures var s := trace[n];
            && (forall i | 0 <= i < |s.writers| && s.writers[i].req.entryType == t ::
                  s.writers[i].pc != Halt && s.writers[i].pc != Done(Err(Internal)))
            && (forall key | key in s.halted :: key.1 != t)
  {
    hide LedgerInv, LockInv, Run, OkWriters, WritersOn, KeysOk, KeylessOk, KeysIn;
    var s := trace[n];
    RunInv(c, trace, n);
    assert CountInv(c, s, t);
    forall i | 0 <= i < |s.writers| && s.writers[i].req.entryType == t
      ensures s.writers[i].pc != Halt && s.writers[i].pc != Done(Err(Internal))
    {
      assert WriterInv(c, Chain(s.ledger, t), s.writers[i]);
      if s.writers[i].pc == Halt || s.writers[i].pc == Done(Err(Internal)) {
        WriterSetsFinite(s, t, i);
      }
    }
    assert !FailedOn(s, t);
    assert forall key | key in s.halted :: FailedOn(s, key.1);
  }

  // ------------------------------------------------------ contention, locked

  /** All writers on the type run in one service instance. */
  ghost predicate OneInstance(s: State, t: Bytes) {
    forall i, j | 0 <= i < |s.writers| && 0 <= j < |s.writers| &&
                  s.writers[i].req.entryType == t && s.writers[j].req.entryType == t ::
      s.writers[i].instance == s.writers[j].instance
  }

  /** The lock holder is on its first attempt and the tip it read is still the tip. */
  predicate Undisturbed(chain: seq<Entry>, pc: Pc) {
    match pc
    case ReadTip(attempt) => attempt == 0
    case Write(attempt, previousHash, seen) => attempt == 0 && seen == |chain|
    case Halt => false
    case Done(answer) => answer != Err(Internal)
    case _ => true
  }

  ghost predicate SoloInv(s: State, t: Bytes) {
    forall i | 0 <= i < |s.writers| && s.writers[i].req.entryType == t ::
      Undisturbed(Chain(s.ledger, t), s.writers[i].pc)
  }

  lemma FreshWriteAccepted(c: Setup, chain: seq<Entry>, w: Writer)
    requires Sane(c) && w.pc.Write? && WriterInv(c, chain, w) && Undisturbed(chain, w.pc)
    ensures TipMatches(chain, w.pc.previousHash)
  {
    assert chain[..|chain|] == chain;
    FreshTipMatches(c.hash, c.genesisInput, chain);
  }

  lemma MoverUndisturbed(c: Setup, s: State, a: Action)
    requires Sane(c) && c.maxRetries >= 1 && a.who < |s.writers|
    requires var w := s.writers[a.who]; var chain := Chain(s.ledger, w.req.entryType);
             WriterInv(c, chain, w) && Undisturbed(chain, w.pc)
    ensures var w := s.writers[a.who]; var s' := Step(c, s, a);
            Undisturbed(Chain(s'.ledger, w.req.entryType), s'.writers[a.who].pc)
  {
    hide CurrentHash, FindKey, KeyTaken, Answers, Clashes, TipMatches;
    var w := s.writers[a.who];
    if w.pc.Write? {
      FreshWriteAccepted(c, Chain(s.ledger, w.req.entryType), w);
    }
  }

  lemma OnlyHolderAppends(c: Setup, s: State, a: Action, i: nat)
    requires Enabled(s, a) && LockInv(s) && i < |s.writers|
    requires s.writers[a.who].pc.Write? && s.writers[i].pc.Write?
    requires LockKey(s.writers[a.who]) == LockKey(s.writers[i])
    ensures i == a.who
  {
  }

  lemma StepKeepsSoloInv(c: Setup, s: State, a: Action, t: Bytes)
    requires Sane(c) && c.maxRetries >= 1 && Enabled(s, a)
    requires WritersInv(c, s) && LockInv(s) && OneInstance(s, t) && SoloInv(s, t)
    ensures SoloInv(Step(c, s, a), t)
  {
    hide Step, LockInv, Unused, KeyTaken, TipMatches;
    var s' := Step(c, s, a);
    StepShape(c, s, a);
    StepChain(c, s, a, t);
    forall i | 0 <= i < |s'.writers| && s'.writers[i].req.entryType == t
      ensures Undisturbed(Chain(s'.ledger, t), s'.writers[i].pc)
    {
      if i == a.who {
        assert WriterInv(c, Chain(s.ledger, t), s.writers[i]);
        MoverUndisturbed(c, s, a);
      } else if s.writers[i].pc.Write? && Appends(c, s.ledger, s.writers[a.who], a) && s.writers[a.who].req.entryType == t {
        OnlyHolderAppends(c, s, a, i);
      }
    }
  }

  lemma StepShape(c: Setup, s: State, a: Action)
    requires a.who < |s.writers|
    ensures var s' := Step(c, s, a);
            && |s'.writers| == |s.writers|
            && (forall i | 0 <= i < |s.writers| :: s'.writers[i].req == s.writers[i].req && s'.writers[i].instance == s.writers[i].instance)
            && (forall i | 0 <= i < |s.writers| && i != a.who :: s'.writers[i] == s.writers[i])
  {
    hide NextPc, NextLedger, NextLocks, NextHalted;
  }

  lemma StepKeepsOneInstance(c: Setup, s: State, a: Action, t: Bytes)
    requires a.who < |s.writers| && OneInstance(s, t)
    ensures OneInstance(Step(c, s, a), t)
  {
    hide Step;
    StepShape(c, s, a);
  }

  lemma {:induction false} RunSolo(c: Setup, trace: seq<State>, n: nat, t: Bytes)
    requires Sane(c) && c.maxRetries >= 1 && Run(c, trace) && n < |trace| && OneInstance(trace[0], t)
    ensures OneInstance(trace[n], t) && SoloInv(trace[n], t)
  {
    hide LedgerInv, WritersInv, LockInv, HaltInv, CountInv, Unused, Step, OneInstance;
    if n > 0 {
      RunSolo(c, trace, n - 1, t);
      RunInv(c, trace, n - 1);
      assert Next(c, trace[n - 1], trace[n - 1 + 1]);
      var a :| Enabled(trace[n - 1], a) && trace[n] == Step(c, trace[n - 1], a);
      StepKeepsSoloInv(c, trace[n - 1], a, t);
      StepKeepsOneInstance(c, trace[n - 1], a, t);
    }
  }

  /** With one service instance on a type and at least one attempt the chain lock makes contention invisible: in
      every interleaving the tip a writer read is still the tip when it writes, on its first attempt, so there is
      no violation, no retry, no integrity failure and no halt. */
  lemma LockHidesContention(c: Setup, trace: seq<State>, n: nat, t: Bytes)
    requires Sane(c) && c.maxRetries >= 1 && Run(c, trace) && n < |trace| && OneInstance(trace[0], t)
    ensures var s := trace[n]; var chain := Chain(s.ledger, t);
            && (forall i | 0 <= i < |s.writers| && s.writers[i].req.entryType == t && s.writers[i].pc.Write? ::
                  s.writers[i].pc.attempt == 0 && TipMatches(chain, s.writers[i].pc.previousHash))
            && (forall i | 0 <= i < |s.writers| && s.writers[i].req.entryType == t ::
                  s.writers[i].pc != Halt && s.writers[i].pc != Done(Err(Internal)))
            && (forall key | key in s.halted :: key.1 != t)
  {
    hide LedgerInv, LockInv, CountInv, Run, OneInstance, TipMatches;
    var s := trace[n];
    RunInv(c, trace, n);
    RunSolo(c, trace, n, t);
    forall i | 0 <= i < |s.writers| && s.writers[i].req.entryType == t && s.writers[i].pc.Write?
      ensures s.writers[i].pc.attempt == 0 && TipMatches(Chain(s.ledger, t), s.writers[i].pc.previousHash)
    {
      assert WriterInv(c, Chain(s.ledger, t), s.writers[i]);
      FreshWriteAccepted(c, Chain(s.ledger, t), s.writers[i]);
    }
    assert !FailedOn(s, t);
    assert forall key | key in s.halted :: FailedOn(s, key.1);
  }

  // ---------------------------------------------------------------- receipts

  /** An answer given is never taken back. */
  lemma {:induction false} AnswerStays(c: Setup, trace: seq<State>, m: nat, n: nat, i: nat)
    requires Sane(c) && Run(c, trace) && m <= n < |trace| && i < |trace[m].writers| && trace[m].writers[i].pc.Done?
    ensures i < |trace[n].writers| && trace[n].writers[i] == trace[m].writers[i]
    decreases n
  {
    hide Init, Unused, Step;
    if m < n {
      AnswerStays(c, trace, m, n - 1, i);
      assert Next(c, trace[n - 1], trace[n - 1 + 1]);
      var a :| Enabled(trace[n - 1], a) && trace[n] == Step(c, trace[n - 1], a);
      StepShape(c, trace[n - 1], a);
    }
  }

  /** A receipt issued at any moment of any run, for an append or for a replay, passes proof verification at every
      later moment: the lookup by hash finds an entry, and whichever entry it finds proves valid and equals the
      receipt in every shared field. The alternative is a collision among the texts of that chain. */
  lemma ReceiptForEver(c: Setup, trace: seq<State>, m: nat, n: nat, i: nat)
    requires Sane(c) && Run(c, trace) && m <= n < |trace| && i < |trace[m].writers|
    requires trace[m].writers[i].pc.Done? && trace[m].writers[i].pc.answer.Ok?
    ensures var w := trace[m].writers[i];
            var receipt := ReceiptOf(w.req, w.pc.answer.value);
            var chain := Chain(trace[n].ledger, w.req.entryType);
            && (exists found :: found in chain && found.entryHash == receipt.entryHash)
            && (|| HasCollision(c.hash, Preimages(chain))
                || forall found | found in chain && found.entryHash == receipt.entryHash ::
                     Confirms(ProofOf(c.hash, found), receipt))
  {
    hide LedgerInv, LockInv, CountInv, Run, HasCollision, Preimages, ProofOf, Confirms, LedgerOk, IdsUnique, KeysUnique;
    var w := trace[m].writers[i];
    var chain := Chain(trace[n].ledger, w.req.entryType);
    RunInv(c, trace, n);
    AnswerStays(c, trace, m, n, i);
    assert WriterInv(c, chain, trace[n].writers[i]);
    var k :| 0 <= k < |chain| && AnsweredBy(chain[k], w.req, w.pc.answer.value);
    assert chain[k] in chain;
    EveryStoreConsistent(c, trace, n, w.req.entryType);
    if !HasCollision(c.hash, Preimages(chain)) {
      forall found | found in chain && found.entryHash == ReceiptOf(w.req, w.pc.answer.value).entryHash
        ensures Confirms(ProofOf(c.hash, found), ReceiptOf(w.req, w.pc.answer.value))
      {
        ReceiptConfirmed(c.hash, w.req.entryType, chain, w.req, w.pc.answer.value, found);
      }
    }
  }

  /** At every moment of every run full verification of a type accepts and counts the whole chain. */
  lemma EveryStoreVerifies(c: Setup, trace: seq<State>, n: nat, t: Bytes)
    requires Sane(c) && Run(c, trace) && n < |trace|
    ensures var chain := Chain(trace[n].ledger, t);
            Verification(c.hash, c.genesisInput, chain, 1, None) == Verdict(true, |chain|, None, NoFailure)
  {
    hide Verification, LedgerOk, IdsUnique, Run, HashForVersion;
    EveryStoreConsistent(c, trace, n, t);
    FromGenesisIsLinked(c.hash, c.genesisInput, t, Chain(trace[n].ledger, t));
    LinkedVerifies(c.hash, c.genesisInput, Chain(trace[n].ledger, t));
  }
}
