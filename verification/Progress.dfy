/**
 The write protocol always gets on: while a request is unanswered some step can be taken, and no run is longer than
 the attempts of its writers allow.
 */
module Progress {
  import opened ByteText
  import opened Ledger
  import opened Protocol
  import opened Interleavings

  // ------------------------------------------------------------ no deadlock

  /** A held lock belongs to a writer of that instance and type that is still past it. */
  ghost predicate HeldByWorker(s: State) {
    forall key | key in s.locks :: HeldAt(s, key)
  }

  predicate HeldAt(s: State, key: (nat, Bytes))
    requires key in s.locks
  {
    var i := s.locks[key];
    i < |s.writers| && InCriticalSection(s.writers[i].pc) && LockKey(s.writers[i]) == key
  }

  lemma MoverStaysInside(c: Setup, s: State, a: Action)
    requires a.who < |s.writers|
    requires InCriticalSection(s.writers[a.who].pc)
    ensures var next := NextPc(c, s, s.writers[a.who], a); next.Done? || InCriticalSection(next)
  {
    hide Appends, KeyTaken, FindKey, TipMatches;
  }

  lemma StepKeepsHeld(c: Setup, s: State, a: Action)
    requires Enabled(s, a) && LockInv(s) && HeldByWorker(s)
    ensures HeldByWorker(Step(c, s, a))
  {
    hide Unused, NextLedger, NextHalted, NextPc;
    var s' := Step(c, s, a);
    var w := s.writers[a.who];
    var next := NextPc(c, s, w, a);
    if InCriticalSection(w.pc) {
      MoverStaysInside(c, s, a);
    }
    if w.pc.WaitLock? {
      AfterWait(c, s, a);
    }
    forall key | key in s'.locks
      ensures HeldAt(s', key)
    {
      if key in s.locks && s'.locks[key] == s.locks[key] {
        assert HeldAt(s, key);
      }
    }
  }

  lemma AfterWait(c: Setup, s: State, a: Action)
    requires a.who < |s.writers| && s.writers[a.who].pc.WaitLock?
    ensures var next := NextPc(c, s, s.writers[a.who], a); next.Done? || InCriticalSection(next)
  {
  }

  lemma {:induction false} RunHeld(c: Setup, trace: seq<State>, n: nat)
    requires Sane(c) && Run(c, trace) && n < |trace|
    ensures HeldByWorker(trace[n])
  {
    hide Inv, Unused, Step, HeldByWorker;
    if n == 0 {
      NoneHeld(c, trace[0]);
    } else {
      RunHeld(c, trace, n - 1);
      RunInv(c, trace, n - 1);
      assert LockInv(trace[n - 1]) by {
        InvLocks(c, trace[n - 1]);
      }
      assert Next(c, trace[n - 1], trace[n - 1 + 1]);
      var a :| Enabled(trace[n - 1], a) && trace[n] == Step(c, trace[n - 1], a);
      StepKeepsHeld(c, trace[n - 1], a);
    }
  }

  lemma NoneHeld(c: Setup, s: State)
    requires Init(c, s)
    ensures HeldByWorker(s)
  {
  }

  lemma InvLocks(c: Setup, s: State)
    requires Inv(c, s)
    ensures LockInv(s)
  {
    hide LedgerInv, WritersInv, HaltInv, CountInv;
  }

  /** No deadlock: while some request is unanswered and ids are left, some writer can take a step. */
  lemma SomeoneCanMove(c: Setup, trace: seq<State>, n: nat, i: nat, ids: Fresh)
    requires Sane(c) && Run(c, trace) && n < |trace|
    requires i < |trace[n].writers| && !trace[n].writers[i].pc.Done? && Unused(trace[n].ledger, ids)
    ensures exists a :: Enabled(trace[n], a)
  {
    hide Run, Unused;
    var s := trace[n];
    var key := LockKey(s.writers[i]);
    RunHeld(c, trace, n);
    assert key in s.locks ==> HeldAt(s, key);
    var who := if s.writers[i].pc.WaitLock? && key in s.locks then s.locks[key] else i;
    assert Enabled(s, Action(who, false, false, 0, ids));
  }

  // --------------------------------------------------------- bounded length

  /** How many steps a writer can still take. */
  function Rank(r: nat, pc: Pc): int {
    match pc
    case Start => 2 * r + 5
    case ClearHalt => 2 * r + 4
    case Lookup => 2 * r + 3
    case WaitLock => 2 * r + 2
    case ReadTip(attempt) => 2 * (r - attempt) + 1
    case Write(attempt, previousHash, seen) => 2 * (r - attempt)
    case Relookup => 1
    case Halt => 1
    case Done(answer) => 0
  }

  function TotalRank(r: nat, ws: seq<Writer>): int {
    if ws == [] then 0 else TotalRank(r, ws[..|ws| - 1]) + Rank(r, ws[|ws| - 1].pc)
  }

  /** The step of a writer lowers its rank. */
  lemma MoverRank(c: Setup, s: State, a: Action)
    requires Enabled(s, a)
    requires WriterInv(c, Chain(s.ledger, s.writers[a.who].req.entryType), s.writers[a.who])
    ensures 0 <= Rank(c.maxRetries, NextPc(c, s, s.writers[a.who], a)) < Rank(c.maxRetries, s.writers[a.who].pc)
  {
    hide Appends, KeyTaken, FindKey, TipMatches, Unused, Chain;
  }

  lemma {:induction false} TotalAfterMove(r: nat, ws: seq<Writer>, i: nat, w: Writer)
    requires i < |ws|
    ensures TotalRank(r, ws[i := w]) == TotalRank(r, ws) - Rank(r, ws[i].pc) + Rank(r, w.pc)
    decreases |ws|
  {
    hide Rank;
    var n := |ws| - 1;
    if i < n {
      assert ws[i := w][..n] == ws[..n][i := w];
      TotalAfterMove(r, ws[..n], i, w);
    } else {
      assert ws[i := w][..n] == ws[..n];
    }
  }

  lemma {:induction false} TotalAtLeast(r: nat, ws: seq<Writer>)
    requires forall i | 0 <= i < |ws| :: Rank(r, ws[i].pc) >= 0
    ensures TotalRank(r, ws) >= 0
    decreases |ws|
  {
    if ws != [] {
      TotalAtLeast(r, ws[..|ws| - 1]);
    }
  }

  lemma {:induction false} TotalAtStart(r: nat, ws: seq<Writer>)
    requires forall i | 0 <= i < |ws| :: ws[i].pc == Start
    ensures TotalRank(r, ws) == |ws| * (2 * r + 5)
    decreases |ws|
  {
    if ws != [] {
      TotalAtStart(r, ws[..|ws| - 1]);
    }
  }

  lemma RanksAreNatural(c: Setup, trace: seq<State>, n: nat)
    requires Sane(c) && Run(c, trace) && n < |trace|
    ensures TotalRank(c.maxRetries, trace[n].writers) >= 0
  {
    hide Run, LedgerInv, LockInv, HaltInv, CountInv;
    RunInv(c, trace, n);
    var s := trace[n];
    forall i | 0 <= i < |s.writers|
      ensures Rank(c.maxRetries, s.writers[i].pc) >= 0
    {
      assert WriterInv(c, Chain(s.ledger, s.writers[i].req.entryType), s.writers[i]);
    }
    TotalAtLeast(c.maxRetries, s.writers);
  }

  lemma {:induction false} RankFalls(c: Setup, trace: seq<State>, n: nat)
    requires Sane(c) && Run(c, trace) && n < |trace|
    ensures |trace[n].writers| == |trace[0].writers|
    ensures n + TotalRank(c.maxRetries, trace[n].writers) <= |trace[0].writers| * (2 * c.maxRetries + 5)
  {
    hide Step, Unused, Rank, WriterInv, LedgerInv, LockInv, HaltInv, CountInv, NextPc;
    if n == 0 {
      TotalAtStart(c.maxRetries, trace[0].writers);
    } else {
      RankFalls(c, trace, n - 1);
      RunInv(c, trace, n - 1);
      assert Next(c, trace[n - 1], trace[n - 1 + 1]);
      var s := trace[n - 1];
      var a :| Enabled(s, a) && trace[n] == Step(c, s, a);
      var w := s.writers[a.who];
      assert WriterInv(c, Chain(s.ledger, w.req.entryType), w);
      MoverRank(c, s, a);
      MovedWriters(c, s, a);
      TotalAfterMove(c.maxRetries, s.writers, a.who, w.(pc := NextPc(c, s, w, a)));
    }
  }

  lemma MovedWriters(c: Setup, s: State, a: Action)
    requires a.who < |s.writers|
    ensures Step(c, s, a).writers == s.writers[a.who := s.writers[a.who].(pc := NextPc(c, s, s.writers[a.who], a))]
  {
    hide NextPc, NextLedger, NextLocks, NextHalted;
  }

  /** No run has more steps than each of its writers has in it: 2 * maxRetries + 5. So the protocol cannot run for
      ever, and by `SomeoneCanMove` it only stops when every request is answered. */
  lemma RunsAreBounded(c: Setup, trace: seq<State>)
    requires Sane(c) && Run(c, trace)
    ensures |trace| <= |trace[0].writers| * (2 * c.maxRetries + 5) + 1
  {
    RankFalls(c, trace, |trace| - 1);
    RanksAreNatural(c, trace, |trace| - 1);
  }
}
