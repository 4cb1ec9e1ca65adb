/**
 The contention bound cannot be lowered: under every configuration there is a run with one writer more than
 attempts in which one of them loses every race, fails on integrity and halts the type.
 */
module Contention {
  import opened Options
  import opened ByteText
  import opened Envelope
  import opened Ledger
  import opened Columns
  import opened Verifier
  import opened Receipts
  import opened Protocol
  import opened Interleavings

  const TYPE: Bytes := Ascii("t")
  const REQUEST: Request := Request(TYPE, TYPE, [], TYPE, TYPE, None, None, None, None, None, None)

  const EMPTY := Ledger(map[], map[])

  const ID_COUNT: nat := 0x1_0000_0000_0000_0000_0000_0000_0000_0000

  /** The write of the next winner on chain `w`. */
  function WinnerInput(c: Setup, w: seq<Entry>): WriteInput {
    WriteInput(REQUEST, TipHash(c.hash, c.genesisInput, w), 0, c.createOutbox)
  }

  /** The chain after `n` races won one after the other, with the ids 0, 1, 2 and so on. */
  function Winners(c: Setup, n: nat): (w: seq<Entry>)
    requires n <= ID_COUNT
    ensures |w| == n && forall i | 0 <= i < n :: w[i].entryId == i
  {
    if n == 0 then []
    else
      var w := Winners(c, n - 1);
      w + [NewEntry(c.hash, n, WinnerInput(c, w), n - 1)]
  }

  /** The texts these races hash; there are as many as races, and the genesis input. */
  function Texts(c: Setup, n: nat): set<Bytes>
    requires n <= ID_COUNT
  {
    Preimages(Winners(c, n)) + {c.genesisInput}
  }

  // ------------------------------------------------------------- a new tip

  lemma {:induction false} EarlierWinners(c: Setup, m: nat, n: nat)
    requires m <= n <= ID_COUNT
    ensures Winners(c, m) == Winners(c, n)[..m]
    decreases n
  {
    hide CurrentHash;
    if m < n {
      EarlierWinners(c, m, n - 1);
    }
  }

  /** The text of the `k`-th winner. */
  lemma WinnerText(c: Setup, k: nat, n: nat) returns (p: Bytes)
    requires 1 <= k <= n <= ID_COUNT
    ensures var e := Winners(c, k)[k - 1];
            p == PreimageV3(InputOf(e)) && p in Texts(c, n) && c.hash(p) == e.entryHash && e.chainPosition == k
  {
    hide PreimageV3;
    EarlierWinners(c, k, n);
    var e := Winners(c, k)[k - 1];
    p := PreimageV3(InputOf(e));
    assert e == Winners(c, n)[k - 1] && e in Winners(c, n);
    TagsDiffer();
    assert Preimage(e.hashVersion, InputOf(e)) == Some(p);
  }

  /** Every race won moves the tip, unless two of the texts collide. */
  lemma NewTip(c: Setup, j: nat, n: nat)
    requires NotAnEnvelope(c.genesisInput) && j < n <= ID_COUNT && !HasCollision(c.hash, Texts(c, n))
    ensures Winners(c, j + 1)[j].entryHash != TipHash(c.hash, c.genesisInput, Winners(c, j))
  {
    hide PreimageV3, Texts, NotAnEnvelope, NewEntry;
    var q := WinnerText(c, j + 1, n);
    var e := Winners(c, j + 1)[j];
    if j == 0 {
      TagsDiffer();
      GenesisIsNoPreimage(c.genesisInput, VERSION_V3, InputOf(e));
      GenesisText(c, n);
    } else {
      var p := WinnerText(c, j, n);
      PreimageV3Exact(InputOf(Winners(c, j)[j - 1]), InputOf(e));
    }
  }

  lemma GenesisText(c: Setup, n: nat)
    requires n <= ID_COUNT
    ensures c.genesisInput in Texts(c, n)
  {
  }

  // ------------------------------------------------------------------ a round

  function VictimPc(r: nat, j: nat): Pc {
    if j < r then ReadTip(j) else Halt
  }

  /** Every writer sends the same keyless request through its own service instance. */
  ghost predicate SameRequests(s: State, r: nat) {
    |s.writers| == r + 1 && forall i | 0 <= i < |s.writers| :: s.writers[i].instance == i && s.writers[i].req == REQUEST
  }

  /** The ledger holds the first `j` winners and their outbox records. */
  ghost predicate WonBy(c: Setup, l: Ledger, j: nat)
    requires j <= ID_COUNT
  {
    && l.chains.Keys <= {TYPE} && Chain(l, TYPE) == Winners(c, j)
    && forall o | o in l.outbox :: o < j
  }

  /** Writers beyond the `j`-th have not begun. */
  ghost predicate RestWaiting(s: State, j: nat) {
    && s.halted == {}
    && forall i | j < i < |s.writers| :: s.writers[i].pc == Start && (i, TYPE) !in s.locks
  }

  /** The victim has lost `j` races and is about to try again, or to halt. */
  ghost predicate Lost(c: Setup, s: State, j: nat)
    requires j <= ID_COUNT
  {
    SameRequests(s, c.maxRetries) && WonBy(c, s.ledger, j) && RestWaiting(s, j) && s.writers[0].pc == VictimPc(c.maxRetries, j)
  }

  lemma Extend(c: Setup, trace: seq<State>, a: Action) returns (longer: seq<State>)
    requires Run(c, trace) && Enabled(trace[|trace| - 1], a)
    ensures Run(c, longer) && longer != []
    ensures longer[|longer| - 1] == Step(c, trace[|trace| - 1], a)
  {
    hide Init, NextPc, NextLedger, NextLocks, NextHalted;
    var s := trace[|trace| - 1];
    longer := trace + [Step(c, s, a)];
    forall i | 0 <= i < |longer| - 1
      ensures Next(c, longer[i], longer[i + 1])
    {
      if i < |trace| - 1 {
        assert Next(c, trace[i], trace[i + 1]);
      } else {
        assert longer[i] == s && longer[i + 1] == Step(c, s, a);
      }
    }
  }

  /** Writer `i` takes a step in which nothing fails; its write, if any, draws the ids numbered `j`. */
  function Go(i: nat, j: Uuid): Action {
    Action(i, false, false, 0, Fresh(j, j))
  }

  function SetPc(s: State, i: nat, pc: Pc): State
    requires i < |s.writers|
  {
    s.(writers := s.writers[i := s.writers[i].(pc := pc)])
  }

  lemma StepBegins(c: Setup, s: State, i: nat, j: Uuid)
    requires i < |s.writers| && s.writers[i] == Writer(i, REQUEST, Start) && s.halted == {}
    ensures Enabled(s, Go(i, j)) && Step(c, s, Go(i, j)) == SetPc(s, i, WaitLock)
  {
  }

  lemma StepLocks(c: Setup, s: State, i: nat, j: Uuid)
    requires i < |s.writers| && s.writers[i] == Writer(i, REQUEST, WaitLock) && (i, TYPE) !in s.locks && c.maxRetries >= 1
    ensures Enabled(s, Go(i, j))
    ensures Step(c, s, Go(i, j)) == SetPc(s, i, ReadTip(0)).(locks := s.locks[(i, TYPE) := i])
  {
  }

  lemma StepReads(c: Setup, s: State, i: nat, j: Uuid, k: nat)
    requires i < |s.writers| && s.writers[i] == Writer(i, REQUEST, ReadTip(k))
    ensures var chain := Chain(s.ledger, TYPE);
            && Enabled(s, Go(i, j))
            && Step(c, s, Go(i, j)) == SetPc(s, i, Write(k, TipHash(c.hash, c.genesisInput, chain), |chain|))
  {
  }

  lemma RequestFits()
    ensures Storable(REQUEST)
  {
  }

  /** The write of a writer that read the current tip. */
  lemma StepAppends(c: Setup, s: State, i: nat, j: Uuid)
    requires Sane(c) && i < |s.writers| && WonBy(c, s.ledger, j)
    requires var chain := Chain(s.ledger, TYPE);
             s.writers[i] == Writer(i, REQUEST, Write(0, TipHash(c.hash, c.genesisInput, chain), |chain|))
    requires s.locks.Keys >= {(i, TYPE)} && s.locks[(i, TYPE)] == i
    ensures var e := Winners(c, j + 1)[j];
            var s' := Step(c, s, Go(i, j));
            && Enabled(s, Go(i, j))
            && s'.writers == SetPc(s, i, Done(Ok(OutputOf(e)))).writers
            && s'.locks == s.locks - {(i, TYPE)} && s'.halted == s.halted && WonBy(c, s'.ledger, j + 1)
  {
    hide CurrentHash, TipMatches, Storable;
    RequestFits();
    FreshTipMatches(c.hash, c.genesisInput, Chain(s.ledger, TYPE));
  }

  /** The write of a writer whose tip has gone stale. */
  lemma StepRefused(c: Setup, s: State, j: Uuid, k: nat, previousHash: Bytes, seen: nat)
    requires |s.writers| > 0 && s.writers[0] == Writer(0, REQUEST, Write(k, previousHash, seen))
    requires !TipMatches(Chain(s.ledger, TYPE), previousHash) && Unused(s.ledger, Fresh(j, j))
    ensures Enabled(s, Go(0, j)) && Step(c, s, Go(0, j)) == SetPc(s, 0, VictimPc(c.maxRetries, k + 1))
  {
    hide TipMatches, Unused;
  }

  lemma FreshIds(c: Setup, l: Ledger, j: Uuid)
    requires WonBy(c, l, j)
    ensures Unused(l, Fresh(j, j))
  {
    hide NewEntry;
  }

  /** Writer `i` runs from its first step to its append. */
  lemma WriterAppends(c: Setup, trace: seq<State>, i: nat, j: Uuid) returns (longer: seq<State>)
    requires Sane(c) && c.maxRetries >= 1 && Run(c, trace) && trace != []
    requires var s := trace[|trace| - 1];
             i < |s.writers| && s.writers[i] == Writer(i, REQUEST, Start) && s.halted == {} && (i, TYPE) !in s.locks
             && WonBy(c, s.ledger, j)
    ensures Run(c, longer) && longer != []
    ensures var s, s' := trace[|trace| - 1], longer[|longer| - 1];
            && (exists pc: Pc :: pc.Done? && s'.writers == s.writers[i := s.writers[i].(pc := pc)])
            && s'.halted == {} && s'.locks == s.locks && WonBy(c, s'.ledger, j + 1)
  {
    hide Run, Step, Enabled, WonBy, CurrentHash, Init;
    var s := trace[|trace| - 1];
    StepBegins(c, s, i, j);
    longer := Extend(c, trace, Go(i, j));
    StepLocks(c, longer[|longer| - 1], i, j);
    longer := Extend(c, longer, Go(i, j));
    StepReads(c, longer[|longer| - 1], i, j, 0);
    longer := Extend(c, longer, Go(i, j));
    StepAppends(c, longer[|longer| - 1], i, j);
    longer := Extend(c, longer, Go(i, j));
    assert s.locks[(i, TYPE) := i] - {(i, TYPE)} == s.locks;
  }

  /** One race: the victim reads the tip, the next writer appends, the victim's write is refused. */
  lemma Race(c: Setup, trace: seq<State>, j: nat) returns (longer: seq<State>)
    requires Sane(c) && NotAnEnvelope(c.genesisInput) && j < c.maxRetries < ID_COUNT
    requires !HasCollision(c.hash, Texts(c, c.maxRetries))
    requires Run(c, trace) && trace != [] && Lost(c, trace[|trace| - 1], j)
    ensures Run(c, longer) && longer != [] && Lost(c, longer[|longer| - 1], j + 1)
  {
    hide Run, Step, Enabled, CurrentHash, Init, TipMatches, HasCollision, Texts, Winners, NotAnEnvelope;
    var s := trace[|trace| - 1];
    StepReads(c, s, 0, j, j);
    longer := Extend(c, trace, Go(0, j));
    longer := WriterAppends(c, longer, j + 1, j);
    var s' := longer[|longer| - 1];
    FreshIds(c, s'.ledger, j + 1);
    NewTip(c, j, c.maxRetries);
    assert !TipMatches(Chain(s'.ledger, TYPE), TipHash(c.hash, c.genesisInput, Chain(s.ledger, TYPE))) by {
      StaleTip(Winners(c, j + 1), TipHash(c.hash, c.genesisInput, Winners(c, j)));
    }
    StepRefused(c, s', j + 1, j, TipHash(c.hash, c.genesisInput, Chain(s.ledger, TYPE)), |Chain(s.ledger, TYPE)|);
    longer := Extend(c, longer, Go(0, j + 1));
  }

  lemma StaleTip(chain: seq<Entry>, previousHash: Bytes)
    requires chain != [] && chain[|chain| - 1].entryHash != previousHash
    ensures !TipMatches(chain, previousHash)
  {
  }

  lemma {:induction false} Races(c: Setup, j: nat) returns (trace: seq<State>)
    requires Sane(c) && NotAnEnvelope(c.genesisInput) && 1 <= c.maxRetries < ID_COUNT && j <= c.maxRetries && c.initial == EMPTY
    requires !HasCollision(c.hash, Texts(c, c.maxRetries))
    ensures Run(c, trace) && trace != [] && Lost(c, trace[|trace| - 1], j)
  {
    hide Run, Lost, HasCollision, Texts, NotAnEnvelope;
    if j == 0 {
      trace := FirstTry(c);
    } else {
      trace := Races(c, j - 1);
      trace := Race(c, trace, j - 1);
    }
  }

  lemma EmptyLedger(c: Setup)
    requires c.initial == EMPTY
    ensures LedgerInv(c, EMPTY) && !Cut(REQUEST)
  {
  }

  lemma FirstTry(c: Setup) returns (trace: seq<State>)
    requires c.maxRetries >= 1 && c.initial == EMPTY
    ensures Run(c, trace) && trace != [] && Lost(c, trace[|trace| - 1], 0)
  {
    hide Step, Enabled, LedgerInv, Cut;
    EmptyLedger(c);
    var n := c.maxRetries + 1;
    var s := State(EMPTY, seq(n, i requires 0 <= i < n => Writer(i, REQUEST, Start)), map[], {});
    trace := [s];
    StepBegins(c, s, 0, 0);
    trace := Extend(c, trace, Go(0, 0));
    StepLocks(c, trace[|trace| - 1], 0, 0);
    trace := Extend(c, trace, Go(0, 0));
  }

  lemma {:induction false} UpTo(n: nat) returns (all: set<int>)
    ensures |all| == n && forall i :: i in all <==> 0 <= i < n
  {
    if n == 0 {
      all := {};
    } else {
      all := UpTo(n - 1);
      all := all + {n - 1};
    }
  }

  /** Over either repository, from an empty ledger, with any hash, any genesis input that is no envelope and any number
      of attempts below the number of ids: there is a run with just one more writer, all on one type, in which a request
      fails on integrity and the type is halted; or two of the few texts of that very run collide. */
  lemma BoundIsTight(c: Setup)
    requires Sane(c) && NotAnEnvelope(c.genesisInput) && 1 <= c.maxRetries < ID_COUNT && c.initial == EMPTY
    ensures || HasCollision(c.hash, Texts(c, c.maxRetries))
            || exists trace: seq<State> ::
                 && Run(c, trace) && trace != []
                 && var s := trace[|trace| - 1];
                 && |WritersOn(s, TYPE)| == c.maxRetries + 1
                 && s.writers[0].pc == Done(Err(Internal)) && (s.writers[0].instance, TYPE) in s.halted
  {
    hide Run, Init, Enabled, WonBy, RestWaiting, HasCollision, Texts, NotAnEnvelope;
    if !HasCollision(c.hash, Texts(c, c.maxRetries)) {
      var trace := Races(c, c.maxRetries);
      var s := trace[|trace| - 1];
      StepHalts(c, s, 0);
      trace := Extend(c, trace, Go(0, 0));
      var s' := trace[|trace| - 1];
      var all := UpTo(c.maxRetries + 1);
      assert forall i | 0 <= i < |s'.writers| :: s'.writers[i].req == REQUEST;
      assert WritersOn(s', TYPE) == all;
    }
  }

  lemma StepHalts(c: Setup, s: State, j: Uuid)
    requires |s.writers| > 0 && s.writers[0] == Writer(0, REQUEST, Halt)
    ensures Enabled(s, Go(0, j))
    ensures var s' := Step(c, s, Go(0, j));
            s'.writers == SetPc(s, 0, Done(Err(Internal))).writers && s'.halted == s.halted + {(0, TYPE)}
  {
  }
}
