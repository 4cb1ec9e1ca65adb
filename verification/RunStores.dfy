/**
 Every moment of every run, as the verification calls see it: the answers they give on any in-memory store that holds
 the ledger of a run.
 */
module RunStores {
  import opened Options
  import opened ByteText
  import opened Ledger
  import opened Repository
  import opened Verifier
  import opened Checks
  import opened Protocol
  import opened Interleavings

  lemma RunStoreIsGenuine(c: Setup, trace: seq<State>, n: nat, m: Inner)
    requires Sane(c) && Run(c, trace) && n < |trace|
    requires WellFormed(c.hash, m) && Abs(m) == trace[n].ledger
    ensures Genuine(c.hash, c.genesisInput, m)
  {
    hide Run, LedgerOk, IdsUnique, WritersInv, LockInv, HaltInv, CountInv, WellFormed, Abs, StartsAtGenesis;
    RunInv(c, trace, n);
  }

  /** In every run full verification accepts the whole chain. */
  lemma FullVerificationInRuns(c: Setup, trace: seq<State>, n: nat, m: Inner, t: Bytes)
    requires Sane(c) && Run(c, trace) && n < |trace|
    requires WellFormed(c.hash, m) && Abs(m) == trace[n].ledger
    ensures ChainAnswer(c.hash, c.genesisInput, m, t, None, None) == Ok(Verdict(true, |Chain(trace[n].ledger, t)|, None, NoFailure))
  {
    hide Run, Genuine, Reachable, WellFormed, Abs;
    RunStoreIsGenuine(c, trace, n, m);
    GenuineIsReachable(c.hash, c.genesisInput, m, t);
    FullVerificationAccepts(c.hash, c.genesisInput, m, t);
  }

  /** In every run the recent window is accepted with count min(n, maxEntries). */
  lemma RecentVerificationInRuns(c: Setup, trace: seq<State>, n: nat, m: Inner, t: Bytes, maxEntries: int)
    requires Sane(c) && Run(c, trace) && n < |trace| && maxEntries > 0
    requires WellFormed(c.hash, m) && Abs(m) == trace[n].ledger
    ensures var k := |Chain(trace[n].ledger, t)|;
            RecentAnswer(c.hash, c.genesisInput, m, t, maxEntries)
            == Ok(Verdict(true, if k < maxEntries then k else maxEntries, None, NoFailure))
  {
    hide Run, Genuine, Reachable, WellFormed, Abs, RecentAnswer;
    RunStoreIsGenuine(c, trace, n, m);
    GenuineIsReachable(c.hash, c.genesisInput, m, t);
    RecentVerificationAccepts(c.hash, c.genesisInput, m, t, maxEntries);
  }

  /** In every run single-entry verification reports both flags true for every stored entry. */
  lemma EntryVerificationInRuns(c: Setup, trace: seq<State>, n: nat, m: Inner, id: Uuid)
    requires Sane(c) && Run(c, trace) && n < |trace|
    requires WellFormed(c.hash, m) && Abs(m) == trace[n].ledger && id in m.entries
    ensures EntryAnswer(c.hash, c.genesisInput, m, id) == Ok(EntryVerdict(id, true, true, NoFailure))
  {
    hide Run, Genuine, WellFormed, Abs, EntryAnswer;
    RunStoreIsGenuine(c, trace, n, m);
    GenuineEntry(c.hash, c.genesisInput, m, id);
  }
}
