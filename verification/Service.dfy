/**
 The ledger service (src/service/mod.rs) over the in-memory repository: verification, writing and receipts.
 */
module Service {
  import opened Options
  import opened ByteText
  import opened Envelope
  import opened Ledger
  import opened Repository
  import opened Verifier
  import opened Checks
  import opened Interference
  import opened Receipts

  // ------------------------------------------------------------------ writing

  /** The configuration the write path reads. */
  datatype Config = Config(
    genesisHashInput: Bytes,
    maxContentSize: nat,
    chainMaxRetries: nat,
    haltRecovery: nat,
    publisherEnabled: bool)

  /** The readings one call takes: the halt check, the halt it may leave behind, and the UTC clock per attempt. */
  datatype Clock = Clock(checkAt: int, haltAt: int, utc: nat -> int)

  predicate Halted(halted: map<Bytes, int>, config: Config, clock: Clock, t: Bytes) {
    t in halted && clock.checkAt - halted[t] < config.haltRecovery
  }

  /** What the answers to a request say about its chain, spelled out: Ok names an entry that was submitted with this very
      request, field by field; and of the entries under its key, Ok and AlreadyExists tell apart those that were and were
      not submitted with it. */
  lemma SpelledOut(h: Hasher, m: Inner, input: Request, r: Result<WriteOutput, ServiceError>)
    requires WellFormed(h, m)
    requires r.Ok? ==> Answers(Chain(Abs(m), input.entryType), input, r.value)
    requires r == Err(AlreadyExists) ==> Clashes(Chain(Abs(m), input.entryType), input)
    ensures var c := Chain(Abs(m), input.entryType);
            && (r.Ok? ==> exists e | e in c ::
                  && e.req == input && r.value.entryId == e.entryId && r.value.entryHash == e.entryHash
                  && r.value.hashVersion == e.hashVersion && r.value.chainPosition == e.chainPosition
                  && r.value.writtenTsMs == e.writtenTsMs)
            && (r == Err(AlreadyExists) ==>
                  input.idempotencyKey.Some? && exists e | e in c :: e.req.idempotencyKey == input.idempotencyKey)
            && (input.idempotencyKey.Some? && (r.Ok? || r == Err(AlreadyExists)) ==>
                  forall e | e in c && e.req.idempotencyKey == input.idempotencyKey :: r == Err(AlreadyExists) <==> e.req != input)
  {
    hide ListsOk, EntriesOk, TipsOk, IndexOk, OutboxOk, ChainOk, Answers, Clashes, Abs;
    var c := Chain(Abs(m), input.entryType);
    assert KeysUnique(c) by {
      assert input.entryType in Abs(m).chains ==> TypeOk(h, Abs(m), input.entryType);
    }
    if r.Ok? {
      AnswersMeans(c, input, r.value);
    }
    if r == Err(AlreadyExists) {
      ClashesMeans(c, input);
      OneClash(c, input);
    }
  }

  lemma OneClash(c: seq<Entry>, input: Request)
    requires KeysUnique(c) && Clashes(c, input)
    ensures forall e | e in c && e.req.idempotencyKey == input.idempotencyKey :: e.req != input
  {
    hide KeysUnique;
    var i :| 0 <= i < |c| && c[i].req.idempotencyKey == input.idempotencyKey && c[i].req != input;
    forall e | e in c && e.req.idempotencyKey == input.idempotencyKey
      ensures e.req != input
    {
      var j :| 0 <= j < |c| && c[j] == e;
      OneHolder(c, i, j);
    }
  }

  /** A service instance that reads and writes one repository. */
  class LedgerService {
    const repo: InMemoryLedgerRepository
    const config: Config
    var chainHalted: map<Bytes, int>

    constructor (repo: InMemoryLedgerRepository, config: Config)
      ensures this.repo == repo && this.config == config && chainHalted == map[]
    {
      this.repo := repo;
      this.config := config;
      chainHalted := map[];
    }

    function Genesis(): Bytes {
      repo.hash(config.genesisHashInput)
    }

    /** The position a boundary id stands for, with the type check of `verify_chain`. */
    method FindBoundary(t: Bytes, id: Option<Uuid>, others: OtherInstances) returns (r: Result<Option<int>, ServiceError>)
      requires others.genesisHash == Genesis() && Readable(repo.hash, SceneOf(repo, others), t)
      modifies repo, others
      ensures Watched(repo.hash, Genesis(), old(SceneOf(repo, others)), SceneOf(repo, others))
      ensures r == Boundary(repo.State(), t, id)
    {
      hide WellFormed, Rows, Abs, Grown;
      WatchedReflexive(repo.hash, Genesis(), SceneOf(repo, others));
      if id.None? {
        return Ok(None);
      }
      others.Interfere(repo, None);
      var found := repo.GetEntry(id.value);
      if found.Err? {
        return Err(NoSuchEntry);
      }
      if found.value.req.entryType != t {
        return Err(InvalidArgument);
      }
      return Ok(Some(found.value.chainPosition));
    }

    /** The hash a check from a position has to link to, or none when the entry before it is missing. */
    method FindPredecessor(t: Bytes, startPosition: int, others: OtherInstances) returns (prevHash: Option<Bytes>)
      requires others.genesisHash == Genesis() && Readable(repo.hash, SceneOf(repo, others), t)
      modifies repo, others
      ensures Watched(repo.hash, Genesis(), old(SceneOf(repo, others)), SceneOf(repo, others))
      ensures prevHash == PredecessorHash(repo.hash, config.genesisHashInput, Rows(repo.State(), t), startPosition)
    {
      hide WellFormed, Rows, Abs, Grown;
      WatchedReflexive(repo.hash, Genesis(), SceneOf(repo, others));
      if startPosition == 1 {
        return Some(Genesis());
      }
      others.Interfere(repo, None);
      var predecessors := repo.GetEntriesByTypePaged(t, startPosition - 2, 1);
      return if predecessors == [] then None else Some(predecessors[0].entryHash);
    }

    /** One round of the batched loop of `verify_chain`: it ends the check, or leads on. */
    method NextBatch(t: Bytes, firstPrevHash: Bytes, firstPosition: int, end: Option<int>, firstChecked: int, others: OtherInstances)
      returns (done: Option<Verdict>, prevHash: Bytes, afterPosition: int, entriesChecked: int)
      requires others.genesisHash == Genesis() && Readable(repo.hash, SceneOf(repo, others), t)
      modifies repo, others
      ensures Watched(repo.hash, Genesis(), old(SceneOf(repo, others)), SceneOf(repo, others))
      ensures others.script == [] || |others.script| < |old(others.script)|
      ensures BatchResult(repo.hash, Rows(repo.State(), t), end, firstPrevHash, firstPosition, firstChecked,
                          done, prevHash, afterPosition, entriesChecked)
    {
      hide WellFormed, Rows, Abs, Watched, BatchResult, Sorted;
      ghost var before := SceneOf(repo, others);
      ReadableWell(repo.hash, before, t);
      others.Interfere(repo, None);
      StaysReadable(repo.hash, Genesis(), before, SceneOf(repo, others), t);
      done, prevHash, afterPosition, entriesChecked := ReadBatch(t, firstPrevHash, firstPosition, end, firstChecked);
    }

    /** The read of a round and what is made of it. */
    method ReadBatch(t: Bytes, firstPrevHash: Bytes, firstPosition: int, end: Option<int>, firstChecked: int)
      returns (done: Option<Verdict>, prevHash: Bytes, afterPosition: int, entriesChecked: int)
      requires Sorted(Rows(repo.State(), t))
      ensures BatchResult(repo.hash, Rows(repo.State(), t), end, firstPrevHash, firstPosition, firstChecked,
                          done, prevHash, afterPosition, entriesChecked)
    {
      hide Rows, HashForVersion, Scan, Beyond, Sorted;
      ghost var rows := Rows(repo.State(), t);
      ghost var pending := After(rows, firstPosition);
      done, prevHash, afterPosition, entriesChecked := None, firstPrevHash, firstPosition, firstChecked;
      var batch := repo.GetEntriesByTypePaged(t, firstPosition, BATCH_SIZE);
      if batch == [] {
        done := Some(Verdict(true, firstChecked, None, NoFailure));
        NothingLeft(repo.hash, firstPrevHash, end, firstChecked);
        return;
      }
      AfterBatch(rows, firstPosition, |batch|);
      assert pending == batch + pending[|batch|..];
      done, prevHash, entriesChecked := CheckBatch(batch, firstPrevHash, end, firstChecked, pending[|batch|..]);
      if done.Some? {
        return;
      }
      afterPosition := batch[|batch| - 1].chainPosition;
      if |batch| < BATCH_SIZE {
        done := Some(Verdict(true, entriesChecked, None, NoFailure));
        NothingLeft(repo.hash, prevHash, end, entriesChecked);
      }
    }

    /** One batch: a verdict, or the hash and count to go on with; `later` are the rows still to come. */
    method CheckBatch(batch: seq<Entry>, firstPrevHash: Bytes, end: Option<int>, firstChecked: int, ghost later: seq<Entry>)
      returns (done: Option<Verdict>, prevHash: Bytes, entriesChecked: int)
      ensures done.Some? ==> done.value == Scan(repo.hash, firstPrevHash, batch + later, end, firstChecked)
      ensures done.None? ==> (Scan(repo.hash, firstPrevHash, batch + later, end, firstChecked)
                              == Scan(repo.hash, prevHash, later, end, entriesChecked))
      ensures done.None? ==> prevHash == HashBefore(firstPrevHash, batch, |batch|) && entriesChecked == firstChecked + |batch|
      ensures done.None? ==> forall e | e in batch :: !Beyond(e, end)
    {
      hide HashForVersion;
      prevHash, entriesChecked := firstPrevHash, firstChecked;
      var i := 0;
      while i < |batch|
        invariant 0 <= i <= |batch|
        invariant prevHash == HashBefore(firstPrevHash, batch, i) && entriesChecked == firstChecked + i
        invariant forall j | 0 <= j < i :: !Beyond(batch[j], end)
        invariant Scan(repo.hash, firstPrevHash, batch + later, end, firstChecked)
               == Scan(repo.hash, prevHash, batch[i..] + later, end, entriesChecked)
      {
        var entry := batch[i];
        assert (batch[i..] + later)[0] == entry && (batch[i..] + later)[1..] == batch[i + 1..] + later;
        if Beyond(entry, end) {
          done := Some(Verdict(true, entriesChecked, None, NoFailure));
          return;
        }
        if entry.previousHash != prevHash {
          done := Some(Verdict(false, entriesChecked + 1, Some(entry.entryId), ChainLinkMismatch));
          return;
        }
        var recomputed := Recomputed(repo.hash, entry);
        if recomputed != Some(entry.entryHash) {
          done := Some(Verdict(false, entriesChecked + 1, Some(entry.entryId),
                               if recomputed.None? then UnsupportedHashVersion else EntryHashMismatch));
          return;
        }
        prevHash := entry.entryHash;
        entriesChecked := entriesChecked + 1;
        i := i + 1;
      }
      assert batch[i..] + later == later;
      done := None;
    }

    /** The batched loop of `verify_chain`. */
    method CheckFrom(t: Bytes, firstPrevHash: Bytes, firstPosition: int, end: Option<int>, others: OtherInstances)
      returns (verdict: Verdict)
      requires others.genesisHash == Genesis() && Readable(repo.hash, SceneOf(repo, others), t)
      modifies repo, others
      ensures Watched(repo.hash, Genesis(), old(SceneOf(repo, others)), SceneOf(repo, others))
      ensures old(others.script) == [] ==>
                verdict == Scan(repo.hash, firstPrevHash, After(Rows(old(repo.State()), t), firstPosition), end, 0)
      ensures old(OnGenuineChain(t, firstPosition, firstPrevHash, end)) ==>
                OnlineVerdict(verdict, old(repo.State()), repo.State(), t, firstPosition, end)
    {
      hide WellFormed, Rows, Abs, Grown, Scan, Beyond, Sorted, Genuine, BatchResult, OnChain, OnlineVerdict;
      var h, g := repo.hash, config.genesisHashInput;
      ghost var first := SceneOf(repo, others);
      var prevHash, afterPosition, entriesChecked := firstPrevHash, firstPosition, 0;
      WatchedReflexive(h, Genesis(), first);
      while true
        invariant Watched(h, Genesis(), first, SceneOf(repo, others)) && Readable(h, SceneOf(repo, others), t)
        invariant first.script == [] ==>
                    Scan(h, firstPrevHash, After(Rows(first.m, t), firstPosition), end, 0)
                    == Scan(h, prevHash, After(Rows(first.m, t), afterPosition), end, entriesChecked)
        invariant old(OnGenuineChain(t, firstPosition, firstPrevHash, end)) ==>
                    OnGenuineChain(t, afterPosition, prevHash, end) && entriesChecked == afterPosition - firstPosition
        decreases |others.script|, |After(Rows(repo.State(), t), afterPosition)|
      {
        ghost var a := SceneOf(repo, others);
        var done, nextHash, nextPosition, nextChecked := NextBatch(t, prevHash, afterPosition, end, entriesChecked, others);
        ghost var b := SceneOf(repo, others);
        WatchedTransitive(h, Genesis(), first, a, b);
        StaysReadable(h, Genesis(), a, b, t);
        BatchDecides(h, Rows(b.m, t), end, prevHash, afterPosition, entriesChecked, done, nextHash, nextPosition, nextChecked);
        if old(OnGenuineChain(t, firstPosition, firstPrevHash, end)) {
          BatchOnline(h, g, a, b, t, end, prevHash, afterPosition, entriesChecked, done, nextHash, nextPosition, nextChecked);
          if done.Some? {
            LoopOnline(h, g, first, b, t, firstPosition, end, done.value);
          }
        }
        if done.Some? {
          return done.value;
        }
        prevHash, afterPosition, entriesChecked := nextHash, nextPosition, nextChecked;
      }
    }

    /** The store is genuine and the check stands on its chain. */
    ghost predicate OnGenuineChain(t: Bytes, p: int, prev: Bytes, end: Option<int>)
      reads repo
    {
      && Genuine(repo.hash, config.genesisHashInput, repo.State())
      && OnChain(repo.hash, config.genesisHashInput, Rows(repo.State(), t), p, prev, end)
    }

    /** The check of `verify_chain` from a position: the hash before it, then the loop. */
    method CheckRange(t: Bytes, startPosition: int, end: Option<int>, others: OtherInstances) returns (verdict: Verdict)
      requires others.genesisHash == Genesis() && Readable(repo.hash, SceneOf(repo, others), t)
      modifies repo, others
      ensures Watched(repo.hash, Genesis(), old(SceneOf(repo, others)), SceneOf(repo, others))
      ensures old(others.script) == [] ==>
                verdict == Verification(repo.hash, config.genesisHashInput, Rows(old(repo.State()), t), startPosition, end)
      ensures old(Genuine(repo.hash, config.genesisHashInput, repo.State()))
              && 1 <= startPosition <= |Chain(old(repo.Contents()), t)| + 1
              && (end.Some? ==> startPosition <= end.value <= |Chain(old(repo.Contents()), t)|) ==>
                OnlineVerdict(verdict, old(repo.State()), repo.State(), t, startPosition - 1, end)
    {
      hide WellFormed, Rows, Abs, Grown, Scan, Sorted, Genuine, OnChain, OnlineVerdict, PredecessorHash, Verification;
      var h, g := repo.hash, config.genesisHashInput;
      ghost var a := SceneOf(repo, others);
      var prevHash := FindPredecessor(t, startPosition, others);
      ghost var b := SceneOf(repo, others);
      StaysReadable(h, Genesis(), a, b, t);
      VerificationIsScan(h, g, Rows(b.m, t), startPosition, end);
      ghost var online := Genuine(h, g, a.m) && 1 <= startPosition <= |Chain(Abs(a.m), t)| + 1
                          && (end.Some? ==> startPosition <= end.value <= |Chain(Abs(a.m), t)|);
      if online {
        RangeOnline(h, g, a, b, t, startPosition, end, prevHash);
      }
      if prevHash.None? {
        return Verdict(false, 0, None, PredecessorNotFound);
      }
      verdict := CheckFrom(t, prevHash.value, startPosition - 1, end, others);
      ghost var c := SceneOf(repo, others);
      WatchedTransitive(h, Genesis(), a, b, c);
      if online {
        OnlineEarlier(h, g, a, b, c, t, startPosition - 1, end, verdict);
      }
    }

    /** `verify_chain`. On a store at rest, whatever was done to it, the answer is that of the one-pass check. On a
        genuine store that others keep appending to, it accepts. */
    method VerifyChain(t: Bytes, startId: Option<Uuid>, endId: Option<Uuid>, others: OtherInstances)
      returns (r: Result<Verdict, ServiceError>)
      requires others.genesisHash == Genesis() && Readable(repo.hash, SceneOf(repo, others), t)
      modifies repo, others
      ensures Watched(repo.hash, Genesis(), old(SceneOf(repo, others)), SceneOf(repo, others))
      ensures old(others.script) == [] ==> r == ChainAnswer(repo.hash, config.genesisHashInput, old(repo.State()), t, startId, endId)
      // The same, in terms of the fields of the entries.
      ensures old(others.script) == [] ==> ChainVerdict(repo.hash, config.genesisHashInput, old(repo.State()), t, startId, endId, r)
      ensures old(Genuine(repo.hash, config.genesisHashInput, repo.State())) ==>
                var start, end := Boundary(old(repo.State()), t, startId), Boundary(old(repo.State()), t, endId);
                (start.Ok? && end.Ok? ==> OnlineAnswer(r, old(repo.State()), repo.State(), t, start.value, end.value))
    {
      hide WellFormed, Rows, Abs, Grown, Sorted, Genuine, OnlineVerdict, Verification, Boundary, ChainVerdict;
      var h, g := repo.hash, config.genesisHashInput;
      ghost var a := SceneOf(repo, others);
      ChainAnswerMeans(h, g, a.m, t, startId, endId);
      var start := FindBoundary(t, startId, others);
      ghost var b := SceneOf(repo, others);
      StaysReadable(h, Genesis(), a, b, t);
      BoundaryFound(h, g, a, b, t, startId);
      if start.Err? {
        return Err(start.error);
      }
      var end := FindBoundary(t, endId, others);
      ghost var c := SceneOf(repo, others);
      WatchedTransitive(h, Genesis(), a, b, c);
      StaysReadable(h, Genesis(), a, c, t);
      BoundaryFound(h, g, a, c, t, endId);
      if end.Err? {
        return Err(end.error);
      }
      var startPosition := start.value.GetOr(1);
      if end.value.Some? && startPosition > end.value.value {
        return Err(InvalidArgument);
      }
      if Genuine(h, g, a.m) {
        GenuineGrows(h, g, a, c, t);
      }
      var verdict := CheckRange(t, startPosition, end.value, others);
      ghost var d := SceneOf(repo, others);
      WatchedTransitive(h, Genesis(), a, c, d);
      if Genuine(h, g, a.m) && Boundary(a.m, t, startId).Ok? && Boundary(a.m, t, endId).Ok? {
        OnlineEarlier(h, g, a, c, d, t, startPosition - 1, end.value, verdict);
      }
      return Ok(verdict);
    }

    /** The first id of the recent window. */
    method FindWindowStart(t: Bytes, startPosition: int, others: OtherInstances) returns (startId: Option<Uuid>)
      requires others.genesisHash == Genesis() && Readable(repo.hash, SceneOf(repo, others), t)
      modifies repo, others
      ensures Watched(repo.hash, Genesis(), old(SceneOf(repo, others)), SceneOf(repo, others))
      ensures startId == WindowStartId(Rows(repo.State(), t), startPosition)
    {
      hide WellFormed, Rows, Abs, Grown;
      WatchedReflexive(repo.hash, Genesis(), SceneOf(repo, others));
      startId := None;
      if startPosition != 1 {
        others.Interfere(repo, None);
        var first := repo.GetEntriesByTypePaged(t, startPosition - 1, 1);
        if first != [] {
          startId := Some(first[0].entryId);
        }
      }
    }

    /** `verify_recent_chain`. */
    method VerifyRecentChain(t: Bytes, maxEntries: int, others: OtherInstances) returns (r: Result<Verdict, ServiceError>)
      requires others.genesisHash == Genesis() && Readable(repo.hash, SceneOf(repo, others), t)
      modifies repo, others
      ensures Watched(repo.hash, Genesis(), old(SceneOf(repo, others)), SceneOf(repo, others))
      ensures old(others.script) == [] ==> r == RecentAnswer(repo.hash, config.genesisHashInput, old(repo.State()), t, maxEntries)
      // The same, in terms of the fields of the entries, whatever was done to them.
      ensures old(others.script) == [] && old(Indexed(repo.State(), t) && (t in repo.chainTips ==> Rows(repo.State(), t) != [])) ==>
                RecentVerdict(repo.hash, config.genesisHashInput, old(Rows(repo.State(), t)), maxEntries, r)
      ensures maxEntries > 0 && old(Genuine(repo.hash, config.genesisHashInput, repo.State())) ==>
                RecentOnline(r, old(repo.State()), repo.State(), t, maxEntries)
    {
      hide WellFormed, Rows, Abs, Grown, Sorted, Genuine, OnlineAnswer, RecentOnline, ChainAnswer, Boundary, RecentVerdict, Indexed;
      var h, g := repo.hash, config.genesisHashInput;
      ghost var a := SceneOf(repo, others);
      WatchedReflexive(h, Genesis(), a);
      if Indexed(a.m, t) && (t in a.m.chainTips ==> Rows(a.m, t) != []) {
        RecentAnswerMeans(h, g, a.m, t, maxEntries);
      }
      if maxEntries <= 0 {
        return Err(InvalidArgument);
      }
      ReadableWell(h, a, t);
      others.Interfere(repo, None);
      ghost var b := SceneOf(repo, others);
      StaysReadable(h, Genesis(), a, b, t);
      var tip := repo.GetChainTip(t);
      ghost var genuine := Genuine(h, g, a.m);
      if genuine {
        GenuineGrows(h, g, a, b, t);
      }
      if tip.Err? {
        r := VerifyChain(t, None, None, others);
        WatchedTransitive(h, Genesis(), a, b, SceneOf(repo, others));
        if genuine {
          NoBoundary(b.m, t);
          NoTipYet(h, g, a, b, SceneOf(repo, others), t, maxEntries, r);
        }
        return;
      }
      r := VerifyWindow(t, tip.value, maxEntries, others);
      ghost var d := SceneOf(repo, others);
      WatchedTransitive(h, Genesis(), a, b, d);
      if genuine {
        EarlierRecent(h, g, a, b, d, t, maxEntries, r);
      }
    }

    /** The rest of `verify_recent_chain`, once it has a tip. */
    method VerifyWindow(t: Bytes, tip: ChainTip, maxEntries: int, others: OtherInstances) returns (r: Result<Verdict, ServiceError>)
      requires others.genesisHash == Genesis() && Readable(repo.hash, SceneOf(repo, others), t)
      requires maxEntries > 0 && t in repo.chainTips && repo.chainTips[t] == tip
      modifies repo, others
      ensures Watched(repo.hash, Genesis(), old(SceneOf(repo, others)), SceneOf(repo, others))
      ensures old(others.script) == [] ==> r == RecentAnswer(repo.hash, config.genesisHashInput, old(repo.State()), t, maxEntries)
      ensures old(Genuine(repo.hash, config.genesisHashInput, repo.State())) ==>
                RecentOnline(r, old(repo.State()), repo.State(), t, maxEntries)
    {
      hide WellFormed, Rows, Abs, Grown, Sorted, Genuine, OnlineAnswer, RecentOnline, ChainAnswer, Boundary, Page;
      var h, g := repo.hash, config.genesisHashInput;
      ghost var b := SceneOf(repo, others);
      var startPosition := if tip.position - maxEntries + 1 < 1 then 1 else tip.position - maxEntries + 1;
      var startId := FindWindowStart(t, startPosition, others);
      ghost var c := SceneOf(repo, others);
      StaysReadable(h, Genesis(), b, c, t);
      if Genuine(h, g, b.m) {
        TipIsPositive(h, g, b.m, t);
        WindowBoundaries(h, g, b, c, t, startPosition);
        GenuineGrows(h, g, b, c, t);
      }
      if startPosition > 1 && startId.None? {
        return Ok(Verdict(false, 0, None, WindowStartNotFound));
      }
      r := VerifyChain(t, startId, Some(tip.entryId), others);
      ghost var d := SceneOf(repo, others);
      WatchedTransitive(h, Genesis(), b, c, d);
      if Genuine(h, g, b.m) {
        WatchedReflexive(h, Genesis(), b);
        WindowAccepted(h, g, b, b, c, d, t, maxEntries, r);
      }
    }

    /** `verify_entry`. On a genuine store that others keep appending to, every entry has both flags true. */
    method VerifyEntry(id: Uuid, others: OtherInstances) returns (r: Result<EntryVerdict, ServiceError>)
      requires others.genesisHash == Genesis() && (others.script != [] ==> repo.Valid())
      modifies repo, others
      ensures Watched(repo.hash, Genesis(), old(SceneOf(repo, others)), SceneOf(repo, others))
      ensures old(others.script) == [] ==> r == EntryAnswer(repo.hash, config.genesisHashInput, old(repo.State()), id)
      // The same, in terms of the fields of the entry, whatever was done to it.
      ensures old(others.script) == [] ==> EntryMeans(repo.hash, config.genesisHashInput, old(repo.State()), id, r)
      ensures old(Genuine(repo.hash, config.genesisHashInput, repo.State())) && id in old(repo.entries) ==>
                r == Ok(EntryVerdict(id, true, true, NoFailure))
    {
      hide WellFormed, HashForVersion, Rows, Abs, Grown, Genuine, EntryMeans;
      var h, g := repo.hash, config.genesisHashInput;
      ghost var a := SceneOf(repo, others);
      EntryAnswersMean(h, g, a.m, id);
      others.Interfere(repo, None);
      ghost var b := SceneOf(repo, others);
      if Genuine(h, g, a.m) && id in a.m.entries {
        EntryOnline(h, g, a, b, id);
      }
      var found := repo.GetEntry(id);
      if found.Err? {
        return Err(NoSuchEntry);
      }
      var entry := found.value;
      var recomputed := Recomputed(h, entry);
      var hashValid := recomputed == Some(entry.entryHash);
      if recomputed.None? {
        return Ok(EntryVerdict(id, false, false, UnsupportedHashVersion));
      }
      var linkValid;
      if entry.chainPosition == 1 {
        linkValid := entry.previousHash == Genesis();
      } else {
        others.Interfere(repo, None);
        WatchedTransitive(h, Genesis(), a, b, SceneOf(repo, others));
        if Genuine(h, g, a.m) && id in a.m.entries {
          EntryOnline(h, g, a, SceneOf(repo, others), id);
        }
        var predecessors := repo.GetEntriesByTypePaged(entry.req.entryType, entry.chainPosition - 2, 1);
        linkValid := predecessors != [] && predecessors[0].entryHash == entry.previousHash;
      }
      return Ok(EntryVerdict(id, hashValid, linkValid,
                             if hashValid && linkValid then NoFailure
                             else if !hashValid then EntryHashMismatch
                             else ChainLinkMismatch));
    }

    /** `after` has exactly the entry of `write` on top of `before`, and `out` names it. */
    ghost predicate Appends(before: Ledger, write: WriteInput, ids: Fresh, out: WriteOutput, after: Ledger) {
      && after == Appended(repo.hash, before, write, ids)
      && out == OutputOf(NewEntry(repo.hash, |Chain(before, write.req.entryType)| + 1, write, ids.entryId))
    }

    /** The same for a request, on the tip `before` has. */
    ghost predicate Written(before: Ledger, input: Request, utc: int, ids: Fresh, out: WriteOutput, after: Ledger) {
      var c := Chain(before, input.entryType);
      Appends(before, WriteInput(input, TipHash(repo.hash, config.genesisHashInput, c), utc, config.publisherEnabled), ids, out, after)
    }

    /** The answer for a key that is already held. */
    method Replay(existing: Entry, input: Request) returns (r: Result<WriteOutput, ServiceError>)
      ensures r == if Matches(existing, input) then Ok(OutputOf(existing)) else Err(AlreadyExists)
    {
      if !Matches(existing, input) {
        return Err(AlreadyExists);
      }
      return Ok(OutputOf(existing));
    }

    /** The lookup of the key, before the first attempt and after a conflict: an answer exactly if the key is held. */
    method LookupKey(input: Request, ids: Fresh, others: OtherInstances) returns (answer: Option<Result<WriteOutput, ServiceError>>)
      requires others.genesisHash == Genesis() && repo.Valid() && Free(repo, ids)
      modifies repo, others
      ensures repo.Valid() && Free(repo, ids) && Grown(Genesis(), old(repo.Contents()), repo.Contents())
      ensures old(others.script) == [] ==> others.script == [] && repo.State() == old(repo.State())
      ensures answer.Some? <==> KeyTaken(Chain(repo.Contents(), input.entryType), input.idempotencyKey)
      ensures answer.Some? && answer.value.Ok? ==> Answers(Chain(repo.Contents(), input.entryType), input, answer.value.value)
      ensures answer.Some? && answer.value.Err? ==>
                answer.value.error == AlreadyExists && Clashes(Chain(repo.Contents(), input.entryType), input)
      ensures answer.Some? && answer.value.Ok? ==> exists e | e in Chain(repo.Contents(), input.entryType) ::
                && e.req == input && answer.value.value.entryId == e.entryId && answer.value.value.entryHash == e.entryHash
                && answer.value.value.hashVersion == e.hashVersion && answer.value.value.chainPosition == e.chainPosition
                && answer.value.value.writtenTsMs == e.writtenTsMs
      ensures input.idempotencyKey.Some? && answer.Some? ==>
                forall e | e in Chain(repo.Contents(), input.entryType) && e.req.idempotencyKey == input.idempotencyKey ::
                  answer.value == Err(AlreadyExists) <==> e.req != input
    {
      hide WellFormed, Abs, Grown, Answers, Clashes, Matches;
      others.Interfere(repo, Some(ids));
      if input.idempotencyKey.None? {
        return None;
      }
      var existing := repo.FindIdempotent(input.entryType, input.idempotencyKey.value);
      if existing.None? {
        return None;
      }
      var r := Replay(existing.value, input);
      ReplayMeans(Chain(repo.Contents(), input.entryType), existing.value, input);
      SpelledOut(repo.hash, repo.State(), input, r);
      return Some(r);
    }

    /** The retry loop of `write_entry_impl`. */
    method AppendWithRetries(input: Request, ids: Fresh, clock: Clock, others: OtherInstances)
      returns (r: Result<WriteOutput, ServiceError>)
      requires others.genesisHash == Genesis()
      requires repo.Valid() && Genesis() != []
      requires Free(repo, ids)
      modifies this`chainHalted, repo, others
      ensures repo.Valid() && Grown(Genesis(), old(repo.Contents()), repo.Contents())
      ensures r.Ok? ==> Answers(Chain(repo.Contents(), input.entryType), input, r.value)
      ensures r == Err(AlreadyExists) ==> Clashes(Chain(repo.Contents(), input.entryType), input)
      ensures r.Err? ==> r.error in {AlreadyExists, Internal}
      ensures r == Err(Internal) ==>
                |Chain(repo.Contents(), input.entryType)| - |Chain(old(repo.Contents()), input.entryType)| >= config.chainMaxRetries
      ensures chainHalted == if r == Err(Internal) && config.chainMaxRetries > 0
                             then old(chainHalted)[input.entryType := clock.haltAt] else old(chainHalted)
      ensures old(others.script) == [] ==>
                if KeyTaken(Chain(old(repo.Contents()), input.entryType), input.idempotencyKey) || config.chainMaxRetries == 0
                then repo.State() == old(repo.State())
                else r.Ok? && Written(old(repo.Contents()), input, clock.utc(0), ids, r.value, repo.Contents())
      ensures r.Ok? ==> exists e | e in Chain(repo.Contents(), input.entryType) ::
                && e.req == input && r.value.entryId == e.entryId && r.value.entryHash == e.entryHash
                && r.value.hashVersion == e.hashVersion && r.value.chainPosition == e.chainPosition
                && r.value.writtenTsMs == e.writtenTsMs
      ensures input.idempotencyKey.Some? && (r.Ok? || r == Err(AlreadyExists)) ==>
                forall e | e in Chain(repo.Contents(), input.entryType) && e.req.idempotencyKey == input.idempotencyKey ::
                  r == Err(AlreadyExists) <==> e.req != input
    {
      hide WellFormed, Abs, Grown, Answers, Clashes;
      var t := input.entryType;
      ghost var start := repo.Contents();
      GrownReflexive(Genesis(), start);
      for attempt := 0 to config.chainMaxRetries
        invariant repo.Valid() && Free(repo, ids) && Grown(Genesis(), start, repo.Contents())
        invariant attempt == 0 || attempt < config.chainMaxRetries
        invariant |Chain(repo.Contents(), t)| - |Chain(start, t)| >= attempt
        invariant old(others.script) == [] ==> attempt == 0 && others.script == [] && repo.State() == old(repo.State())
        invariant chainHalted == old(chainHalted)
      {
        ghost var before := repo.Contents();
        var w := Attempt(input, ids, clock.utc(attempt), others);
        GrownTransitive(Genesis(), start, before, repo.Contents());
        if w.Ok? {
          r := Ok(OutputOf(w.value.entry));
          SpelledOut(repo.hash, repo.State(), input, r);
          return;
        }
        if w.error == ChainIntegrityViolation {
          if attempt + 1 == config.chainMaxRetries {
            chainHalted := chainHalted[t := clock.haltAt];
            return Err(Internal);
          }
          ghost var failed := repo.Contents();
          others.Interfere(repo, Some(ids));
          GrownTransitive(Genesis(), start, failed, repo.Contents());
          GrownChain(Genesis(), failed, repo.Contents(), t);
        } else {
          ghost var refused := repo.Contents();
          var answer := LookupKey(input, ids, others);
          GrownTransitive(Genesis(), start, refused, repo.Contents());
          GrownChain(Genesis(), refused, repo.Contents(), t);
          KeyTakenSurvives(Chain(refused, t), Chain(repo.Contents(), t), input.idempotencyKey);
          return answer.value;
        }
      }
      return Err(Internal);
    }

    /** One attempt: read the tip, let the others run, compare and append. */
    method Attempt(input: Request, ids: Fresh, utc: int, others: OtherInstances) returns (w: Result<WriteResult, RepositoryError>)
      requires others.genesisHash == Genesis()
      requires repo.Valid() && Free(repo, ids) && Genesis() != []
      modifies repo, others
      ensures repo.Valid() && Grown(Genesis(), old(repo.Contents()), repo.Contents())
      ensures w.Ok? ==> Answers(Chain(repo.Contents(), input.entryType), input, OutputOf(w.value.entry))
      ensures w.Err? ==> Free(repo, ids)
      ensures old(others.script) == [] ==> others.script == []
      ensures w.Err? ==> w.error == ChainIntegrityViolation
                         || (w.error == IdempotencyConflict && KeyTaken(Chain(repo.Contents(), input.entryType), input.idempotencyKey))
      ensures old(others.script) == [] ==>
                var c := Chain(old(repo.Contents()), input.entryType);
                if KeyTaken(c, input.idempotencyKey) then w.Err? && w.error == IdempotencyConflict && repo.State() == old(repo.State())
                else w.Ok? && Written(old(repo.Contents()), input, utc, ids, OutputOf(w.value.entry), repo.Contents())
      ensures w == Err(ChainIntegrityViolation) ==>
                |Chain(repo.Contents(), input.entryType)| > |Chain(old(repo.Contents()), input.entryType)|
    {
      hide WellFormed, Abs, Grown, Answers, Appends, KeyTaken, TipMatches;
      var t := input.entryType;
      var previousHash := ReadTip(t);
      ghost var seen := repo.Contents();
      others.Interfere(repo, Some(ids));
      ghost var now := repo.Contents();
      GrownChain(Genesis(), seen, now, t);
      w := CompareAndAppend(WriteInput(input, previousHash, utc, config.publisherEnabled), ids);
      GrownTransitive(Genesis(), seen, now, repo.Contents());
      if w == Err(ChainIntegrityViolation) {
        GrownChain(Genesis(), seen, now, t);
        StaleTipMeansGrowth(repo.hash, config.genesisHashInput, Chain(seen, t), Chain(now, t));
      }
      FreshTipMatches(repo.hash, config.genesisHashInput, Chain(seen, t));
    }

    /** The repository call of one attempt. */
    method CompareAndAppend(write: WriteInput, ids: Fresh) returns (w: Result<WriteResult, RepositoryError>)
      requires repo.Valid() && Free(repo, ids)
      requires Chain(repo.Contents(), write.req.entryType) == [] ==> write.previousHash == Genesis()
      modifies repo
      ensures repo.Valid() && Grown(Genesis(), old(repo.Contents()), repo.Contents())
      ensures w.Ok? ==> Answers(Chain(repo.Contents(), write.req.entryType), write.req, OutputOf(w.value.entry))
      ensures w.Ok? ==> Appends(old(repo.Contents()), write, ids, OutputOf(w.value.entry), repo.Contents())
      ensures w.Err? ==> Free(repo, ids) && repo.State() == old(repo.State())
      ensures var c := Chain(old(repo.Contents()), write.req.entryType);
              if KeyTaken(c, write.req.idempotencyKey) then w == Err(IdempotencyConflict)
              else if TipMatches(c, write.previousHash) then w.Ok?
              else w == Err(ChainIntegrityViolation)
    {
      hide WellFormed, Abs, Grown, Appended, Answers, TipMatches, KeyTaken;
      ghost var before := repo.Contents();
      w := repo.WriteEntryWithOutbox(write, ids);
      AppendedIsGrown(repo.hash, Genesis(), before, write, ids);
      GrownReflexive(Genesis(), before);
      if w.Ok? {
        AppendAnswers(repo.hash, before, write, ids);
      }
    }

    /** The tip read of one attempt; an empty chain links to genesis. */
    method ReadTip(t: Bytes) returns (previousHash: Bytes)
      requires repo.Valid()
      ensures previousHash == TipHash(repo.hash, config.genesisHashInput, Chain(repo.Contents(), t))
    {
      hide LedgerOk, ListsOk, EntriesOk, IndexOk;
      TipGuard(repo.hash, repo.State(), t);
      var tip := repo.GetChainTip(t);
      if tip.Err? {
        return Genesis();
      }
      return tip.value.hash;
    }

    /** The request and halt checks of `write_entry_impl`; a halt that has run out is cleared. */
    method Admit(input: Request, clock: Clock) returns (refusal: Option<ServiceError>)
      modifies this`chainHalted
      ensures refusal == if Rejected(config.maxContentSize, input) then Some(InvalidArgument)
                         else if Halted(old(chainHalted), config, clock, input.entryType) then Some(ServiceUnavailable)
                         else None
      ensures refusal == Some(InvalidArgument) <==>
                || input.entryType == [] || input.agentId == [] || input.contentType == [] || input.sourceId == []
                || |input.content| > config.maxContentSize
      ensures chainHalted == if refusal.Some? then old(chainHalted) else old(chainHalted) - {input.entryType}
    {
      var t := input.entryType;
      if input.entryType == [] || input.agentId == [] || input.contentType == [] || input.sourceId == [] {
        return Some(InvalidArgument);
      }
      if |input.content| > config.maxContentSize {
        return Some(InvalidArgument);
      }
      if t in chainHalted {
        if clock.checkAt - chainHalted[t] < config.haltRecovery {
          return Some(ServiceUnavailable);
        }
        chainHalted := chainHalted - {t};
      }
      return None;
    }

    /** `write_entry_impl`. `others` runs the writes of other service instances at every await point; `ids` are the
        ids this call draws, which nobody else draws. */
    method WriteEntryImpl(input: Request, ids: Fresh, clock: Clock, others: OtherInstances) returns (r: Result<WriteOutput, ServiceError>)
      requires others.genesisHash == Genesis()
      requires repo.Valid() && Genesis() != []
      requires Free(repo, ids)
      modifies this, repo, others
      ensures repo.Valid() && Grown(Genesis(), old(repo.Contents()), repo.Contents())
      // Ok names an entry that carries this request's key and content.
      ensures r.Ok? ==> Answers(Chain(repo.Contents(), input.entryType), input, r.value)
      // AlreadyExists means the key is held with other content.
      ensures r == Err(AlreadyExists) ==> Clashes(Chain(repo.Contents(), input.entryType), input)
      ensures r == Err(InvalidArgument) <==> Rejected(config.maxContentSize, input)
      ensures r == Err(ServiceUnavailable) <==>
                !Rejected(config.maxContentSize, input) && Halted(old(chainHalted), config, clock, input.entryType)
      ensures r != Err(NoSuchEntry)
      // Integrity failure means others appended at least chainMaxRetries entries to the chain meanwhile.
      ensures r == Err(Internal) ==>
                |Chain(repo.Contents(), input.entryType)| - |Chain(old(repo.Contents()), input.entryType)| >= config.chainMaxRetries
      ensures chainHalted == if r == Err(Internal) && config.chainMaxRetries > 0
                             then old(chainHalted)[input.entryType := clock.haltAt]
                             else if r.Err? && r.error in {InvalidArgument, ServiceUnavailable} then old(chainHalted)
                             else old(chainHalted) - {input.entryType}
      // With nobody else writing, an accepted request under a free key appends exactly its entry; anything else
      // leaves the repository as it was.
      ensures old(others.script) == [] ==>
                if Rejected(config.maxContentSize, input) || Halted(old(chainHalted), config, clock, input.entryType)
                   || KeyTaken(Chain(old(repo.Contents()), input.entryType), input.idempotencyKey) || config.chainMaxRetries == 0
                then repo.State() == old(repo.State())
                else r.Ok? && Written(old(repo.Contents()), input, clock.utc(0), ids, r.value, repo.Contents())
    {
      hide WellFormed, Abs, Grown, Answers, Clashes, KeyTaken, Matches, Rejected, Written, Appends, LedgerOk, Free;
      var t := input.entryType;
      ghost var start := repo.Contents();
      GrownReflexive(Genesis(), start);
      var refusal := Admit(input, clock);
      if refusal.Some? {
        return Err(refusal.value);
      }
      var answer := LookupKey(input, ids, others);
      if answer.Some? {
        return answer.value;
      }
      ghost var looked := repo.Contents();
      r := AppendWithRetries(input, ids, clock, others);
      GrownTransitive(Genesis(), start, looked, repo.Contents());
      GrownChain(Genesis(), start, looked, t);
    }

    /** `write_entry`, and what its answers mean, spelled out in the fields of the request, the entries and the clock. */
    method WriteEntry(input: Request, ids: Fresh, clock: Clock, others: OtherInstances) returns (r: Result<WriteOutput, ServiceError>)
      requires others.genesisHash == Genesis()
      requires repo.Valid() && Genesis() != []
      requires Free(repo, ids)
      modifies this, repo, others
      ensures repo.Valid() && Grown(Genesis(), old(repo.Contents()), repo.Contents())
      // Ok names an entry of the chain that was submitted with this very request.
      ensures r.Ok? ==> exists e | e in Chain(repo.Contents(), input.entryType) ::
                && e.req == input && r.value.entryId == e.entryId && r.value.entryHash == e.entryHash
                && r.value.hashVersion == e.hashVersion && r.value.chainPosition == e.chainPosition
                && r.value.writtenTsMs == e.writtenTsMs
      // Under its key, Ok and AlreadyExists tell apart the entries that were and were not submitted with it.
      ensures input.idempotencyKey.Some? && (r.Ok? || r == Err(AlreadyExists)) ==>
                forall e | e in Chain(repo.Contents(), input.entryType) && e.req.idempotencyKey == input.idempotencyKey ::
                  r == Err(AlreadyExists) <==> e.req != input
      ensures r == Err(AlreadyExists) ==>
                && input.idempotencyKey.Some?
                && exists e | e in Chain(repo.Contents(), input.entryType) :: e.req.idempotencyKey == input.idempotencyKey
      ensures r == Err(InvalidArgument) <==>
                || input.entryType == [] || input.agentId == [] || input.contentType == [] || input.sourceId == []
                || |input.content| > config.maxContentSize
      ensures r == Err(ServiceUnavailable) <==>
                && input.entryType != [] && input.agentId != [] && input.contentType != [] && input.sourceId != []
                && |input.content| <= config.maxContentSize
                && input.entryType in old(chainHalted) && clock.checkAt - old(chainHalted)[input.entryType] < config.haltRecovery
      ensures r != Err(NoSuchEntry)
      // Integrity failure means others appended at least chainMaxRetries entries to the chain meanwhile.
      ensures r == Err(Internal) ==>
                |Chain(repo.Contents(), input.entryType)| - |Chain(old(repo.Contents()), input.entryType)| >= config.chainMaxRetries
      ensures chainHalted == if r == Err(Internal) && config.chainMaxRetries > 0
                             then old(chainHalted)[input.entryType := clock.haltAt]
                             else if r.Err? && r.error in {InvalidArgument, ServiceUnavailable} then old(chainHalted)
                             else old(chainHalted) - {input.entryType}
      // With nobody else writing, an admitted request under a free key appends its entry and its record, and nothing
      // else; anything else leaves the repository as it was.
      ensures old(others.script) == [] ==>
                if (r.Err? && r.error in {InvalidArgument, ServiceUnavailable}) || config.chainMaxRetries == 0
                   || KeyTaken(Chain(old(repo.Contents()), input.entryType), input.idempotencyKey)
                then repo.State() == old(repo.State())
                else r.Ok? && WrittenAlone(old(repo.Contents()), input, clock.utc(0), ids, repo.Contents())
    {
      hide WellFormed, Abs, Grown, Answers, Clashes, KeyTaken, Written, Free, WrittenAlone;
      ghost var before := repo.Contents();
      r := WriteEntryImpl(input, ids, clock, others);
      SpelledOut(repo.hash, repo.State(), input, r);
      if r.Ok? && Written(before, input, clock.utc(0), ids, r.value, repo.Contents()) {
        WrittenMeans(before, input, clock.utc(0), ids, r.value, repo.Contents());
      }
    }

    /** One entry with this request at the end of its chain, linked to the tip or to genesis, written at `utc`, hashed in
        the current version; one untried pending record if events are published; nothing else. */
    ghost predicate WrittenAlone(before: Ledger, input: Request, utc: int, ids: Fresh, after: Ledger) {
      var c, d := Chain(before, input.entryType), Chain(after, input.entryType);
      && |d| == |c| + 1 && d[..|c|] == c
      && var e := d[|c|];
      && e.entryId == ids.entryId && e.req == input && e.chainPosition == |c| + 1 && e.writtenTsMs == utc
      && e.previousHash == (if c == [] then repo.hash(config.genesisHashInput) else c[|c| - 1].entryHash)
      && e.hashVersion == Ascii("ARE_LEDGER_ENTRY_HASH_V3")
      && e.entryHash == repo.hash(PreimageV3(HashInput(ids.entryId, input, |c| + 1, utc, e.previousHash)))
      && (forall u | u != input.entryType :: Chain(after, u) == Chain(before, u))
      && after.outbox == (if config.publisherEnabled
                          then before.outbox[ids.outboxId := OutboxRecord(ids.outboxId, ids.entryId, input.entryType, Pending, 0)]
                          else before.outbox)
    }

    lemma WrittenMeans(before: Ledger, input: Request, utc: int, ids: Fresh, out: WriteOutput, after: Ledger)
      requires Written(before, input, utc, ids, out, after)
      ensures WrittenAlone(before, input, utc, ids, after)
    {
      hide PreimageV3, Appended;
      var c := Chain(before, input.entryType);
      AppendedMeans(repo.hash, before, WriteInput(input, TipHash(repo.hash, config.genesisHashInput, c), utc, config.publisherEnabled), ids);
    }

    /** `issue_receipt`: the write's answer with the proof fields of the request. */
    method IssueReceipt(input: Request, ids: Fresh, clock: Clock, others: OtherInstances) returns (r: Result<Receipt, ServiceError>)
      requires others.genesisHash == Genesis()
      requires repo.Valid() && Genesis() != []
      requires Free(repo, ids)
      modifies this, repo, others
      ensures repo.Valid() && Grown(Genesis(), old(repo.Contents()), repo.Contents())
      // The receipt names an entry of the chain that was submitted with this very request, and echoes the request.
      ensures r.Ok? ==> exists e | e in Chain(repo.Contents(), input.entryType) ::
                && e.req == input && r.value.entryId == e.entryId && r.value.entryHash == e.entryHash
                && r.value.hashVersion == e.hashVersion && r.value.chainPosition == e.chainPosition
                && r.value.writtenTsMs == e.writtenTsMs
      ensures r.Ok? ==>
                && r.value.entryType == input.entryType
                && r.value.inputHash == (if input.inputHash.Some? then input.inputHash.value else [])
                && r.value.writerSignature == (if input.writerSignature.Some? then input.writerSignature.value else [])
                && r.value.signerKeyReference == (if input.signerKeyReference.Some? then input.signerKeyReference.value else [])
                && r.value.attestationReport == (if input.attestationReport.Some? then input.attestationReport.value else [])
      // An answer or a refusal for a key that is held, as for the write.
      ensures input.idempotencyKey.Some? && (r.Ok? || r == Err(AlreadyExists)) ==>
                forall e | e in Chain(repo.Contents(), input.entryType) && e.req.idempotencyKey == input.idempotencyKey ::
                  r == Err(AlreadyExists) <==> e.req != input
      ensures r == Err(AlreadyExists) ==>
                && input.idempotencyKey.Some?
                && exists e | e in Chain(repo.Contents(), input.entryType) :: e.req.idempotencyKey == input.idempotencyKey
      ensures r == Err(InvalidArgument) <==>
                || input.entryType == [] || input.agentId == [] || input.contentType == [] || input.sourceId == []
                || |input.content| > config.maxContentSize
      ensures r != Err(NoSuchEntry)
    {
      hide WellFormed, Grown, Abs, WrittenAlone, KeyTaken, Free;
      var w := WriteEntry(input, ids, clock, others);
      if w.Err? {
        return Err(w.error);
      }
      return Ok(ReceiptOf(input, w.value));
    }

    /** `verify_proof`: the proof of some stored entry of the type with the hash, whatever was done to the store. */
    method VerifyProof(t: Bytes, entryHash: Bytes) returns (r: Result<Proof, ServiceError>)
      ensures r.Ok? <==> exists e | e in repo.entries.Values :: e.req.entryType == t && e.entryHash == entryHash
      ensures r.Err? ==> r.error == NoSuchEntry
      ensures r.Ok? ==> exists e | e in repo.entries.Values ::
                && e.req.entryType == t && e.entryHash == entryHash
                && r.value == ProofOf(repo.hash, e) && Attests(repo.hash, e, r.value)
      // On a store the service built these are the entries of the chain.
      ensures repo.Valid() ==> forall e :: e in Chain(repo.Contents(), t) <==> e in repo.entries.Values && e.req.entryType == t
    {
      hide WellFormed, Abs, Recomputed, Attests;
      var found := repo.GetEntryByHash(t, entryHash);
      if found.Err? {
        return Err(NoSuchEntry);
      }
      var e := found.value;
      ProofMeans(repo.hash, e);
      return Ok(ProofOf(repo.hash, e));
    }
  }
}
