/**
 The other instances of the service that share the repository, and what a call that reads it can rely on while they
 write (src/service/mod.rs).
 */
module Interference {
  import opened Options
  import opened ByteText
  import opened Envelope
  import opened Ledger
  import opened Repository
  import opened Verifier
  import opened Checks
  import opened Receipts

  type Script = seq<seq<(WriteInput, Fresh)>>

  /** The other service instances that share the repository and the configured genesis input: at each await point of a
      call they run the next batch of their script. That may hold any writes at all, but for one thing: what they
      write on an empty chain links to the genesis hash. */
  class OtherInstances {
    const genesisHash: Bytes
    var script: Script

    constructor (genesisHash: Bytes, script: Script)
      ensures this.genesisHash == genesisHash && this.script == script
    {
      this.genesisHash := genesisHash;
      this.script := script;
    }

    /** One await point; `reserved` are the ids the waiting call is going to draw. */
    method Interfere(repo: InMemoryLedgerRepository, reserved: Option<Fresh>)
      requires script != [] ==> repo.Valid() && Reserved(repo, reserved)
      modifies this, repo
      ensures Watched(repo.hash, genesisHash, old(SceneOf(repo, this)), SceneOf(repo, this))
      ensures old(Reserved(repo, reserved)) ==> Reserved(repo, reserved)
      ensures script == [] || |script| < |old(script)|
    {
      hide WellFormed, Abs, Grown;
      GrownReflexive(genesisHash, repo.Contents());
      if script == [] {
        return;
      }
      var batch := script[0];
      script := script[1..];
      for i := 0 to |batch|
        invariant repo.Valid() && Reserved(repo, reserved) && script == old(script)[1..]
        invariant Grown(genesisHash, old(repo.Contents()), repo.Contents())
      {
        ghost var before := repo.Contents();
        RunOne(repo, batch[i].0, batch[i].1, reserved);
        GrownTransitive(genesisHash, old(repo.Contents()), before, repo.Contents());
      }
    }

    method RunOne(repo: InMemoryLedgerRepository, input: WriteInput, ids: Fresh, reserved: Option<Fresh>)
      requires repo.Valid() && Reserved(repo, reserved)
      modifies repo
      ensures repo.Valid() && Reserved(repo, reserved) && Grown(genesisHash, old(repo.Contents()), repo.Contents())
    {
      hide WellFormed, Abs, Grown, Appended;
      ghost var before := repo.Contents();
      GrownReflexive(genesisHash, before);
      ChainIsBegun(repo.hash, repo.State(), input.req.entryType);
      if ids.entryId !in repo.entries && ids.outboxId !in repo.outbox
         && (reserved.None? || (ids.entryId != reserved.value.entryId && ids.outboxId != reserved.value.outboxId))
         && (input.req.entryType in repo.chainTips || input.previousHash == genesisHash) {
        AppendedIsGrown(repo.hash, genesisHash, before, input, ids);
        var w := repo.WriteEntryWithOutbox(input, ids);
      }
    }
  }

  lemma ChainIsBegun(h: Hasher, m: Inner, t: Bytes)
    requires WellFormed(h, m)
    ensures t in m.chainTips <==> Chain(Abs(m), t) != []
  {
    TipGuard(h, m, t);
  }

  /** Nobody has used the ids a call is going to draw. */
  ghost predicate Free(repo: InMemoryLedgerRepository, ids: Fresh)
    reads repo
  {
    ids.entryId !in repo.entries && ids.outboxId !in repo.outbox
  }

  ghost predicate Reserved(repo: InMemoryLedgerRepository, reserved: Option<Fresh>)
    reads repo
  {
    reserved.Some? ==> Free(repo, reserved.value)
  }

  /** What a call and the other instances see of each other: the store, and what is still going to happen to it. */
  datatype Scene = Scene(m: Inner, script: Script)

  ghost function SceneOf(repo: InMemoryLedgerRepository, others: OtherInstances): Scene
    reads repo, others
  {
    Scene(repo.State(), others.script)
  }

  /** From `a` to `b` a call has only read, and the other instances have only written. */
  ghost predicate Watched(h: Hasher, genesis: Bytes, a: Scene, b: Scene) {
    && (a.script == [] ==> b == a)
    && |b.script| <= |a.script|
    && (WellFormed(h, a.m) ==> WellFormed(h, b.m) && Grown(genesis, Abs(a.m), Abs(b.m)))
  }

  lemma WatchedReflexive(h: Hasher, genesis: Bytes, a: Scene)
    ensures Watched(h, genesis, a, a)
  {
    hide WellFormed, Abs;
    GrownReflexive(genesis, Abs(a.m));
  }

  lemma WatchedTransitive(h: Hasher, genesis: Bytes, a: Scene, b: Scene, c: Scene)
    requires Watched(h, genesis, a, b) && Watched(h, genesis, b, c)
    ensures Watched(h, genesis, a, c)
  {
    hide WellFormed, Abs, Grown;
    if WellFormed(h, a.m) {
      GrownTransitive(genesis, Abs(a.m), Abs(b.m), Abs(c.m));
    }
  }

  /** A store that others write to is well-formed; one that lies still may have been tampered with, but its rows come
      in position order. */
  ghost predicate Readable(h: Hasher, s: Scene, t: Bytes) {
    Sorted(Rows(s.m, t)) && (s.script != [] ==> WellFormed(h, s.m))
  }

  lemma ReadableWell(h: Hasher, s: Scene, t: Bytes)
    requires Readable(h, s, t)
    ensures s.script != [] ==> WellFormed(h, s.m)
  {
    hide WellFormed, Sorted, Rows;
  }

  lemma StaysReadable(h: Hasher, genesis: Bytes, a: Scene, b: Scene, t: Bytes)
    requires Readable(h, a, t) && Watched(h, genesis, a, b)
    ensures Readable(h, b, t) && Sorted(Rows(b.m, t))
  {
    hide WellFormed, Rows, Sorted, Grown;
    if a.script != [] {
      WellFormedIsSorted(h, b.m, t);
    }
  }

  lemma StaysGenuine(h: Hasher, g: Bytes, a: Scene, b: Scene)
    requires Genuine(h, g, a.m) && Watched(h, h(g), a, b)
    ensures Genuine(h, g, b.m) && Extends(Abs(a.m), Abs(b.m))
  {
    hide WellFormed, Abs, Extends, StartsAtGenesis;
  }

  lemma GrownChain(genesis: Bytes, before: Ledger, after: Ledger, t: Bytes)
    requires Grown(genesis, before, after)
    ensures Chain(before, t) <= Chain(after, t)
  {
  }

  /** Accepted with a count between the two bounds. */
  ghost predicate AcceptedBetween(v: Verdict, low: int, high: int) {
    low <= v.entriesChecked <= high && v == Verdict(true, v.entriesChecked, None, NoFailure)
  }

  /** A check of what comes after `p` entries accepts, while a genuine store grows from `m` to `n`: with an end the
      count is exact, without one it lies between what the two chains hold. */
  ghost predicate OnlineVerdict(v: Verdict, m: Inner, n: Inner, t: Bytes, p: int, end: Option<int>) {
    if end.Some? then AcceptedBetween(v, end.value - p, end.value - p)
    else AcceptedBetween(v, |Chain(Abs(m), t)| - p, |Chain(Abs(n), t)| - p)
  }

  /** What `verify_chain` answers, for the boundaries it has looked up, while a genuine store grows from `m` to `n`. */
  ghost predicate OnlineAnswer(r: Result<Verdict, ServiceError>, m: Inner, n: Inner, t: Bytes, start: Option<int>, end: Option<int>) {
    if end.Some? && start.GetOr(1) > end.value then r == Err(InvalidArgument)
    else r.Ok? && OnlineVerdict(r.value, m, n, t, start.GetOr(1) - 1, end)
  }

  /** The recent window of a chain with `n` entries. */
  ghost predicate WindowOf(v: Verdict, n: int, maxEntries: int) {
    v == Verdict(true, if n < maxEntries then n else maxEntries, None, NoFailure)
  }

  lemma NothingLeft(h: Hasher, prev: Bytes, end: Option<int>, checked: int)
    ensures Scan(h, prev, [], end, checked) == Verdict(true, checked, None, NoFailure)
  {
  }

  lemma BatchDecides(h: Hasher, rows: seq<Entry>, end: Option<int>, prev: Bytes, p: int, checked: int,
                     done: Option<Verdict>, prev': Bytes, p': int, checked': int)
    requires BatchResult(h, rows, end, prev, p, checked, done, prev', p', checked')
    ensures done.Some? ==> done.value == Scan(h, prev, After(rows, p), end, checked)
    ensures done.None? ==> Scan(h, prev, After(rows, p), end, checked) == Scan(h, prev', After(rows, p'), end, checked')
    ensures done.None? ==> |After(rows, p')| < |After(rows, p)|
  {
    hide Scan, Page, Beyond;
  }

  /** One round on a genuine store, with appends of others before the batch is read. */
  lemma BatchOnline(h: Hasher, g: Bytes, a: Scene, b: Scene, t: Bytes, end: Option<int>, prev: Bytes, p: int, checked: int,
                    done: Option<Verdict>, prev': Bytes, p': int, checked': int)
    requires Genuine(h, g, a.m) && OnChain(h, g, Rows(a.m, t), p, prev, end) && Watched(h, h(g), a, b)
    requires BatchResult(h, Rows(b.m, t), end, prev, p, checked, done, prev', p', checked')
    ensures Genuine(h, g, b.m) && Rows(a.m, t) <= Rows(b.m, t)
    ensures done.Some? ==>
              done.value == Verdict(true, checked + (if end.Some? then end.value else |Rows(b.m, t)|) - p, None, NoFailure)
    ensures done.None? ==> OnChain(h, g, Rows(b.m, t), p', prev', end) && checked' - checked == p' - p
  {
    hide WellFormed, Rows, Abs, Grown, Scan, Genuine, BatchResult, OnChain, Watched, Extends;
    GenuineGrows(h, g, a, b, t);
    OnChainStays(h, g, Rows(a.m, t), Rows(b.m, t), p, prev, end);
    BatchOnChain(h, g, b.m, t, end, prev, p, checked, done, prev', p', checked');
  }

  lemma GenuineGrows(h: Hasher, g: Bytes, a: Scene, b: Scene, t: Bytes)
    requires Genuine(h, g, a.m) && Watched(h, h(g), a, b)
    ensures Genuine(h, g, b.m) && Extends(Abs(a.m), Abs(b.m)) && Rows(a.m, t) <= Rows(b.m, t)
    ensures Rows(a.m, t) == Chain(Abs(a.m), t) && Rows(b.m, t) == Chain(Abs(b.m), t)
  {
    hide WellFormed, Abs, Rows, StartsAtGenesis;
    RowsAreChain(a.m, t);
    RowsAreChain(b.m, t);
  }

  lemma LoopOnline(h: Hasher, g: Bytes, a: Scene, b: Scene, t: Bytes, p: int, end: Option<int>, v: Verdict)
    requires Genuine(h, g, a.m) && Watched(h, h(g), a, b)
    requires v == Verdict(true, (if end.Some? then end.value else |Rows(b.m, t)|) - p, None, NoFailure)
    ensures OnlineVerdict(v, a.m, b.m, t, p, end)
  {
    hide WellFormed, Abs, Rows, Genuine, Watched, Extends;
    GenuineGrows(h, g, a, b, t);
  }

  lemma VerificationIsScan(h: Hasher, g: Bytes, rows: seq<Entry>, start: int, end: Option<int>)
    ensures Verification(h, g, rows, start, end)
         == match PredecessorHash(h, g, rows, start)
            case None => Verdict(false, 0, None, PredecessorNotFound)
            case Some(prev) => Scan(h, prev, After(rows, start - 1), end, 0)
  {
    hide Scan, After;
  }

  /** The check of a range that lies on a genuine chain. */
  lemma RangeOnline(h: Hasher, g: Bytes, a: Scene, b: Scene, t: Bytes, start: int, end: Option<int>, prev: Option<Bytes>)
    requires Genuine(h, g, a.m) && Watched(h, h(g), a, b) && 1 <= start <= |Chain(Abs(a.m), t)| + 1
    requires end.Some? ==> start <= end.value <= |Chain(Abs(a.m), t)|
    requires prev == PredecessorHash(h, g, Rows(b.m, t), start)
    ensures Genuine(h, g, b.m) && prev.Some? && OnChain(h, g, Rows(b.m, t), start - 1, prev.value, end)
  {
    hide WellFormed, Rows, Abs, Genuine, Watched, Extends, PredecessorHash;
    GenuineGrows(h, g, a, b, t);
    PredecessorOnChain(h, g, b.m, t, start);
  }

  lemma OnlineEarlier(h: Hasher, g: Bytes, a: Scene, b: Scene, c: Scene, t: Bytes, p: int, end: Option<int>, v: Verdict)
    requires Genuine(h, g, a.m) && Watched(h, h(g), a, b) && OnlineVerdict(v, b.m, c.m, t, p, end)
    ensures OnlineVerdict(v, a.m, c.m, t, p, end)
  {
    hide WellFormed, Rows, Abs, Genuine, Watched, Extends;
    GenuineGrows(h, g, a, b, t);
  }

  /** What the boundary lookups of a check have found, in terms of the store it began with. */
  lemma BoundaryFound(h: Hasher, g: Bytes, a: Scene, b: Scene, t: Bytes, id: Option<Uuid>)
    requires Watched(h, h(g), a, b)
    ensures a.script == [] ==> Boundary(b.m, t, id) == Boundary(a.m, t, id)
    ensures Genuine(h, g, a.m) && Boundary(a.m, t, id).Ok? ==>
              && Boundary(b.m, t, id) == Boundary(a.m, t, id)
              && (id.Some? ==> 1 <= Boundary(a.m, t, id).value.value <= |Chain(Abs(a.m), t)|)
    ensures Boundary(b.m, t, id).Ok? ==> (Boundary(b.m, t, id).value.Some? <==> id.Some?)
  {
    hide WellFormed, Abs, Extends, StartsAtGenesis;
    if Genuine(h, g, a.m) && Boundary(a.m, t, id).Ok? {
      BoundaryStays(h, a.m, b.m, t, id);
    }
  }

  /** The id the recent window starts at; a window from the first position has none. */
  function WindowStartId(rows: seq<Entry>, start: int): Option<Uuid> {
    if start == 1 then None
    else
      var first := Page(rows, start - 1, 1);
      if first == [] then None else Some(first[0].entryId)
  }

  /** What `verify_recent_chain` answers while a genuine store grows from `m` to `n`: it accepts the window of the tip
      it read, or, if there was no tip yet, whatever has been appended since. */
  ghost predicate RecentOnline(r: Result<Verdict, ServiceError>, m: Inner, n: Inner, t: Bytes, maxEntries: int) {
    var low, high := |Chain(Abs(m), t)|, |Chain(Abs(n), t)|;
    && r.Ok?
    && (|| (low == 0 && AcceptedBetween(r.value, 0, high))
        || exists k | 1 <= k && low <= k <= high :: WindowOf(r.value, k, maxEntries))
  }

  /** The boundaries of the window below a tip that was read at `b`, looked up later at `c`. */
  lemma WindowBoundaries(h: Hasher, g: Bytes, b: Scene, c: Scene, t: Bytes, start: int)
    requires Genuine(h, g, b.m) && Watched(h, h(g), b, c) && t in b.m.chainTips && 1 <= start <= b.m.chainTips[t].position
    ensures b.m.chainTips[t].position == |Chain(Abs(b.m), t)|
    ensures Boundary(c.m, t, Some(b.m.chainTips[t].entryId)) == Ok(Some(b.m.chainTips[t].position))
    ensures var id := WindowStartId(Rows(c.m, t), start);
            && Boundary(c.m, t, id) == Ok(if start == 1 then None else Some(start))
            && (start > 1 ==> id.Some?)
  {
    hide Rows, Abs, Extends, Page, FromGenesis, Genuine, Watched, Boundary, WellFormed;
    GenuineGrows(h, g, b, c, t);
    GenuineTip(h, g, b.m, t);
    var n := |Rows(b.m, t)|;
    RowBoundary(h, g, c.m, t, n - 1);
    RowBoundary(h, g, c.m, t, start - 1);
    GenuineIsReachable(h, g, c.m, t);
    AfterContiguous(Rows(c.m, t), start - 1);
    NoBoundary(c.m, t);
  }

  /** From the tip at `b` and the window start at `c` to the verdict at `d`. */
  lemma WindowAccepted(h: Hasher, g: Bytes, a: Scene, b: Scene, c: Scene, d: Scene, t: Bytes, maxEntries: int, r: Result<Verdict, ServiceError>)
    requires Genuine(h, g, a.m) && Watched(h, h(g), a, b) && Watched(h, h(g), b, c) && Watched(h, h(g), c, d)
    requires maxEntries > 0 && t in b.m.chainTips
    requires var n := |Chain(Abs(b.m), t)|;
             var start := if n - maxEntries + 1 < 1 then 1 else n - maxEntries + 1;
             OnlineAnswer(r, c.m, d.m, t, if start == 1 then None else Some(start), Some(n))
    ensures RecentOnline(r, a.m, d.m, t, maxEntries)
  {
    hide WellFormed, Rows, Abs, Extends, Genuine, Watched;
    var n := |Chain(Abs(b.m), t)|;
    GenuineGrows(h, g, a, b, t);
    GenuineGrows(h, g, b, c, t);
    GenuineGrows(h, g, c, d, t);
    GenuineTip(h, g, b.m, t);
    assert WindowOf(r.value, n, maxEntries);
  }

  /** A type that had no tip at `b` is checked from the start. */
  lemma NoTipYet(h: Hasher, g: Bytes, a: Scene, b: Scene, d: Scene, t: Bytes, maxEntries: int, r: Result<Verdict, ServiceError>)
    requires Genuine(h, g, a.m) && Watched(h, h(g), a, b) && t !in b.m.chainTips
    requires OnlineAnswer(r, b.m, d.m, t, None, None)
    ensures RecentOnline(r, a.m, d.m, t, maxEntries)
  {
    hide WellFormed, Rows, Abs, Extends, Genuine, Watched;
    GenuineGrows(h, g, a, b, t);
    GenuineTip(h, g, b.m, t);
  }

  lemma EarlierRecent(h: Hasher, g: Bytes, a: Scene, b: Scene, d: Scene, t: Bytes, maxEntries: int, r: Result<Verdict, ServiceError>)
    requires Genuine(h, g, a.m) && Watched(h, h(g), a, b) && t in b.m.chainTips && RecentOnline(r, b.m, d.m, t, maxEntries)
    ensures RecentOnline(r, a.m, d.m, t, maxEntries)
  {
    hide WellFormed, Rows, Abs, Extends, Genuine, Watched, WindowOf;
    GenuineGrows(h, g, a, b, t);
    GenuineTip(h, g, b.m, t);
    var k :| 1 <= k && |Chain(Abs(b.m), t)| <= k <= |Chain(Abs(d.m), t)| && WindowOf(r.value, k, maxEntries);
  }

  lemma TipIsPositive(h: Hasher, g: Bytes, m: Inner, t: Bytes)
    requires Genuine(h, g, m) && t in m.chainTips
    ensures m.chainTips[t].position >= 1
  {
    hide Genuine, Rows;
    GenuineTip(h, g, m, t);
  }

  /** An entry stays what it is, and passes the checks of `verify_entry` at any later time. */
  lemma EntryOnline(h: Hasher, g: Bytes, a: Scene, b: Scene, id: Uuid)
    requires Genuine(h, g, a.m) && Watched(h, h(g), a, b) && id in a.m.entries
    ensures id in b.m.entries && b.m.entries[id] == a.m.entries[id]
    ensures EntryAnswer(h, g, b.m, id) == Ok(EntryVerdict(id, true, true, NoFailure))
  {
    hide WellFormed, Abs, Extends, StartsAtGenesis, EntryAnswer;
    StaysGenuine(h, g, a, b);
    EntryStays(h, a.m, b.m, id);
    GenuineEntry(h, g, b.m, id);
  }
}
