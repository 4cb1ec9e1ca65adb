/**
 What the verification calls of the service answer (src/service/mod.rs), in terms of the one-pass check: on stores the
 service built, on stores that were tampered with, and while the store grows.
 */
module Checks {
  import opened Options
  import opened ByteText
  import opened Envelope
  import opened Ledger
  import opened Repository
  import opened Verifier
  import opened Receipts

  /** `BATCH_SIZE` of `verify_chain`. */
  const BATCH_SIZE := 50

  ghost predicate Sorted(rows: seq<Entry>) {
    forall i, j | 0 <= i < j < |rows| :: rows[i].chainPosition < rows[j].chainPosition
  }

  /** The position an optional boundary id stands for, or the lookup error. */
  function Boundary(m: Inner, t: Bytes, id: Option<Uuid>): Result<Option<int>, ServiceError> {
    if id.None? then Ok(None)
    else if id.value !in m.entries then Err(NoSuchEntry)
    else if m.entries[id.value].req.entryType != t then Err(InvalidArgument)
    else Ok(Some(m.entries[id.value].chainPosition))
  }

  /** What `verify_chain` answers, in terms of the one-pass check. */
  function ChainAnswer(h: Hasher, g: Bytes, m: Inner, t: Bytes, startId: Option<Uuid>, endId: Option<Uuid>)
    : Result<Verdict, ServiceError>
  {
    var start := Boundary(m, t, startId);
    var end := Boundary(m, t, endId);
    if start.Err? then Err(start.error)
    else if end.Err? then Err(end.error)
    else
      var from := start.value.GetOr(1);
      if end.value.Some? && from > end.value.value then Err(InvalidArgument)
      else Ok(Verification(h, g, Rows(m, t), from, end.value))
  }

  /** What `verify_recent_chain` answers: the window of the last `maxEntries` positions below the tip. */
  function RecentAnswer(h: Hasher, g: Bytes, m: Inner, t: Bytes, maxEntries: int): Result<Verdict, ServiceError> {
    if maxEntries <= 0 then Err(InvalidArgument)
    else if t !in m.chainTips then ChainAnswer(h, g, m, t, None, None)
    else
      var tip := m.chainTips[t];
      var start := if tip.position - maxEntries + 1 < 1 then 1 else tip.position - maxEntries + 1;
      if start == 1 then ChainAnswer(h, g, m, t, None, Some(tip.entryId))
      else
        var first := Page(Rows(m, t), start - 1, 1);
        if first == [] then Ok(Verdict(false, 0, None, WindowStartNotFound))
        else ChainAnswer(h, g, m, t, Some(first[0].entryId), Some(tip.entryId))
  }

  /** `VerifyEntryOutput`. */
  datatype EntryVerdict = EntryVerdict(entryId: Uuid, hashValid: bool, chainLinkValid: bool, failureReason: Reason)

  /** The link of a single entry: to genesis at position 1, else to the first row past its position minus two. */
  predicate LinkValid(h: Hasher, g: Bytes, m: Inner, e: Entry) {
    if e.chainPosition == 1 then e.previousHash == h(g)
    else
      var predecessors := Page(Rows(m, e.req.entryType), e.chainPosition - 2, 1);
      predecessors != [] && predecessors[0].entryHash == e.previousHash
  }

  function EntryAnswer(h: Hasher, g: Bytes, m: Inner, id: Uuid): Result<EntryVerdict, ServiceError> {
    if id !in m.entries then Err(NoSuchEntry)
    else
      var e := m.entries[id];
      if Recomputed(h, e) == None then Ok(EntryVerdict(id, false, false, UnsupportedHashVersion))
      else
        var hashValid := Recomputed(h, e) == Some(e.entryHash);
        var linkValid := LinkValid(h, g, m, e);
        Ok(EntryVerdict(id, hashValid, linkValid,
                        if hashValid && linkValid then NoFailure
                        else if !hashValid then EntryHashMismatch
                        else ChainLinkMismatch))
  }

  // --------------------------------- what the answers mean, field by field

  /** What `verify_chain` is to answer about a store at rest: the errors of the two boundary ids, in their order, then the
      verdict on the rows from the start position on, linked to genesis or to the row before them. */
  ghost predicate ChainVerdict(h: Hasher, g: Bytes, m: Inner, t: Bytes, startId: Option<Uuid>, endId: Option<Uuid>,
                               r: Result<Verdict, ServiceError>)
  {
    if startId.Some? && startId.value !in m.entries then r == Err(NoSuchEntry)
    else if startId.Some? && m.entries[startId.value].req.entryType != t then r == Err(InvalidArgument)
    else if endId.Some? && endId.value !in m.entries then r == Err(NoSuchEntry)
    else if endId.Some? && m.entries[endId.value].req.entryType != t then r == Err(InvalidArgument)
    else
      var from := if startId.Some? then m.entries[startId.value].chainPosition else 1;
      var end := if endId.Some? then Some(m.entries[endId.value].chainPosition) else None;
      if end.Some? && from > end.value then r == Err(InvalidArgument)
      else
        var before := After(Rows(m, t), from - 2);
        && r.Ok?
        && if from != 1 && before == [] then r.value == Verdict(false, 0, None, PredecessorNotFound)
           else Diagnosed(h, if from == 1 then h(g) else before[0].entryHash, After(Rows(m, t), from - 1), end, r.value)
  }

  lemma ChainAnswerMeans(h: Hasher, g: Bytes, m: Inner, t: Bytes, startId: Option<Uuid>, endId: Option<Uuid>)
    ensures ChainVerdict(h, g, m, t, startId, endId, ChainAnswer(h, g, m, t, startId, endId))
  {
    hide Rows, Scan, Diagnosed, After;
    var from := if startId.Some? && startId.value in m.entries then m.entries[startId.value].chainPosition else 1;
    var end := if endId.Some? && endId.value in m.entries then Some(m.entries[endId.value].chainPosition) else None;
    var before := After(Rows(m, t), from - 2);
    var prev := if from == 1 then h(g) else if before == [] then [] else before[0].entryHash;
    ScanDiagnoses(h, prev, After(Rows(m, t), from - 1), end);
  }

  /** What `verify_recent_chain` is to answer about a store whose indexes are in order: the verdict on the last
      `maxEntries` rows, linked to genesis or to the row before them. */
  ghost predicate RecentVerdict(h: Hasher, g: Bytes, rows: seq<Entry>, maxEntries: int, r: Result<Verdict, ServiceError>) {
    if maxEntries <= 0 then r == Err(InvalidArgument)
    else
      var start := if |rows| - maxEntries < 0 then 0 else |rows| - maxEntries;
      && r.Ok?
      && Diagnosed(h, if start == 0 then h(g) else rows[start - 1].entryHash, rows[start..],
                   if rows == [] then None else Some(|rows|), r.value)
  }

  lemma RecentAnswerMeans(h: Hasher, g: Bytes, m: Inner, t: Bytes, maxEntries: int)
    requires Indexed(m, t) && (t in m.chainTips ==> Rows(m, t) != [])
    ensures RecentVerdict(h, g, Rows(m, t), maxEntries, RecentAnswer(h, g, m, t, maxEntries))
  {
    hide Diagnosed, Rows, Contiguous, ChainAnswer, RecentAnswer, ChainVerdict;
    var rows := Rows(m, t);
    if maxEntries > 0 && rows != [] {
      RecentIsRange(h, g, m, t, maxEntries);
      RangeDiagnosed(h, g, m, t, if |rows| - maxEntries < 0 then 0 else |rows| - maxEntries);
    } else {
      NoRowsDiagnosed(h, g, m, t, maxEntries);
    }
  }

  /** The recent window is the range from its first row to the last one. */
  lemma RecentIsRange(h: Hasher, g: Bytes, m: Inner, t: Bytes, maxEntries: int)
    requires Indexed(m, t) && maxEntries > 0 && Rows(m, t) != []
    ensures var rows := Rows(m, t);
            var start := if |rows| - maxEntries < 0 then 0 else |rows| - maxEntries;
            RecentAnswer(h, g, m, t, maxEntries) == ChainAnswer(h, g, m, t, WindowId(rows, start), Some(rows[|rows| - 1].entryId))
  {
    hide Rows, Contiguous, ChainAnswer, Page;
    var n := |Rows(m, t)|;
    IndexedRow(m, t, if n - maxEntries < 0 then 0 else n - maxEntries);
  }

  /** The first id of a window: none for the whole chain. */
  function WindowId(rows: seq<Entry>, start: int): Option<Uuid>
    requires 0 <= start < |rows|
  {
    if start == 0 then None else Some(rows[start].entryId)
  }

  lemma RangeDiagnosed(h: Hasher, g: Bytes, m: Inner, t: Bytes, start: nat)
    requires Indexed(m, t) && start < |Rows(m, t)|
    ensures var rows := Rows(m, t);
            var answer := ChainAnswer(h, g, m, t, WindowId(rows, start), Some(rows[|rows| - 1].entryId));
            && answer.Ok?
            && Diagnosed(h, if start == 0 then h(g) else rows[start - 1].entryHash, rows[start..], Some(|rows|), answer.value)
  {
    hide Diagnosed, Rows, Contiguous, ChainAnswer, After, ChainVerdict;
    var rows := Rows(m, t);
    ChainAnswerMeans(h, g, m, t, WindowId(rows, start), Some(rows[|rows| - 1].entryId));
    RowPositions(rows, start);
    AfterContiguous(rows, start);
    if start > 0 {
      AfterContiguous(rows, start - 1);
    }
    RangeVerdict(h, g, m, t, start, ChainAnswer(h, g, m, t, WindowId(rows, start), Some(rows[|rows| - 1].entryId)));
  }

  lemma RangeVerdict(h: Hasher, g: Bytes, m: Inner, t: Bytes, start: nat, r: Result<Verdict, ServiceError>)
    requires Indexed(m, t) && start < |Rows(m, t)|
    requires var rows := Rows(m, t);
             && rows[start].chainPosition == start + 1 && rows[|rows| - 1].chainPosition == |rows|
             && After(rows, start) == rows[start..] && (start > 0 ==> After(rows, start - 1) == rows[start - 1..])
    requires ChainVerdict(h, g, m, t, WindowId(Rows(m, t), start), Some(Rows(m, t)[|Rows(m, t)| - 1].entryId), r)
    ensures r.Ok?
    ensures Diagnosed(h, if start == 0 then h(g) else Rows(m, t)[start - 1].entryHash, Rows(m, t)[start..], Some(|Rows(m, t)|), r.value)
  {
    hide Diagnosed, Rows, Contiguous, After;
  }

  lemma RowPositions(rows: seq<Entry>, i: nat)
    requires Contiguous(rows) && i < |rows|
    ensures rows[i].chainPosition == i + 1 && rows[|rows| - 1].chainPosition == |rows|
  {
  }

  lemma NoRowsDiagnosed(h: Hasher, g: Bytes, m: Inner, t: Bytes, maxEntries: int)
    requires maxEntries <= 0 || (Rows(m, t) == [] && t !in m.chainTips)
    ensures var answer := RecentAnswer(h, g, m, t, maxEntries);
            if maxEntries <= 0 then answer == Err(InvalidArgument)
            else answer.Ok? && Diagnosed(h, h(g), [], None, answer.value)
  {
  }

  /** What `verify_entry` is to answer about row `i`, in terms of its fields and of the row before it. */
  ghost predicate EntryDiagnosis(h: Hasher, g: Bytes, rows: seq<Entry>, i: int, v: EntryVerdict)
    requires 0 <= i < |rows|
  {
    var e, before := rows[i], if i == 0 then h(g) else rows[i - 1].entryHash;
    var input := HashInput(e.entryId, e.req, e.chainPosition, e.writtenTsMs, e.previousHash);
    var v2, v3 := e.hashVersion == Ascii("ARE_LEDGER_ENTRY_HASH_V2"), e.hashVersion == Ascii("ARE_LEDGER_ENTRY_HASH_V3");
    var hashOk := (v2 && h(PreimageV2(input)) == e.entryHash) || (v3 && h(PreimageV3(input)) == e.entryHash);
    && v.entryId == e.entryId
    && (v.hashValid <==> hashOk)
    && (v.chainLinkValid <==> (v2 || v3) && e.previousHash == before)
    && (v.failureReason == NoFailure <==> hashOk && e.previousHash == before)
    && (v.failureReason == UnsupportedHashVersion <==> !v2 && !v3)
    && (v.failureReason == EntryHashMismatch <==> (v2 || v3) && !hashOk)
    && (v.failureReason == ChainLinkMismatch <==> hashOk && e.previousHash != before)
  }

  lemma EntryAnswerMeans(h: Hasher, g: Bytes, m: Inner, t: Bytes, i: nat)
    requires Indexed(m, t) && i < |Rows(m, t)|
    ensures var answer := EntryAnswer(h, g, m, Rows(m, t)[i].entryId);
            answer.Ok? && EntryDiagnosis(h, g, Rows(m, t), i, answer.value)
  {
    hide Recomputed, Rows, PreimageV2, PreimageV3;
    RecomputedMeans(h, Rows(m, t)[i]);
    TagsDiffer();
    if i > 0 {
      AfterContiguous(Rows(m, t), i - 1);
    }
  }

  /** The same for an id. */
  ghost predicate EntryMeans(h: Hasher, g: Bytes, m: Inner, id: Uuid, r: Result<EntryVerdict, ServiceError>) {
    && (r.Ok? <==> id in m.entries) && (r.Err? ==> r.error == NoSuchEntry)
    && forall t, i | Indexed(m, t) && 0 <= i < |Rows(m, t)| && Rows(m, t)[i].entryId == id ::
         r.Ok? && EntryDiagnosis(h, g, Rows(m, t), i, r.value)
  }

  lemma EntryAnswersMean(h: Hasher, g: Bytes, m: Inner, id: Uuid)
    ensures EntryMeans(h, g, m, id, EntryAnswer(h, g, m, id))
  {
    hide EntryDiagnosis, Rows, Indexed;
    forall t, i | Indexed(m, t) && 0 <= i < |Rows(m, t)| && Rows(m, t)[i].entryId == id
      ensures EntryAnswer(h, g, m, id).Ok? && EntryDiagnosis(h, g, Rows(m, t), i, EntryAnswer(h, g, m, id).value)
    {
      EntryAnswerMeans(h, g, m, t, i);
    }
  }

  // ------------------------------------------------- reachable stores verify

  ghost predicate Reachable(h: Hasher, g: Bytes, m: Inner, t: Bytes) {
    WellFormed(h, m) && FromGenesis(h, g, t, Rows(m, t))
  }

  lemma ReachableIsContiguous(h: Hasher, g: Bytes, m: Inner, t: Bytes)
    requires Reachable(h, g, m, t)
    ensures Contiguous(Rows(m, t))
  {
    hide HashForVersion;
    FromGenesisIsLinked(h, g, t, Rows(m, t));
  }

  /** The row at a position is the entry its id names. */
  lemma RowIsEntry(h: Hasher, g: Bytes, m: Inner, t: Bytes, i: nat)
    requires Reachable(h, g, m, t) && i < |Rows(m, t)|
    ensures var e := Rows(m, t)[i];
            e.entryId in m.entries && m.entries[e.entryId] == e && e.req.entryType == t && e.chainPosition == i + 1
  {
    hide HashForVersion, FromGenesis;
    RowAt(m, t, i);
    ReachableIsContiguous(h, g, m, t);
  }

  lemma TipIsLastRow(h: Hasher, g: Bytes, m: Inner, t: Bytes)
    requires Reachable(h, g, m, t)
    ensures var c := Rows(m, t);
            && (t in m.chainTips <==> c != [])
            && (c != [] ==> m.chainTips[t].position == |c| && m.chainTips[t].entryId == c[|c| - 1].entryId)
  {
    hide FromGenesis;
    TipGuard(h, m, t);
    RowsAreChain(m, t);
  }

  /** On a reachable chain of `n` entries full verification accepts with count `n`, whatever its length. */
  lemma FullVerificationAccepts(h: Hasher, g: Bytes, m: Inner, t: Bytes)
    requires Reachable(h, g, m, t)
    ensures ChainAnswer(h, g, m, t, None, None) == Ok(Verdict(true, |Rows(m, t)|, None, NoFailure))
  {
    hide WellFormed, HashForVersion;
    FromGenesisIsLinked(h, g, t, Rows(m, t));
    LinkedVerifies(h, g, Rows(m, t));
  }

  /** On a reachable chain the recent window is accepted with count min(n, maxEntries). */
  lemma RecentVerificationAccepts(h: Hasher, g: Bytes, m: Inner, t: Bytes, maxEntries: int)
    requires Reachable(h, g, m, t) && maxEntries > 0
    ensures var n := |Rows(m, t)|;
            RecentAnswer(h, g, m, t, maxEntries) == Ok(Verdict(true, if n < maxEntries then n else maxEntries, None, NoFailure))
  {
    hide WellFormed, HashForVersion, FromGenesis, Verification, Rows, Page, Contiguous, Linked;
    var c := Rows(m, t);
    var n := |c|;
    TipIsLastRow(h, g, m, t);
    if n == 0 {
      FullVerificationAccepts(h, g, m, t);
    } else {
      FromGenesisIsLinked(h, g, t, c);
      LinkedVerifies(h, g, c);
      RowIsEntry(h, g, m, t, n - 1);
      var start := if n - maxEntries + 1 < 1 then 1 else n - maxEntries + 1;
      if start > 1 {
        WindowStart(h, g, m, t, start);
      }
    }
  }

  lemma WindowStart(h: Hasher, g: Bytes, m: Inner, t: Bytes, start: int)
    requires Reachable(h, g, m, t) && 1 < start <= |Rows(m, t)|
    ensures Page(Rows(m, t), start - 1, 1) == [Rows(m, t)[start - 1]]
    ensures Boundary(m, t, Some(Rows(m, t)[start - 1].entryId)) == Ok(Some(start))
  {
    hide WellFormed, HashForVersion, FromGenesis;
    ReachableIsContiguous(h, g, m, t);
    AfterContiguous(Rows(m, t), start - 1);
    RowIsEntry(h, g, m, t, start - 1);
  }

  /** On a reachable chain single-entry verification reports both flags true for every entry. */
  lemma EntryVerificationAccepts(h: Hasher, g: Bytes, m: Inner, t: Bytes, i: nat)
    requires Reachable(h, g, m, t) && i < |Rows(m, t)|
    ensures var id := Rows(m, t)[i].entryId;
            EntryAnswer(h, g, m, id) == Ok(EntryVerdict(id, true, true, NoFailure))
  {
    hide WellFormed, HashForVersion;
    var c := Rows(m, t);
    RowIsEntry(h, g, m, t, i);
    FromGenesisIsLinked(h, g, t, c);
    assert Good(h, h(g), c, i);
    if i > 0 {
      AfterContiguous(c, i - 1);
    }
  }

  // ------------------------------------------ stores that were tampered with

  /** The indexes of a type are in order; what its entries say may have been tampered with. */
  ghost predicate Indexed(m: Inner, t: Bytes) {
    var c := Rows(m, t);
    && Contiguous(c)
    && (forall i | 0 <= i < |c| :: c[i].entryId in m.entries && m.entries[c[i].entryId] == c[i] && c[i].req.entryType == t)
    && (c != [] ==> t in m.chainTips && m.chainTips[t].position == |c| && m.chainTips[t].entryId == c[|c| - 1].entryId)
  }

  lemma EntryFlags(h: Hasher, g: Bytes, m: Inner, t: Bytes, i: nat)
    requires Indexed(m, t) && i < |Rows(m, t)|
    ensures var id := Rows(m, t)[i].entryId;
            EntryAnswer(h, g, m, id) == Ok(EntryVerdict(id, true, true, NoFailure)) <==> Good(h, h(g), Rows(m, t), i)
  {
    hide HashForVersion, Rows;
    if i > 0 {
      AfterContiguous(Rows(m, t), i - 1);
    }
  }

  /** Full verification accepts a chain exactly when single-entry verification accepts each of its entries. */
  lemma ChainVerifiesIffEntriesDo(h: Hasher, g: Bytes, m: Inner, t: Bytes)
    requires Indexed(m, t)
    ensures var c := Rows(m, t);
            var answer := ChainAnswer(h, g, m, t, None, None);
            && answer.Ok?
            && (answer.value.chainValid <==>
                forall i | 0 <= i < |c| :: EntryAnswer(h, g, m, c[i].entryId) == Ok(EntryVerdict(c[i].entryId, true, true, NoFailure)))
  {
    hide HashForVersion, Good, EntryAnswer, Rows;
    var c := Rows(m, t);
    AfterContiguous(c, 0);
    ScanAll(h, h(g), c);
    forall i | 0 <= i < |c|
      ensures EntryAnswer(h, g, m, c[i].entryId) == Ok(EntryVerdict(c[i].entryId, true, true, NoFailure)) <==> Good(h, h(g), c, i)
    {
      EntryFlags(h, g, m, t, i);
    }
  }

  lemma IndexedRow(m: Inner, t: Bytes, i: nat)
    requires Indexed(m, t) && i < |Rows(m, t)|
    ensures Boundary(m, t, Some(Rows(m, t)[i].entryId)) == Ok(Some(i + 1))
    ensures Page(Rows(m, t), i, 1) == [Rows(m, t)[i]]
  {
    hide Rows, Page;
    AfterContiguous(Rows(m, t), i);
  }

  /** The recent window is accepted exactly when the last `maxEntries` rows, or all there are, are good, and is then
      counted in full; what lies before the window is not looked at, but for the hash it links to. */
  lemma RecentVerificationExact(h: Hasher, g: Bytes, m: Inner, t: Bytes, maxEntries: int)
    requires Indexed(m, t) && Rows(m, t) != [] && maxEntries > 0
    ensures var n := |Rows(m, t)|;
            var start := if n - maxEntries + 1 < 1 then 1 else n - maxEntries + 1;
            var answer := RecentAnswer(h, g, m, t, maxEntries);
            && answer.Ok?
            && (answer.value.chainValid <==> SliceGood(h, g, Rows(m, t), start, n))
            && (answer.value.chainValid ==> answer.value == Verdict(true, n - start + 1, None, NoFailure))
  {
    hide HashForVersion, Verification, SliceGood, Rows, Page, Contiguous, Boundary;
    var c := Rows(m, t);
    var n := |c|;
    var start := if n - maxEntries + 1 < 1 then 1 else n - maxEntries + 1;
    RangeAccepted(h, g, c, start, n);
    IndexedRow(m, t, n - 1);
    IndexedRow(m, t, start - 1);
    NoBoundary(m, t);
  }

  lemma NoBoundary(m: Inner, t: Bytes)
    ensures Boundary(m, t, None) == Ok(None)
  {
  }

  // ------------------------------------------------------- the batched loop

  /** In position order the rows past a position are those from some index on. */
  lemma {:induction false} AfterFrom(rows: seq<Entry>, k: nat, p: int)
    requires k <= |rows|
    requires forall i | 0 <= i < k :: rows[i].chainPosition <= p
    requires forall i | k <= i < |rows| :: rows[i].chainPosition > p
    ensures After(rows, p) == rows[k..]
    decreases |rows|
  {
    if k == 0 {
      AfterAll(rows, p);
    } else {
      AfterFrom(rows[1..], k - 1, p);
    }
  }

  lemma SplitAt(rows: seq<Entry>, p: int) returns (k: nat)
    requires Sorted(rows)
    ensures k <= |rows|
    ensures forall i | 0 <= i < k :: rows[i].chainPosition <= p
    ensures forall i | k <= i < |rows| :: rows[i].chainPosition > p
  {
    k := 0;
    while k < |rows| && rows[k].chainPosition <= p
      invariant k <= |rows|
      invariant forall i | 0 <= i < k :: rows[i].chainPosition <= p
    {
      k := k + 1;
    }
  }

  /** The next batch starts right after the last row of this one. */
  lemma AfterBatch(rows: seq<Entry>, p: int, n: nat)
    requires Sorted(rows) && 0 < n <= |After(rows, p)|
    ensures After(rows, After(rows, p)[n - 1].chainPosition) == After(rows, p)[n..]
  {
    var k := SplitAt(rows, p);
    AfterFrom(rows, k, p);
    AfterFrom(rows, k + n, rows[k + n - 1].chainPosition);
  }

  // ------------------------------------------------ while the store grows

  /** A store the service built, with every chain begun on the genesis hash. */
  ghost predicate Genuine(h: Hasher, g: Bytes, m: Inner) {
    WellFormed(h, m) && StartsAtGenesis(h(g), Abs(m))
  }

  lemma GenuineIsReachable(h: Hasher, g: Bytes, m: Inner, t: Bytes)
    requires Genuine(h, g, m)
    ensures Reachable(h, g, m, t) && Contiguous(Rows(m, t)) && Rows(m, t) == Chain(Abs(m), t)
  {
    hide HashForVersion, EntryOk;
    RowsAreChain(m, t);
    assert t in Abs(m).chains ==> TypeOk(h, Abs(m), t);
    ReachableIsContiguous(h, g, m, t);
  }

  lemma WellFormedIsSorted(h: Hasher, m: Inner, t: Bytes)
    requires WellFormed(h, m)
    ensures Sorted(Rows(m, t))
  {
    hide CurrentHash;
    RowsAreChain(m, t);
    assert t in Abs(m).chains ==> TypeOk(h, Abs(m), t);
    var c := Rows(m, t);
    forall i | 0 <= i < |c|
      ensures c[i].chainPosition == i + 1
    {
      assert EntryOk(h, t, c, i);
    }
  }

  /** A boundary lookup answers the same for ever. */
  lemma BoundaryStays(h: Hasher, m: Inner, n: Inner, t: Bytes, id: Option<Uuid>)
    requires WellFormed(h, m) && WellFormed(h, n) && Extends(Abs(m), Abs(n)) && Boundary(m, t, id).Ok?
    ensures Boundary(n, t, id) == Boundary(m, t, id)
    ensures id.Some? ==> 1 <= Boundary(m, t, id).value.value <= |Chain(Abs(m), t)|
  {
    hide LedgerOk, TipsOk, IndexOk;
    if id.Some? {
      EntryStays(h, m, n, id.value);
      EntryIsRow(m, id.value);
    }
  }

  lemma EntryStays(h: Hasher, m: Inner, n: Inner, id: Uuid)
    requires WellFormed(h, m) && WellFormed(h, n) && Extends(Abs(m), Abs(n)) && id in m.entries
    ensures id in n.entries && n.entries[id] == m.entries[id]
  {
    hide LedgerOk, TipsOk, IndexOk;
    EntryIsRow(m, id);
    var e := m.entries[id];
    var t := e.req.entryType;
    assert Chain(Abs(m), t) <= Chain(Abs(n), t);
    RowsAreChain(n, t);
    RowAt(n, t, e.chainPosition - 1);
  }

  /** The check stands on a good chain: after `p` entries, with the hash to link to and the end still ahead. */
  predicate OnChain(h: Hasher, g: Bytes, c: seq<Entry>, p: int, prev: Bytes, end: Option<int>) {
    0 <= p <= |c| && prev == HashBefore(h(g), c, p) && (end.Some? ==> p <= end.value <= |c|)
  }

  lemma OnChainStays(h: Hasher, g: Bytes, c: seq<Entry>, d: seq<Entry>, p: int, prev: Bytes, end: Option<int>)
    requires OnChain(h, g, c, p, prev, end) && c <= d
    ensures OnChain(h, g, d, p, prev, end)
  {
  }

  lemma ScanFromHere(h: Hasher, g: Bytes, t: Bytes, c: seq<Entry>, p: int, prev: Bytes, end: Option<int>, checked: int)
    requires FromGenesis(h, g, t, c) && OnChain(h, g, c, p, prev, end)
    ensures Scan(h, prev, c[p..], end, checked) == Verdict(true, checked + (if end.Some? then end.value else |c|) - p, None, NoFailure)
  {
    hide HashForVersion, Scan, Good;
    FromGenesisIsLinked(h, g, t, c);
    var stop := if end.Some? then end.value else |c|;
    var front := c[p..stop];
    assert c[p..] == front + c[stop..];
    forall i | 0 <= i < |front|
      ensures Good(h, prev, front, i) && !Beyond(front[i], end)
    {
      assert Good(h, h(g), c, p + i);
      SameGood(h, g, c, p, front, i);
    }
    ScanSkips(h, prev, front, c[stop..], end, checked);
    ScanEnds(h, HashBefore(prev, front, |front|), c[stop..], end, checked + |front|);
  }

  lemma SameGood(h: Hasher, g: Bytes, c: seq<Entry>, p: nat, front: seq<Entry>, i: nat)
    requires p <= |c| && front <= c[p..] && i < |front| && Good(h, h(g), c, p + i)
    ensures Good(h, HashBefore(h(g), c, p), front, i)
  {
    hide HashForVersion;
    assert front[i] == c[p + i];
    assert i > 0 ==> front[i - 1] == c[p + i - 1];
  }

  lemma ScanEnds(h: Hasher, prev: Bytes, rows: seq<Entry>, end: Option<int>, checked: int)
    requires rows != [] ==> Beyond(rows[0], end)
    ensures Scan(h, prev, rows, end, checked) == Verdict(true, checked, None, NoFailure)
  {
  }

  /** A batch of a contiguous chain is the next slice of it. */
  lemma BatchOfContiguous(c: seq<Entry>, p: nat, limit: int)
    requires Contiguous(c) && p <= |c| && limit > 0
    ensures var batch := Page(c, p, limit);
            && p + |batch| <= |c| && batch == c[p..p + |batch|]
            && (batch != [] ==> batch[|batch| - 1].chainPosition == p + |batch|)
  {
    AfterContiguous(c, p);
    var batch := Page(c, p, limit);
    if batch != [] {
      assert batch[|batch| - 1] == c[p + |batch| - 1];
    }
  }

  /** A batch of a good chain that ends nothing leads to the place after it. */
  lemma BatchGoesOn(h: Hasher, g: Bytes, c: seq<Entry>, p: int, prev: Bytes, end: Option<int>, limit: int)
    requires Contiguous(c) && OnChain(h, g, c, p, prev, end) && limit > 0
    requires forall e | e in Page(c, p, limit) :: !Beyond(e, end)
    ensures var batch := Page(c, p, limit);
            && OnChain(h, g, c, p + |batch|, HashBefore(prev, batch, |batch|), end)
            && (batch != [] ==> batch[|batch| - 1].chainPosition == p + |batch|)
  {
    hide Page, Contiguous;
    BatchOfContiguous(c, p, limit);
    var batch := Page(c, p, limit);
    if batch != [] {
      assert batch[|batch| - 1] in batch;
    }
  }

  /** The hash a check from a position has to link to, or none when the entry before it is missing. */
  function PredecessorHash(h: Hasher, g: Bytes, rows: seq<Entry>, start: int): Option<Bytes> {
    if start == 1 then Some(h(g))
    else
      var predecessors := Page(rows, start - 2, 1);
      if predecessors == [] then None else Some(predecessors[0].entryHash)
  }

  lemma PredecessorOnChain(h: Hasher, g: Bytes, m: Inner, t: Bytes, start: int)
    requires Genuine(h, g, m) && 1 <= start <= |Rows(m, t)| + 1
    ensures PredecessorHash(h, g, Rows(m, t), start) == Some(HashBefore(h(g), Rows(m, t), start - 1))
  {
    hide WellFormed, FromGenesis, Rows;
    GenuineIsReachable(h, g, m, t);
    if start > 1 {
      AfterContiguous(Rows(m, t), start - 2);
    }
  }

  lemma RowBoundary(h: Hasher, g: Bytes, m: Inner, t: Bytes, i: nat)
    requires Genuine(h, g, m) && i < |Rows(m, t)|
    ensures Boundary(m, t, Some(Rows(m, t)[i].entryId)) == Ok(Some(i + 1))
  {
    hide WellFormed, FromGenesis, HashForVersion, Rows;
    GenuineIsReachable(h, g, m, t);
    RowIsEntry(h, g, m, t, i);
  }

  /** What one batch of the loop leads to: the verdict of the one-pass check over all rows from here on, or the place
      right after the batch from which that check goes on. */
  ghost predicate BatchResult(h: Hasher, rows: seq<Entry>, end: Option<int>, prev: Bytes, p: int, checked: int,
                              done: Option<Verdict>, prev': Bytes, p': int, checked': int)
  {
    if done.Some? then done.value == Scan(h, prev, After(rows, p), end, checked)
    else
      var batch := Page(rows, p, BATCH_SIZE);
      && batch != [] && (forall e | e in batch :: !Beyond(e, end))
      && p' == batch[|batch| - 1].chainPosition && prev' == HashBefore(prev, batch, |batch|) && checked' == checked + |batch|
      && Scan(h, prev, After(rows, p), end, checked) == Scan(h, prev', After(rows, p'), end, checked')
      && |After(rows, p')| < |After(rows, p)|
  }

  /** On a genuine store a batch accepts, or leads on along the chain. */
  lemma BatchOnChain(h: Hasher, g: Bytes, m: Inner, t: Bytes, end: Option<int>, prev: Bytes, p: int, checked: int,
                     done: Option<Verdict>, prev': Bytes, p': int, checked': int)
    requires Genuine(h, g, m) && OnChain(h, g, Rows(m, t), p, prev, end)
    requires BatchResult(h, Rows(m, t), end, prev, p, checked, done, prev', p', checked')
    ensures done.Some? ==>
              done.value == Verdict(true, checked + (if end.Some? then end.value else |Rows(m, t)|) - p, None, NoFailure)
    ensures done.None? ==> OnChain(h, g, Rows(m, t), p', prev', end) && checked' - checked == p' - p
  {
    hide WellFormed, FromGenesis, HashForVersion, Rows, Scan, Genuine;
    GenuineIsReachable(h, g, m, t);
    var c := Rows(m, t);
    AfterContiguous(c, p);
    if done.Some? {
      ScanFromHere(h, g, t, c, p, prev, end, checked);
    } else {
      BatchGoesOn(h, g, c, p, prev, end, BATCH_SIZE);
    }
  }

  lemma GenuineTip(h: Hasher, g: Bytes, m: Inner, t: Bytes)
    requires Genuine(h, g, m)
    ensures var c := Rows(m, t);
            && (t in m.chainTips <==> c != [])
            && (c != [] ==> m.chainTips[t].position == |c| && m.chainTips[t].entryId == c[|c| - 1].entryId)
  {
    hide WellFormed, FromGenesis, Rows, StartsAtGenesis;
    GenuineIsReachable(h, g, m, t);
    TipIsLastRow(h, g, m, t);
  }

  lemma GenuineEntry(h: Hasher, g: Bytes, m: Inner, id: Uuid)
    requires Genuine(h, g, m) && id in m.entries
    ensures EntryAnswer(h, g, m, id) == Ok(EntryVerdict(id, true, true, NoFailure))
  {
    hide Rows, Abs, StartsAtGenesis, EntryAnswer, LedgerOk, TipsOk, IndexOk, FromGenesis, EntriesOk, ListsOk, Contiguous;
    var e := m.entries[id];
    EntryIsRow(m, id);
    GenuineIsReachable(h, g, m, e.req.entryType);
    EntryVerificationAccepts(h, g, m, e.req.entryType, e.chainPosition - 1);
  }
}
