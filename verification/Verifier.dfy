/**
 What chain verification means: the one-pass check that the batched loop of the service computes, and what an
 accepted chain proves about its history.
 */
module Verifier {
  import opened Options
  import opened ByteText
  import opened Envelope
  import opened Ledger
  import opened Repository

  datatype Reason =
    | NoFailure
    | ChainLinkMismatch
    | EntryHashMismatch
    | UnsupportedHashVersion
    | PredecessorNotFound
    | WindowStartNotFound

  /** `VerifyChainOutput`. */
  datatype Verdict = Verdict(chainValid: bool, entriesChecked: int, firstInvalidEntryId: Option<Uuid>, failureReason: Reason)

  /** What is wrong with `e` when the hash before it is `prev`; the link is looked at before the hash. */
  function Fault(h: Hasher, prev: Bytes, e: Entry): Reason {
    if e.previousHash != prev then ChainLinkMismatch
    else if Recomputed(h, e) == Some(e.entryHash) then NoFailure
    else if Recomputed(h, e) == None then UnsupportedHashVersion
    else EntryHashMismatch
  }

  predicate Beyond(e: Entry, end: Option<int>) {
    end.Some? && e.chainPosition > end.value
  }

  /** The one-pass check of `rows` up to `end`; `checked` rows were accepted before. */
  function Scan(h: Hasher, prev: Bytes, rows: seq<Entry>, end: Option<int>, checked: int): Verdict
    decreases |rows|
  {
    if rows == [] || Beyond(rows[0], end) then Verdict(true, checked, None, NoFailure)
    else if Fault(h, prev, rows[0]) != NoFailure then
      Verdict(false, checked + 1, Some(rows[0].entryId), Fault(h, prev, rows[0]))
    else Scan(h, rows[0].entryHash, rows[1..], end, checked + 1)
  }

  /** The whole check from a start position: the hash to link to, then the pass over the rows from there on. */
  function Verification(h: Hasher, genesisInput: Bytes, rows: seq<Entry>, start: int, end: Option<int>): Verdict {
    if start == 1 then Scan(h, h(genesisInput), After(rows, 0), end, 0)
    else
      var predecessors := Page(rows, start - 2, 1);
      if predecessors == [] then Verdict(false, 0, None, PredecessorNotFound)
      else Scan(h, predecessors[0].entryHash, After(rows, start - 1), end, 0)
  }

  // ------------------------------------------- what the pass accepts and reports

  function HashBefore(prev: Bytes, rows: seq<Entry>, i: int): Bytes
    requires 0 <= i <= |rows|
  {
    if i == 0 then prev else rows[i - 1].entryHash
  }

  /** Row `i` links to the row before it and has the hash its version recomputes. */
  predicate Good(h: Hasher, prev: Bytes, rows: seq<Entry>, i: int)
    requires 0 <= i < |rows|
  {
    rows[i].previousHash == HashBefore(prev, rows, i) && Recomputed(h, rows[i]) == Some(rows[i].entryHash)
  }

  /** Row `i` comes before the first row past the end. */
  predicate InRange(rows: seq<Entry>, end: Option<int>, i: int)
    requires 0 <= i < |rows|
  {
    forall j | 0 <= j <= i :: !Beyond(rows[j], end)
  }

  ghost predicate FirstBad(h: Hasher, prev: Bytes, rows: seq<Entry>, end: Option<int>, i: int) {
    && 0 <= i < |rows| && InRange(rows, end, i)
    && !Good(h, prev, rows, i)
    && (forall j | 0 <= j < i :: Good(h, prev, rows, j))
  }

  ghost predicate AllGood(h: Hasher, prev: Bytes, rows: seq<Entry>, end: Option<int>) {
    forall i | 0 <= i < |rows| && InRange(rows, end, i) :: Good(h, prev, rows, i)
  }

  lemma GoodTail(h: Hasher, prev: Bytes, rows: seq<Entry>, i: int)
    requires 0 < i < |rows|
    ensures Good(h, prev, rows, i) <==> Good(h, rows[0].entryHash, rows[1..], i - 1)
  {
  }

  lemma InRangeTail(rows: seq<Entry>, end: Option<int>, i: int)
    requires 0 < i < |rows| && !Beyond(rows[0], end)
    ensures InRange(rows, end, i) <==> InRange(rows[1..], end, i - 1)
  {
    if InRange(rows[1..], end, i - 1) {
      forall j | 0 <= j <= i
        ensures !Beyond(rows[j], end)
      {
        if j > 0 {
          assert rows[1..][j - 1] == rows[j];
        }
      }
    }
    if InRange(rows, end, i) {
      forall j | 0 <= j <= i - 1
        ensures !Beyond(rows[1..][j], end)
      {
        assert rows[1..][j] == rows[j + 1];
      }
    }
  }

  /** The pass accepts exactly when every row in range is good. */
  lemma {:induction false} ScanAccepts(h: Hasher, prev: Bytes, rows: seq<Entry>, end: Option<int>, checked: int)
    ensures Scan(h, prev, rows, end, checked).chainValid <==> AllGood(h, prev, rows, end)
    decreases |rows|
  {
    hide HashForVersion;
    if rows != [] {
      if Beyond(rows[0], end) {
      } else {
        assert InRange(rows, end, 0);
        if Good(h, prev, rows, 0) {
          var tail := rows[1..];
          ScanAccepts(h, rows[0].entryHash, tail, end, checked + 1);
          forall i | 0 < i < |rows|
            ensures InRange(rows, end, i) <==> InRange(tail, end, i - 1)
            ensures Good(h, prev, rows, i) <==> Good(h, rows[0].entryHash, tail, i - 1)
          {
            InRangeTail(rows, end, i);
            GoodTail(h, prev, rows, i);
          }
          if AllGood(h, prev, rows, end) {
            forall i | 0 <= i < |tail| && InRange(tail, end, i)
              ensures Good(h, rows[0].entryHash, tail, i)
            {
              assert InRange(rows, end, i + 1);
            }
          }
        }
      }
    }
  }

  /** What is wrong with row `i` of `rows`, in terms of its fields: the link to the row before it, or to `prev`, then the
      version, then the hash of that version's text. */
  predicate Diagnosis(h: Hasher, prev: Bytes, rows: seq<Entry>, i: int, reason: Reason)
    requires 0 <= i < |rows|
  {
    var e, before := rows[i], if i == 0 then prev else rows[i - 1].entryHash;
    var input := HashInput(e.entryId, e.req, e.chainPosition, e.writtenTsMs, e.previousHash);
    var v2, v3 := e.hashVersion == Ascii("ARE_LEDGER_ENTRY_HASH_V2"), e.hashVersion == Ascii("ARE_LEDGER_ENTRY_HASH_V3");
    var hashOk := (v2 && h(PreimageV2(input)) == e.entryHash) || (v3 && h(PreimageV3(input)) == e.entryHash);
    && (reason == NoFailure <==> e.previousHash == before && hashOk)
    && (reason == ChainLinkMismatch <==> e.previousHash != before)
    && (reason == UnsupportedHashVersion <==> e.previousHash == before && !v2 && !v3)
    && (reason == EntryHashMismatch <==> e.previousHash == before && (v2 || v3) && !hashOk)
  }

  /** What is recomputed, in terms of the fields. */
  lemma RecomputedMeans(h: Hasher, e: Entry)
    ensures var input := HashInput(e.entryId, e.req, e.chainPosition, e.writtenTsMs, e.previousHash);
            Recomputed(h, e) == if e.hashVersion == Ascii("ARE_LEDGER_ENTRY_HASH_V2") then Some(h(PreimageV2(input)))
                                else if e.hashVersion == Ascii("ARE_LEDGER_ENTRY_HASH_V3") then Some(h(PreimageV3(input)))
                                else None
  {
    hide PreimageV2, PreimageV3, Ascii;
  }

  lemma FaultMeans(h: Hasher, prev: Bytes, rows: seq<Entry>, i: int)
    requires 0 <= i < |rows|
    ensures Diagnosis(h, prev, rows, i, Fault(h, HashBefore(prev, rows, i), rows[i]))
  {
    hide PreimageV2, PreimageV3, Recomputed;
    RecomputedMeans(h, rows[i]);
    TagsDiffer();
  }

  /** The verdict on `rows` up to `end`: accepted and counted if every row in range is sound; else the first row that is
      not is named, with what is wrong with it and the count up to and including it. */
  ghost predicate Diagnosed(h: Hasher, prev: Bytes, rows: seq<Entry>, end: Option<int>, v: Verdict) {
    var n := if v.chainValid then v.entriesChecked else v.entriesChecked - 1;
    && 0 <= n <= |rows|
    && (forall i | 0 <= i < n :: Diagnosis(h, prev, rows, i, NoFailure))
    && (forall i | 0 <= i < n :: end.Some? ==> rows[i].chainPosition <= end.value)
    && if v.chainValid then
         && v.firstInvalidEntryId == None && v.failureReason == NoFailure
         && (n < |rows| ==> end.Some? && rows[n].chainPosition > end.value)
       else
         && n < |rows| && (end.Some? ==> rows[n].chainPosition <= end.value)
         && v.firstInvalidEntryId == Some(rows[n].entryId) && v.failureReason != NoFailure
         && Diagnosis(h, prev, rows, n, v.failureReason)
  }

  /** The one-pass check reaches that verdict. */
  lemma ScanDiagnoses(h: Hasher, prev: Bytes, rows: seq<Entry>, end: Option<int>)
    ensures Diagnosed(h, prev, rows, end, Scan(h, prev, rows, end, 0))
  {
    hide Fault, Diagnosis;
    var i := 0;
    while i < |rows| && !Beyond(rows[i], end) && Fault(h, HashBefore(prev, rows, i), rows[i]) == NoFailure
      invariant 0 <= i <= |rows|
      invariant Scan(h, prev, rows, end, 0) == Scan(h, HashBefore(prev, rows, i), rows[i..], end, i)
      invariant forall j | 0 <= j < i :: Diagnosis(h, prev, rows, j, NoFailure)
      invariant forall j | 0 <= j < i :: end.Some? ==> rows[j].chainPosition <= end.value
    {
      FaultMeans(h, prev, rows, i);
      assert rows[i..][1..] == rows[i + 1..];
      i := i + 1;
    }
    if i < |rows| {
      FaultMeans(h, prev, rows, i);
      assert rows[i..][0] == rows[i];
    }
  }

  /** A rejection names the first bad row, what is wrong with it, and counts the rows up to and including it. */
  lemma {:induction false} ScanRejects(h: Hasher, prev: Bytes, rows: seq<Entry>, end: Option<int>, checked: int) returns (i: int)
    requires !Scan(h, prev, rows, end, checked).chainValid
    ensures FirstBad(h, prev, rows, end, i)
    ensures Scan(h, prev, rows, end, checked)
         == Verdict(false, checked + i + 1, Some(rows[i].entryId), Fault(h, HashBefore(prev, rows, i), rows[i]))
    ensures Diagnosis(h, prev, rows, i, Scan(h, prev, rows, end, checked).failureReason)
    decreases |rows|
  {
    hide HashForVersion, Diagnosis;
    if Good(h, prev, rows, 0) {
      var k := ScanRejects(h, rows[0].entryHash, rows[1..], end, checked + 1);
      i := k + 1;
      InRangeTail(rows, end, i);
      GoodTail(h, prev, rows, i);
      forall j | 0 <= j < i
        ensures Good(h, prev, rows, j)
      {
        if j > 0 {
          GoodTail(h, prev, rows, j);
        }
      }
    } else {
      i := 0;
    }
    FaultMeans(h, prev, rows, i);
  }

  /** Good rows in range are passed over: the check goes on after them. */
  lemma {:induction false} ScanSkips(h: Hasher, prev: Bytes, a: seq<Entry>, b: seq<Entry>, end: Option<int>, checked: int)
    requires forall i | 0 <= i < |a| :: Good(h, prev, a, i) && !Beyond(a[i], end)
    ensures Scan(h, prev, a + b, end, checked) == Scan(h, HashBefore(prev, a, |a|), b, end, checked + |a|)
    decreases |a|
  {
    hide Recomputed;
    if a == [] {
      assert a + b == b;
    } else {
      assert Good(h, prev, a, 0);
      forall i | 0 <= i < |a[1..]|
        ensures Good(h, a[0].entryHash, a[1..], i) && !Beyond(a[1..][i], end)
      {
        GoodTail(h, prev, a, i + 1);
      }
      assert (a + b)[1..] == a[1..] + b;
      ScanSkips(h, a[0].entryHash, a[1..], b, end, checked + 1);
    }
  }

  /** Without an end the pass accepts exactly the chains whose every row is good, and counts them all. */
  ghost predicate Linked(h: Hasher, prev: Bytes, rows: seq<Entry>) {
    forall i | 0 <= i < |rows| :: Good(h, prev, rows, i)
  }

  lemma ScanAll(h: Hasher, prev: Bytes, rows: seq<Entry>)
    ensures Scan(h, prev, rows, None, 0).chainValid <==> Linked(h, prev, rows)
    ensures Linked(h, prev, rows) ==> Scan(h, prev, rows, None, 0) == Verdict(true, |rows|, None, NoFailure)
  {
    ScanAccepts(h, prev, rows, None, 0);
    assert forall i | 0 <= i < |rows| :: InRange(rows, None, i);
    if Linked(h, prev, rows) {
      ScanSkips(h, prev, rows, [], None, 0);
      assert rows + [] == rows;
    }
  }

  // --------------------------------------------------- the tip commits to history

  /** The preimages of the entries of a chain. */
  function Preimages(c: seq<Entry>): set<Bytes> {
    set e | e in c && Preimage(e.hashVersion, InputOf(e)).Some? :: Preimage(e.hashVersion, InputOf(e)).value
  }

  /** Two different members of the given finite set of byte strings hash alike. */
  ghost predicate HasCollision(h: Hasher, texts: set<Bytes>) {
    exists x, y | x in texts && y in texts :: x != y && h(x) == h(y)
  }

  /** There is none exactly if the hash tells these texts apart. */
  lemma NoCollision(h: Hasher, texts: set<Bytes>)
    ensures !HasCollision(h, texts) <==> forall x, y | x in texts && y in texts && h(x) == h(y) :: x == y
  {
  }

  /** Same version and same content in every field that version binds. */
  predicate SameBoundEntry(a: Entry, b: Entry) {
    a.hashVersion == b.hashVersion && SameBound(a.hashVersion, InputOf(a), InputOf(b))
  }

  lemma GoodHasPreimage(h: Hasher, prev: Bytes, rows: seq<Entry>, i: int) returns (p: Bytes)
    requires 0 <= i < |rows| && Good(h, prev, rows, i)
    ensures Preimage(rows[i].hashVersion, InputOf(rows[i])) == Some(p) && h(p) == rows[i].entryHash
    ensures p in Preimages(rows)
  {
    p := Preimage(rows[i].hashVersion, InputOf(rows[i])).value;
    assert rows[i] in rows;
  }

  /** Rows with the same hash hash the same text, so they agree on everything the text binds. */
  lemma SameHashSameEntry(h: Hasher, prev: Bytes, a: seq<Entry>, i: int, b: seq<Entry>, j: int, texts: set<Bytes>)
    requires 0 <= i < |a| && Good(h, prev, a, i) && 0 <= j < |b| && Good(h, prev, b, j)
    requires a[i].entryHash == b[j].entryHash
    requires Preimages(a) <= texts && Preimages(b) <= texts && !HasCollision(h, texts)
    ensures SameBoundEntry(a[i], b[j])
    ensures a[i].previousHash == b[j].previousHash && a[i].chainPosition == b[j].chainPosition
  {
    hide Preimage, HashForVersion, Good;
    var p := GoodHasPreimage(h, prev, a, i);
    var q := GoodHasPreimage(h, prev, b, j);
    assert p == q;
    PreimageExact(a[i].hashVersion, InputOf(a[i]), b[j].hashVersion, InputOf(b[j]));
  }

  lemma NotGenesis(h: Hasher, g: Bytes, a: seq<Entry>, i: int, texts: set<Bytes>)
    requires NotAnEnvelope(g) && Linked(h, h(g), a) && 0 <= i < |a|
    requires Preimages(a) <= texts && g in texts && !HasCollision(h, texts)
    ensures a[i].entryHash != h(g)
  {
    var p := GoodHasPreimage(h, h(g), a, i);
    GenesisIsNoPreimage(g, a[i].hashVersion, InputOf(a[i]));
  }

  lemma PreimagesOfPrefix(a: seq<Entry>, n: nat)
    requires n <= |a|
    ensures Preimages(a[..n]) <= Preimages(a)
  {
    assert forall e | e in a[..n] :: e in a;
  }

  lemma LinkedPrefix(h: Hasher, prev: Bytes, a: seq<Entry>, n: nat)
    requires n <= |a| && Linked(h, prev, a)
    ensures Linked(h, prev, a[..n])
  {
    forall i | 0 <= i < n
      ensures Good(h, prev, a[..n], i)
    {
      assert Good(h, prev, a, i);
    }
  }

  lemma {:induction false} SameTipSameChain(h: Hasher, g: Bytes, a: seq<Entry>, b: seq<Entry>, texts: set<Bytes>)
    requires NotAnEnvelope(g) && a != [] && b != []
    requires Linked(h, h(g), a) && Linked(h, h(g), b)
    requires a[|a| - 1].entryHash == b[|b| - 1].entryHash
    requires Preimages(a) <= texts && Preimages(b) <= texts && g in texts && !HasCollision(h, texts)
    ensures |a| == |b| && forall i | 0 <= i < |a| :: SameBoundEntry(a[i], b[i]) && a[i].entryHash == b[i].entryHash
    decreases |a|
  {
    hide HashForVersion, Preimage, Preimages, SameBoundEntry, HasCollision, NotAnEnvelope;
    var m, n := |a| - 1, |b| - 1;
    SameHashSameEntry(h, h(g), a, m, b, n, texts);
    assert Good(h, h(g), a, m) && Good(h, h(g), b, n);
    assert a[m].previousHash == b[n].previousHash;
    if m > 0 && n > 0 {
      LinkedPrefix(h, h(g), a, m);
      LinkedPrefix(h, h(g), b, n);
      PreimagesOfPrefix(a, m);
      PreimagesOfPrefix(b, n);
      SameTipSameChain(h, g, a[..m], b[..n], texts);
      assert forall i | 0 <= i < m :: a[i] == a[..m][i] && b[i] == b[..n][i];
    } else if m > 0 {
      NotGenesis(h, g, a, m - 1, texts);
    } else if n > 0 {
      NotGenesis(h, g, b, n - 1, texts);
    }
  }

  /** Two accepted chains with the same last hash have the same length and agree, entry by entry, on the version
      and on every field that version binds; or two of the texts these very chains hash collide. */
  lemma TipCommitsToHistory(h: Hasher, g: Bytes, left: seq<Entry>, right: seq<Entry>)
    requires NotAnEnvelope(g)
    requires Verification(h, g, left, 1, None).chainValid && Verification(h, g, right, 1, None).chainValid
    requires var a, b := After(left, 0), After(right, 0);
             a != [] && b != [] && a[|a| - 1].entryHash == b[|b| - 1].entryHash
    ensures var a, b := After(left, 0), After(right, 0);
            || HasCollision(h, Preimages(a) + Preimages(b) + {g})
            || (|a| == |b| && forall i | 0 <= i < |a| :: SameBoundEntry(a[i], b[i]) && a[i].entryHash == b[i].entryHash)
  {
    var a, b := After(left, 0), After(right, 0);
    ScanAll(h, h(g), a);
    ScanAll(h, h(g), b);
    var texts := Preimages(a) + Preimages(b) + {g};
    if !HasCollision(h, texts) {
      SameTipSameChain(h, g, a, b, texts);
    }
  }

  // ------------------------------------------------------------ reachable chains

  /** A chain the service built: consistent, and its first entry links to the genesis hash. */
  ghost predicate FromGenesis(h: Hasher, g: Bytes, t: Bytes, c: seq<Entry>) {
    ChainOk(h, t, c) && (c != [] ==> c[0].previousHash == h(g))
  }

  /** Positions are 1..n in order. */
  ghost predicate Contiguous(rows: seq<Entry>) {
    forall i | 0 <= i < |rows| :: rows[i].chainPosition == i + 1
  }

  lemma FromGenesisIsLinked(h: Hasher, g: Bytes, t: Bytes, c: seq<Entry>)
    requires FromGenesis(h, g, t, c)
    ensures Linked(h, h(g), c) && Contiguous(c)
  {
    hide Recomputed;
    forall i | 0 <= i < |c|
      ensures Good(h, h(g), c, i) && c[i].chainPosition == i + 1
    {
      assert EntryOk(h, t, c, i);
    }
  }

  lemma {:induction false} AfterAll(rows: seq<Entry>, p: int)
    requires forall i | 0 <= i < |rows| :: rows[i].chainPosition > p
    ensures After(rows, p) == rows
  {
    if rows != [] {
      AfterAll(rows[1..], p);
    }
  }

  lemma {:induction false} AfterRun(rows: seq<Entry>, base: int, p: int)
    requires forall i | 0 <= i < |rows| :: rows[i].chainPosition == base + i + 1
    requires base <= p <= base + |rows|
    ensures After(rows, p) == rows[p - base..]
    decreases |rows|
  {
    if p == base {
      AfterAll(rows, p);
    } else {
      AfterRun(rows[1..], base + 1, p);
    }
  }

  lemma AfterContiguous(rows: seq<Entry>, p: nat)
    requires Contiguous(rows) && p <= |rows|
    ensures After(rows, p) == rows[p..]
    ensures p < |rows| ==> Page(rows, p, 1) == [rows[p]]
    ensures p == |rows| ==> Page(rows, p, 1) == []
  {
    AfterRun(rows, 0, p);
  }

  /** On contiguous rows the check of a range is the pass over the slice, from the hash before it. */
  lemma RangeCheck(h: Hasher, g: Bytes, rows: seq<Entry>, start: int, end: Option<int>)
    requires Contiguous(rows) && 1 <= start <= |rows| + 1
    ensures Verification(h, g, rows, start, end)
         == Scan(h, HashBefore(h(g), rows, start - 1), rows[start - 1..], end, 0)
  {
    hide HashForVersion, Scan, Page, After, Contiguous;
    AfterContiguous(rows, start - 1);
    if start > 1 {
      AfterContiguous(rows, start - 2);
    }
  }

  /** The rows of positions `start` to `end` are all good. */
  ghost predicate SliceGood(h: Hasher, g: Bytes, rows: seq<Entry>, start: int, end: int)
    requires 1 <= start <= end <= |rows|
  {
    forall i | start - 1 <= i < end :: Good(h, h(g), rows, i)
  }

  lemma SliceRow(h: Hasher, g: Bytes, rows: seq<Entry>, start: int, end: int, i: nat)
    requires Contiguous(rows) && 1 <= start <= end <= |rows| && i < |rows| - (start - 1)
    ensures var slice := rows[start - 1..];
            && (InRange(slice, Some(end), i) <==> i < end - start + 1)
            && (Good(h, HashBefore(h(g), rows, start - 1), slice, i) <==> Good(h, h(g), rows, start - 1 + i))
  {
    hide HashForVersion;
    var slice := rows[start - 1..];
    assert forall j | 0 <= j <= i :: slice[j].chainPosition == start + j;
    if i >= end - start + 1 {
      assert Beyond(slice[i], Some(end));
    }
  }

  lemma SliceAccepted(h: Hasher, g: Bytes, rows: seq<Entry>, start: int, end: int)
    requires Contiguous(rows) && 1 <= start <= end <= |rows|
    requires SliceGood(h, g, rows, start, end)
    ensures Scan(h, HashBefore(h(g), rows, start - 1), rows[start - 1..], Some(end), 0)
         == Verdict(true, end - start + 1, None, NoFailure)
  {
    hide HashForVersion;
    var prev := HashBefore(h(g), rows, start - 1);
    var slice := rows[start - 1..];
    var n := end - start + 1;
    forall i | 0 <= i < n
      ensures Good(h, prev, slice[..n], i) && !Beyond(slice[..n][i], Some(end))
    {
      SliceRow(h, g, rows, start, end, i);
      assert Good(h, h(g), rows, start - 1 + i);
      assert Good(h, prev, slice, i);
    }
    assert slice == slice[..n] + slice[n..];
    ScanSkips(h, prev, slice[..n], slice[n..], Some(end), 0);
  }

  /** On contiguous rows a range is accepted exactly when its rows are good, and is counted in full. */
  lemma RangeAccepted(h: Hasher, g: Bytes, rows: seq<Entry>, start: int, end: int)
    requires Contiguous(rows) && 1 <= start <= end <= |rows|
    ensures var v := Verification(h, g, rows, start, Some(end));
            && (v.chainValid <==> SliceGood(h, g, rows, start, end))
            && (v.chainValid ==> v == Verdict(true, end - start + 1, None, NoFailure))
  {
    hide HashForVersion, Good, InRange;
    var prev := HashBefore(h(g), rows, start - 1);
    RangeCheck(h, g, rows, start, Some(end));
    if SliceGood(h, g, rows, start, end) {
      SliceAccepted(h, g, rows, start, end);
    } else {
      var i :| start - 1 <= i < end && !Good(h, h(g), rows, i);
      SliceRow(h, g, rows, start, end, i - (start - 1));
      ScanAccepts(h, prev, rows[start - 1..], Some(end), 0);
    }
  }

  /** Ranges compose: 1..n is accepted exactly when 1..k and k+1..n both are. */
  lemma RangesCompose(h: Hasher, g: Bytes, rows: seq<Entry>, k: int, n: int)
    requires Contiguous(rows) && 1 <= k < n <= |rows|
    ensures Verification(h, g, rows, 1, Some(n)).chainValid
       <==> Verification(h, g, rows, 1, Some(k)).chainValid && Verification(h, g, rows, k + 1, Some(n)).chainValid
  {
    hide Recomputed, Verification;
    RangeAccepted(h, g, rows, 1, n);
    RangeAccepted(h, g, rows, 1, k);
    RangeAccepted(h, g, rows, k + 1, n);
  }

  /** Every range of a good chain is accepted and counted in full, and so is the whole chain, whatever versions of the
      envelope its entries were hashed with. */
  lemma LinkedVerifies(h: Hasher, g: Bytes, c: seq<Entry>)
    requires Linked(h, h(g), c) && Contiguous(c)
    ensures Verification(h, g, c, 1, None) == Verdict(true, |c|, None, NoFailure)
    ensures forall start, end | 1 <= start <= end <= |c| ::
              Verification(h, g, c, start, Some(end)) == Verdict(true, end - start + 1, None, NoFailure)
  {
    hide HashForVersion;
    AfterContiguous(c, 0);
    ScanAll(h, h(g), c);
    forall start, end | 1 <= start <= end <= |c|
      ensures Verification(h, g, c, start, Some(end)) == Verdict(true, end - start + 1, None, NoFailure)
    {
      RangeAccepted(h, g, c, start, end);
    }
  }

  // ----------------------------------------------------------- deleted entries

  /** What is left of a chain when only the entries at the kept positions stay. */
  function Survivors(c: seq<Entry>, kept: set<int>): seq<Entry> {
    if c == [] then []
    else
      var last := c[|c| - 1];
      Survivors(c[..|c| - 1], kept) + (if last.chainPosition in kept then [last] else [])
  }

  function PositionBefore(rest: seq<Entry>, j: int): int
    requires 0 <= j <= |rest|
  {
    if j == 0 then 0 else rest[j - 1].chainPosition
  }

  /** Survivor `j` is its original entry, and no kept position lies between it and the survivor before it. */
  ghost predicate SurvivorAt(c: seq<Entry>, kept: set<int>, rest: seq<Entry>, j: int)
    requires 0 <= j < |rest|
  {
    var p := rest[j].chainPosition;
    && 0 <= PositionBefore(rest, j) < p <= |c| && rest[j] == c[p - 1] && p in kept
    && forall q | PositionBefore(rest, j) < q < p :: q !in kept
  }

  lemma {:induction false} SurvivorsAreOriginals(c: seq<Entry>, kept: set<int>)
    requires Contiguous(c)
    ensures var rest := Survivors(c, kept);
            && (forall j | 0 <= j < |rest| :: SurvivorAt(c, kept, rest, j))
            && 0 <= PositionBefore(rest, |rest|) <= |c|
            && (forall q | PositionBefore(rest, |rest|) < q <= |c| :: q !in kept)
    decreases |c|
  {
    if c != [] {
      var n := |c| - 1;
      var front := Survivors(c[..n], kept);
      SurvivorsAreOriginals(c[..n], kept);
      var rest := Survivors(c, kept);
      forall j | 0 <= j < |rest|
        ensures SurvivorAt(c, kept, rest, j)
      {
        if j < |front| {
          assert SurvivorAt(c[..n], kept, front, j);
          assert PositionBefore(rest, j) == PositionBefore(front, j);
        } else {
          assert PositionBefore(rest, j) == PositionBefore(front, |front|);
        }
      }
    }
  }

  /** Survivor `j` is the first whose predecessor is gone. */
  ghost predicate FirstOrphan(rest: seq<Entry>, kept: set<int>, j: int) {
    && 0 <= j < |rest|
    && rest[j].chainPosition > 1 && rest[j].chainPosition - 1 !in kept
    && forall i | 0 <= i < j :: rest[i].chainPosition == 1 || rest[i].chainPosition - 1 in kept
  }

  /** Up to the first orphan the survivors are the original chain. */
  lemma {:induction false} BeforeOrphan(c: seq<Entry>, kept: set<int>, j: nat)
    requires Contiguous(c) && j <= |Survivors(c, kept)|
    requires forall i | 0 <= i < j :: Survivors(c, kept)[i].chainPosition == 1 || Survivors(c, kept)[i].chainPosition - 1 in kept
    ensures j <= |c| && Survivors(c, kept)[..j] == c[..j]
    decreases j
  {
    if j > 0 {
      BeforeOrphan(c, kept, j - 1);
      SurvivorsAreOriginals(c, kept);
      var rest := Survivors(c, kept);
      assert SurvivorAt(c, kept, rest, j - 1);
      assert PositionBefore(rest, j - 1) == j - 1 by {
        if j > 1 {
          assert rest[..j - 1][j - 2] == c[..j - 1][j - 2];
        }
      }
      assert rest[j - 1].chainPosition == j;
      assert rest[..j] == rest[..j - 1] + [rest[j - 1]] && c[..j] == c[..j - 1] + [c[j - 1]];
    }
  }

  /** The survivors are a prefix of the chain exactly when none of them is an orphan. */
  lemma OrphanOrPrefix(c: seq<Entry>, kept: set<int>) returns (j: int)
    requires Contiguous(c)
    ensures 0 <= j <= |Survivors(c, kept)|
    ensures j == |Survivors(c, kept)| <==> Survivors(c, kept) <= c
    ensures j < |Survivors(c, kept)| ==> FirstOrphan(Survivors(c, kept), kept, j)
    ensures j <= |c| && Survivors(c, kept)[..j] == c[..j]
  {
    var rest := Survivors(c, kept);
    j := 0;
    while j < |rest| && (rest[j].chainPosition == 1 || rest[j].chainPosition - 1 in kept)
      invariant 0 <= j <= |rest|
      invariant forall i | 0 <= i < j :: rest[i].chainPosition == 1 || rest[i].chainPosition - 1 in kept
    {
      j := j + 1;
    }
    BeforeOrphan(c, kept, j);
    if j < |rest| {
      SurvivorsAreOriginals(c, kept);
      assert SurvivorAt(c, kept, rest, j);
      assert rest[j].chainPosition > 1;
      assert rest[j].chainPosition != j + 1 && !(rest <= c) by {
        if j > 0 {
          assert SurvivorAt(c, kept, rest, j - 1);
          assert rest[..j][j - 1] == c[..j][j - 1];
        }
      }
    }
  }

  /** The link of an orphan cannot match the hash of the survivor before it, nor the genesis hash. */
  lemma OrphanLink(h: Hasher, g: Bytes, c: seq<Entry>, m: nat, p: nat)
    requires Linked(h, h(g), c) && Contiguous(c) && NotAnEnvelope(g)
    requires m < p < |c|
    requires !HasCollision(h, Preimages(c) + {g})
    ensures c[p].previousHash != HashBefore(h(g), c, m)
  {
    hide HashForVersion, Preimage, Preimages, SameBoundEntry, HasCollision, NotAnEnvelope;
    assert Good(h, h(g), c, p);
    NotGenesis(h, g, c, p - 1, Preimages(c) + {g});
    if m > 0 && c[p - 1].entryHash == c[m - 1].entryHash {
      SameHashSameEntry(h, h(g), c, p - 1, c, m - 1, Preimages(c) + {g});
    }
  }

  /** The pass runs through the undisturbed front of the survivors. */
  lemma FrontPasses(h: Hasher, g: Bytes, c: seq<Entry>, rest: seq<Entry>, j: nat)
    requires Linked(h, h(g), c) && Contiguous(c) && j <= |c| && j <= |rest| && rest[..j] == c[..j]
    ensures Scan(h, h(g), rest, None, 0) == Scan(h, HashBefore(h(g), c, j), rest[j..], None, j)
  {
    hide HashForVersion, Good;
    LinkedPrefix(h, h(g), c, j);
    assert rest == c[..j] + rest[j..];
    ScanSkips(h, h(g), c[..j], rest[j..], None, 0);
    assert HashBefore(h(g), c[..j], j) == HashBefore(h(g), c, j);
  }

  lemma SurvivorsFromOne(c: seq<Entry>, kept: set<int>)
    requires Contiguous(c)
    ensures After(Survivors(c, kept), 0) == Survivors(c, kept)
  {
    var rest := Survivors(c, kept);
    SurvivorsAreOriginals(c, kept);
    assert forall j | 0 <= j < |rest| :: SurvivorAt(c, kept, rest, j) && rest[j].chainPosition > 0;
    AfterAll(rest, 0);
  }

  lemma OrphanReported(h: Hasher, g: Bytes, c: seq<Entry>, kept: set<int>, j: nat)
    requires Linked(h, h(g), c) && Contiguous(c) && NotAnEnvelope(g) && !HasCollision(h, Preimages(c) + {g})
    requires FirstOrphan(Survivors(c, kept), kept, j) && j <= |c| && Survivors(c, kept)[..j] == c[..j]
    ensures var rest := Survivors(c, kept);
            Scan(h, HashBefore(h(g), c, j), rest[j..], None, j)
            == Verdict(false, j + 1, Some(rest[j].entryId), ChainLinkMismatch)
  {
    hide HashForVersion, Preimages, HasCollision, Survivors, NotAnEnvelope;
    OrphanIsLater(c, kept, j);
    OrphanLink(h, g, c, j, Survivors(c, kept)[j].chainPosition - 1);
  }

  lemma OrphanIsLater(c: seq<Entry>, kept: set<int>, j: nat)
    requires Contiguous(c) && FirstOrphan(Survivors(c, kept), kept, j)
    requires j <= |c| && Survivors(c, kept)[..j] == c[..j]
    ensures var p := Survivors(c, kept)[j].chainPosition - 1;
            j < p < |c| && Survivors(c, kept)[j] == c[p]
  {
    var rest := Survivors(c, kept);
    SurvivorsAreOriginals(c, kept);
    assert SurvivorAt(c, kept, rest, j);
    if j > 0 {
      assert SurvivorAt(c, kept, rest, j - 1);
      assert rest[..j][j - 1] == c[..j][j - 1];
    }
  }

  /** Delete any entries from a good chain, of either version of the envelope. What is left is accepted exactly when it is a prefix;
      otherwise the first survivor whose predecessor is gone is reported, as a broken link and with the count up
      to it. The alternative is a collision among the texts this chain hashes. */
  lemma DeletionDetected(h: Hasher, g: Bytes, c: seq<Entry>, kept: set<int>)
    requires Linked(h, h(g), c) && Contiguous(c) && NotAnEnvelope(g)
    ensures var rest := Survivors(c, kept);
            var v := Verification(h, g, rest, 1, None);
            || HasCollision(h, Preimages(c) + {g})
            || (&& (v.chainValid <==> rest <= c)
                && (v.chainValid ==> v == Verdict(true, |rest|, None, NoFailure))
                && (!v.chainValid ==> exists j :: FirstOrphan(rest, kept, j)
                                         && v == Verdict(false, j + 1, Some(rest[j].entryId), ChainLinkMismatch)))
  {
    hide HashForVersion, Preimage, Good;
    var rest := Survivors(c, kept);
    SurvivorsFromOne(c, kept);
    var j := OrphanOrPrefix(c, kept);
    FrontPasses(h, g, c, rest, j);
    if j < |rest| && !HasCollision(h, Preimages(c) + {g}) {
      OrphanReported(h, g, c, kept, j);
    }
  }
}
