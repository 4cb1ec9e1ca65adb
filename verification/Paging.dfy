/**
 Queries and the loops that follow their pages: the filter, sort and slice of the repository
 (src/repository/mod.rs), the offset tokens of the service (src/service/mod.rs), the Python client's loop
 (sdks/python/ledger_client.py) and the gateway's capped loop (api/gateway.py).
 */
module Paging {
  import opened Options
  import opened ByteText
  import opened Ledger

  const USIZE_MAX: nat := 0xffff_ffff_ffff_ffff

  /** The filters of `EntryQuery`. */
  datatype Filters = Filters(
    entryTypePrefix: Option<Bytes>,
    agentId: Option<Bytes>,
    sourceId: Option<Bytes>,
    correlationId: Option<Bytes>,
    fromTsMs: Option<int>,
    toTsMs: Option<int>)

  predicate Selects(q: Filters, e: Entry) {
    && (q.entryTypePrefix.Some? ==> q.entryTypePrefix.value <= e.req.entryType)
    && (q.agentId.Some? ==> e.req.agentId == q.agentId.value)
    && (q.sourceId.Some? ==> e.req.sourceId == q.sourceId.value)
    && (q.correlationId.Some? ==> e.req.correlationId == q.correlationId)
    && (q.fromTsMs.Some? ==> e.writtenTsMs >= q.fromTsMs.value)
    && (q.toTsMs.Some? ==> e.writtenTsMs <= q.toTsMs.value)
  }

  // ------------------------------------------------------- filter and sort

  function Filter(s: seq<Entry>, keep: Entry -> bool): seq<Entry> {
    if s == [] then []
    else
      var front := Filter(s[..|s| - 1], keep);
      if keep(s[|s| - 1]) then front + [s[|s| - 1]] else front
  }

  /** `Vec::retain`. */
  method Retain(s: seq<Entry>, keep: Entry -> bool) returns (out: seq<Entry>)
    ensures out == Filter(s, keep)
  {
    out := [];
    var i := 0;
    while i < |s|
      invariant 0 <= i <= |s|
      invariant out == Filter(s[..i], keep)
    {
      assert s[..i + 1][..i] == s[..i];
      if keep(s[i]) {
        out := out + [s[i]];
      }
      i := i + 1;
    }
    assert s[..i] == s;
  }

  lemma {:induction false} FilterTwice(s: seq<Entry>, p: Entry -> bool, q: Entry -> bool, both: Entry -> bool)
    requires forall e :: both(e) <==> p(e) && q(e)
    ensures Filter(Filter(s, p), q) == Filter(s, both)
    decreases |s|
  {
    if s != [] {
      var n := |s| - 1;
      FilterTwice(s[..n], p, q, both);
      var front := Filter(s[..n], p);
      assert (front + [s[n]])[..|front|] == front;
    }
  }

  lemma {:induction false} FilterAll(s: seq<Entry>, p: Entry -> bool)
    requires forall e :: p(e)
    ensures Filter(s, p) == s
    decreases |s|
  {
    if s != [] {
      FilterAll(s[..|s| - 1], p);
      assert s == s[..|s| - 1] + [s[|s| - 1]];
    }
  }

  /** The `k`-th filter of the chain; a filter that is not set lets everything through. */
  predicate Condition(q: Filters, k: int, e: Entry) {
    if k == 1 then q.entryTypePrefix.Some? ==> q.entryTypePrefix.value <= e.req.entryType
    else if k == 2 then q.agentId.Some? ==> e.req.agentId == q.agentId.value
    else if k == 3 then q.sourceId.Some? ==> e.req.sourceId == q.sourceId.value
    else if k == 4 then q.correlationId.Some? ==> e.req.correlationId == q.correlationId
    else if k == 5 then q.fromTsMs.Some? ==> e.writtenTsMs >= q.fromTsMs.value
    else q.toTsMs.Some? ==> e.writtenTsMs <= q.toTsMs.value
  }

  predicate FirstConditions(q: Filters, k: nat, e: Entry) {
    forall j | 1 <= j <= k :: Condition(q, j, e)
  }

  function Stage(q: Filters, k: nat): Entry -> bool {
    e => FirstConditions(q, k, e)
  }

  function Selector(q: Filters): Entry -> bool {
    e => Selects(q, e)
  }

  function Passes(q: Filters, k: int): Entry -> bool {
    e => Condition(q, k, e)
  }

  lemma StageStep(values: seq<Entry>, q: Filters, k: nat)
    requires k >= 1
    ensures Filter(Filter(values, Stage(q, k - 1)), Passes(q, k)) == Filter(values, Stage(q, k))
    ensures (forall e :: Condition(q, k, e)) ==> Filter(values, Stage(q, k - 1)) == Filter(values, Stage(q, k))
  {
    FilterTwice(values, Stage(q, k - 1), Passes(q, k), Stage(q, k));
    if forall e :: Condition(q, k, e) {
      FilterAll(Filter(values, Stage(q, k - 1)), Passes(q, k));
    }
  }

  lemma AllStages(values: seq<Entry>, q: Filters)
    ensures Filter(values, Stage(q, 6)) == Filter(values, Selector(q))
  {
    forall e
      ensures FirstConditions(q, 6, e) <==> Selects(q, e)
    {
      if FirstConditions(q, 6, e) {
        assert Condition(q, 1, e) && Condition(q, 2, e) && Condition(q, 3, e);
        assert Condition(q, 4, e) && Condition(q, 5, e) && Condition(q, 6, e);
      }
    }
    FilterSame(values, Stage(q, 6), Selector(q));
  }

  lemma {:induction false} FilterSame(s: seq<Entry>, p: Entry -> bool, q: Entry -> bool)
    requires forall e :: p(e) <==> q(e)
    ensures Filter(s, p) == Filter(s, q)
    decreases |s|
  {
    if s != [] {
      FilterSame(s[..|s| - 1], p, q);
    }
  }

  /** `apply_query_filters`: one retain per filter that is set, in this order. */
  method ApplyQueryFilters(values: seq<Entry>, q: Filters) returns (out: seq<Entry>)
    ensures out == Filter(values, Selector(q))
  {
    hide Filter, Stage, Passes, Selector;
    out := values;
    FilterAllStage(values, q);
    if q.entryTypePrefix.Some? { out := Retain(out, Passes(q, 1)); }
    StageStep(values, q, 1);
    if q.agentId.Some? { out := Retain(out, Passes(q, 2)); }
    StageStep(values, q, 2);
    if q.sourceId.Some? { out := Retain(out, Passes(q, 3)); }
    StageStep(values, q, 3);
    if q.correlationId.Some? { out := Retain(out, Passes(q, 4)); }
    StageStep(values, q, 4);
    if q.fromTsMs.Some? { out := Retain(out, Passes(q, 5)); }
    StageStep(values, q, 5);
    if q.toTsMs.Some? { out := Retain(out, Passes(q, 6)); }
    StageStep(values, q, 6);
    AllStages(values, q);
  }

  lemma FilterAllStage(values: seq<Entry>, q: Filters)
    ensures Filter(values, Stage(q, 0)) == values
  {
    FilterAll(values, Stage(q, 0));
  }

  lemma {:induction false} FilterKeeps(s: seq<Entry>, p: Entry -> bool, e: Entry)
    ensures multiset(Filter(s, p))[e] == if p(e) then multiset(s)[e] else 0
    decreases |s|
  {
    if s != [] {
      FilterKeeps(s[..|s| - 1], p, e);
      assert s == s[..|s| - 1] + [s[|s| - 1]];
    }
  }

  /** The sort key of a listing: time in milliseconds, then chain position. */
  predicate NotAfter(a: Entry, b: Entry) {
    a.writtenTsMs < b.writtenTsMs || (a.writtenTsMs == b.writtenTsMs && a.chainPosition <= b.chainPosition)
  }

  predicate InOrder(s: seq<Entry>) {
    forall i, j | 0 <= i < j < |s| :: NotAfter(s[i], s[j])
  }

  /** Puts `e` after every entry that does not sort after it. */
  function InsertSorted(s: seq<Entry>, e: Entry): seq<Entry> {
    if s == [] || NotAfter(s[|s| - 1], e) then s + [e]
    else InsertSorted(s[..|s| - 1], e) + [s[|s| - 1]]
  }

  /** `sort_by_key`, a stable sort. */
  function StableSort(s: seq<Entry>): seq<Entry> {
    if s == [] then [] else InsertSorted(StableSort(s[..|s| - 1]), s[|s| - 1])
  }

  /** Everything in order before `last`, and an entry that sorts before it, stay before it. */
  lemma LastStaysLast(front: seq<Entry>, e: Entry, t: seq<Entry>, last: Entry)
    requires InOrder(front + [last]) && NotAfter(e, last) && InOrder(t) && multiset(t) == multiset(front) + multiset{e}
    ensures InOrder(t + [last])
  {
    hide NotAfter;
    var s := front + [last];
    assert forall i | 0 <= i < |front| :: s[i] == front[i] && NotAfter(s[i], s[|front|]);
    forall i | 0 <= i < |t|
      ensures NotAfter(t[i], last)
    {
      assert t[i] in multiset(t);
      assert t[i] == e || t[i] in front;
    }
  }

  lemma {:induction false} InsertSortedExact(s: seq<Entry>, e: Entry)
    requires InOrder(s)
    ensures InOrder(InsertSorted(s, e)) && multiset(InsertSorted(s, e)) == multiset(s) + multiset{e}
    decreases |s|
  {
    if s != [] && !NotAfter(s[|s| - 1], e) {
      var front, last := s[..|s| - 1], s[|s| - 1];
      assert s == front + [last];
      InsertSortedExact(front, e);
      LastStaysLast(front, e, InsertSorted(front, e), last);
    } else {
      AtTheEnd(s, e);
    }
  }

  lemma AtTheEnd(s: seq<Entry>, e: Entry)
    requires InOrder(s) && (s == [] || NotAfter(s[|s| - 1], e))
    ensures InOrder(s + [e])
  {
    var n := |s| - 1;
    forall i | 0 <= i < |s|
      ensures NotAfter(s[i], e)
    {
      assert i < n ==> NotAfter(s[i], s[n]);
    }
  }

  lemma {:induction false} StableSortExact(s: seq<Entry>)
    ensures InOrder(StableSort(s)) && multiset(StableSort(s)) == multiset(s)
    decreases |s|
  {
    if s != [] {
      StableSortExact(s[..|s| - 1]);
      InsertSortedExact(StableSort(s[..|s| - 1]), s[|s| - 1]);
      assert s == s[..|s| - 1] + [s[|s| - 1]];
    }
  }

  /** Everything a query selects, in listing order; pages are slices of this. */
  function Listing(values: seq<Entry>, q: Filters): seq<Entry> {
    StableSort(Filter(values, Selector(q)))
  }

  function KeyIs(ts: int, position: int): Entry -> bool {
    (e: Entry) => e.writtenTsMs == ts && e.chainPosition == position
  }

  lemma FilterSnoc(s: seq<Entry>, e: Entry, p: Entry -> bool)
    ensures Filter(s + [e], p) == Filter(s, p) + (if p(e) then [e] else [])
  {
    assert (s + [e])[..|s|] == s;
  }

  lemma {:induction false} InsertIsStable(s: seq<Entry>, e: Entry, ts: int, position: int)
    ensures Filter(InsertSorted(s, e), KeyIs(ts, position)) == Filter(s + [e], KeyIs(ts, position))
    decreases |s|
  {
    var p := KeyIs(ts, position);
    FilterSnoc(s, e, p);
    if s != [] && !NotAfter(s[|s| - 1], e) {
      var front, last := s[..|s| - 1], s[|s| - 1];
      assert s == front + [last];
      InsertIsStable(front, e, ts, position);
      FilterSnoc(front, e, p);
      FilterSnoc(front, last, p);
      FilterSnoc(InsertSorted(front, e), last, p);
    }
  }

  lemma {:induction false} SortIsStable(s: seq<Entry>, ts: int, position: int)
    ensures Filter(StableSort(s), KeyIs(ts, position)) == Filter(s, KeyIs(ts, position))
    decreases |s|
  {
    if s != [] {
      var front, last, p := s[..|s| - 1], s[|s| - 1], KeyIs(ts, position);
      SortIsStable(front, ts, position);
      InsertIsStable(StableSort(front), last, ts, position);
      FilterSnoc(StableSort(front), last, p);
      FilterSnoc(front, last, p);
      assert s == front + [last];
    }
  }

  /** The listing is in order of time, then of position; it holds each stored entry as often as it is stored if every
      filter that is set lets it through, and not at all otherwise; and entries of the same time and position, which
      belong to different types, stay in the order of the store. */
  lemma ListingExact(values: seq<Entry>, q: Filters)
    ensures var all := Listing(values, q);
            forall i, j | 0 <= i < j < |all| ::
              || all[i].writtenTsMs < all[j].writtenTsMs
              || (all[i].writtenTsMs == all[j].writtenTsMs && all[i].chainPosition <= all[j].chainPosition)
    ensures forall e :: multiset(Listing(values, q))[e] ==
              if && (q.entryTypePrefix.None? || q.entryTypePrefix.value <= e.req.entryType)
                 && (q.agentId.None? || q.agentId.value == e.req.agentId)
                 && (q.sourceId.None? || q.sourceId.value == e.req.sourceId)
                 && (q.correlationId.None? || e.req.correlationId == Some(q.correlationId.value))
                 && (q.fromTsMs.None? || q.fromTsMs.value <= e.writtenTsMs)
                 && (q.toTsMs.None? || e.writtenTsMs <= q.toTsMs.value)
              then multiset(values)[e] else 0
    ensures forall ts, position ::
              Filter(Listing(values, q), KeyIs(ts, position)) == Filter(Filter(values, Selector(q)), KeyIs(ts, position))
  {
    var chosen := Filter(values, Selector(q));
    StableSortExact(chosen);
    var all := Listing(values, q);
    assert forall i, j | 0 <= i < j < |all| :: NotAfter(all[i], all[j]);
    forall e
      ensures multiset(Listing(values, q))[e] == if Selects(q, e) then multiset(values)[e] else 0
    {
      FilterKeeps(values, Selector(q), e);
    }
    forall ts, position
      ensures Filter(Listing(values, q), KeyIs(ts, position)) == Filter(chosen, KeyIs(ts, position))
    {
      SortIsStable(chosen, ts, position);
    }
  }

  lemma MultisetSize(a: seq<Entry>, b: seq<Entry>)
    requires multiset(a) == multiset(b)
    ensures |a| == |b|
  {
    assert |multiset(a)| == |a| && |multiset(b)| == |b|;
  }

  lemma {:induction false} FilterShorter(s: seq<Entry>, p: Entry -> bool)
    ensures |Filter(s, p)| <= |s|
    decreases |s|
  {
    if s != [] {
      FilterShorter(s[..|s| - 1], p);
    }
  }

  lemma ListingFits(values: seq<Entry>, q: Filters)
    ensures |Listing(values, q)| <= |values|
  {
    var chosen := Filter(values, Selector(q));
    StableSortExact(chosen);
    MultisetSize(Listing(values, q), chosen);
    FilterShorter(values, Selector(q));
  }

  // ------------------------------------------------------------------ tokens

  predicate AllDigits(b: Bytes) {
    forall i | 0 <= i < |b| :: IsDigit(b[i])
  }

  /** `raw.parse::<usize>()`: digits with an optional plus sign, within the range of the type. */
  function ParseUsize(raw: Bytes): Option<nat> {
    var digits := if raw != [] && raw[0] == PLUS then raw[1..] else raw;
    if digits == [] || !AllDigits(digits) then None
    else
      var n := ReadNat(0, digits).0;
      if n <= USIZE_MAX then Some(n) else None
  }

  lemma ParseDecimal(n: nat)
    requires n <= USIZE_MAX
    ensures ParseUsize(Decimal(n)) == Some(n)
  {
    ReadNatInvertsDecimal(n, []);
    assert Decimal(n) + [] == Decimal(n);
    assert IsDigit(Decimal(n)[0]);
  }

  /** The page size the service serves for a requested one. */
  function ServedSize(pageSize: int): nat {
    if pageSize <= 0 then 100 else if pageSize > 1000 then 1000 else pageSize
  }

  function OffsetOf(token: Option<Bytes>): nat {
    if token.None? then 0 else ParseUsize(token.value).GetOr(0)
  }

  /** What a token stands for: a decimal number within the range of the type for itself, with or without a plus sign and
      leading zeros; everything else for the beginning. */
  lemma TokenExact(raw: Bytes, n: nat)
    ensures OffsetOf(None) == 0
    ensures OffsetOf(Some(Decimal(n))) == if n <= 0xffff_ffff_ffff_ffff then n else 0
    ensures raw != [] && raw[0] != 43 ==> OffsetOf(Some([43] + raw)) == OffsetOf(Some(raw))
    ensures raw != [] && raw[0] != 43 ==> OffsetOf(Some([48] + raw)) == OffsetOf(Some(raw))
    ensures raw == [] || raw == [43] ==> OffsetOf(Some(raw)) == 0
    ensures (exists i | 0 <= i < |raw| :: !(48 <= raw[i] <= 57) && (i > 0 || raw[0] != 43)) ==> OffsetOf(Some(raw)) == 0
  {
    ReadNatInvertsDecimal(n, []);
    assert Decimal(n) + [] == Decimal(n);
    assert IsDigit(Decimal(n)[0]);
    assert ([43] + raw)[1..] == raw && ([48] + raw)[1..] == raw;
    assert AllDigits([48] + raw) <==> AllDigits(raw) by {
      assert forall i | 0 <= i < |raw| :: ([48] + raw)[i + 1] == raw[i];
    }
    if i :| 0 <= i < |raw| && !(48 <= raw[i] <= 57) && (i > 0 || raw[0] != 43) {
      assert raw[0] == 43 ==> raw[1..][i - 1] == raw[i];
    }
  }

  function Slice(s: seq<Entry>, offset: nat, limit: nat): seq<Entry> {
    if offset >= |s| then [] else if offset + limit >= |s| then s[offset..] else s[offset..offset + limit]
  }

  // ------------------------------------------------------------ the services

  /** One page as the gRPC layer sends it: an absent token is the empty text. */
  datatype PageAnswer = PageAnswer(entries: seq<Entry>, nextPageToken: Bytes, totalCount: nat)

  /** The stored entries in the order the map gives them, which is fixed while the map is not changed. */
  class EntryTable {
    const values: seq<Entry>

    constructor (values: seq<Entry>)
      ensures this.values == values
    {
      this.values := values;
    }

    /** `query_entries` of the repository. */
    method QueryEntries(q: Filters, limit: nat, offset: nat) returns (entries: seq<Entry>, totalCount: nat)
      ensures entries == Slice(Listing(values, q), offset, limit) && totalCount == |Listing(values, q)|
    {
      var chosen := ApplyQueryFilters(values, q);
      var sorted := StableSort(chosen);
      totalCount := |sorted|;
      entries := Slice(sorted, offset, limit);
    }

    /** `query_entries` of the service, behind the gRPC conversion of empty tokens. */
    method QueryPage(q: Filters, pageSize: int, pageToken: Bytes) returns (page: PageAnswer)
      ensures var all := Listing(values, q);
              var offset := OffsetOf(if pageToken == [] then None else Some(pageToken));
              var size := if pageSize <= 0 then 100 else if pageSize > 1000 then 1000 else pageSize;
              && page.entries == Slice(all, offset, ServedSize(pageSize))
              && page.entries == (if offset >= |all| then [] else all[offset..if offset + size < |all| then offset + size else |all|])
              && page.totalCount == |all|
              && page.nextPageToken == (if offset + |page.entries| < |all| then Decimal(offset + |page.entries|) else [])
    {
      hide Listing, ParseUsize;
      var size := ServedSize(pageSize);
      var offset := OffsetOf(if pageToken == [] then None else Some(pageToken));
      var entries, total := QueryEntries(q, size, offset);
      var nextOffset := offset + |entries|;
      page := PageAnswer(entries, if nextOffset < total then Decimal(nextOffset) else [], total);
    }
  }

  /** The pages up to an offset, and the token that leads on from there. */
  predicate Followed(all: seq<Entry>, got: seq<Entry>, token: Bytes) {
    && got <= all
    && (token == [] <==> |got| == |all|)
    && (token != [] ==> token == Decimal(|got|))
  }

  lemma NextPage(all: seq<Entry>, got: seq<Entry>, token: Bytes, size: nat)
    requires |all| <= USIZE_MAX && size >= 1 && got <= all
    requires if got == [] then token == [] else token == Decimal(|got|)
    ensures OffsetOf(if token == [] then None else Some(token)) == |got|
    ensures var more := got + Slice(all, |got|, size);
            && more <= all && (|got| < |all| ==> |more| > |got|)
            && |more| == (if |got| + size < |all| then |got| + size else |all|)
            && Followed(all, more, if |more| < |all| then Decimal(|more|) else [])
  {
    if got != [] {
      ParseDecimal(|got|);
    }
  }

  /** `LedgerClient.query`: follows the tokens to the end. From any requested page size it ends, with exactly the
      listing. */
  method ClientQuery(table: EntryTable, q: Filters, pageSize: int) returns (entries: seq<Entry>)
    requires |table.values| <= USIZE_MAX
    ensures entries == Listing(table.values, q)
  {
    hide Listing, Slice, OffsetOf;
    ghost var all := Listing(table.values, q);
    ListingFits(table.values, q);
    NextPage(all, [], [], ServedSize(pageSize));
    var resp := table.QueryPage(q, pageSize, []);
    entries := resp.entries;
    assert [] + resp.entries == entries;
    while resp.nextPageToken != []
      invariant Followed(all, entries, resp.nextPageToken)
      invariant |entries| == 0 ==> resp.nextPageToken == []
      decreases |all| - |entries|
    {
      NextPage(all, entries, resp.nextPageToken, ServedSize(pageSize));
      var pageToken := resp.nextPageToken;
      resp := table.QueryPage(q, pageSize, pageToken);
      entries := entries + resp.entries;
    }
  }

  /** Python's `entries[:k]`. */
  function SliceTo(s: seq<Entry>, k: int): seq<Entry> {
    if k >= |s| then s
    else if k >= 0 then s[..k]
    else if |s| + k > 0 then s[..|s| + k]
    else []
  }

  /** `_query_capped`: follows the tokens until the cap is reached. With a cap of at least one it returns the first
      min(total, cap) entries and says truncated exactly when total >= cap, so also when nothing was cut off.
      With a lower cap it looks at one page only. */
  method QueryCapped(table: EntryTable, q: Filters, maxEntries: int) returns (entries: seq<Entry>, truncated: bool)
    requires |table.values| <= USIZE_MAX
    ensures var all := Listing(table.values, q);
            && (maxEntries >= 1 ==> entries == SliceTo(all, maxEntries) && (truncated <==> |all| >= maxEntries))
            && (maxEntries <= 0 ==> entries == SliceTo(SliceTo(all, 100), maxEntries) && truncated)
    // The same, spelled out.
    ensures var all := Listing(table.values, q);
            var first := all[..if |all| < 100 then |all| else 100];
            && (maxEntries >= 1 ==> entries == all[..if |all| < maxEntries then |all| else maxEntries])
            && (maxEntries == 0 || (maxEntries < 0 && |first| + maxEntries <= 0) ==> entries == [])
            && (maxEntries < 0 && |first| + maxEntries > 0 ==> entries == first[..|first| + maxEntries])
  {
    hide Listing, Slice, OffsetOf, Decimal;
    ghost var all := Listing(table.values, q);
    ListingFits(table.values, q);
    entries := [];
    var pageToken := [];
    var pageSize := if maxEntries < 500 then maxEntries else 500;
    while true
      invariant entries <= all
      invariant if entries == [] then pageToken == [] else pageToken == Decimal(|entries|)
      invariant entries != [] ==> |entries| < |all| && |entries| < maxEntries
      decreases |all| - |entries|
    {
      NextPage(all, entries, pageToken, ServedSize(pageSize));
      var page := table.QueryPage(q, pageSize, pageToken);
      entries := entries + page.entries;
      if |entries| >= maxEntries {
        return SliceTo(entries, maxEntries), true;
      }
      if page.nextPageToken == [] {
        return entries, false;
      }
      pageToken := page.nextPageToken;
    }
  }

  /** A cap of at least one is reported as truncating although nothing was cut off exactly when it is the total. */
  lemma TruncatedYetWhole(all: seq<Entry>, maxEntries: int)
    requires maxEntries >= 1
    ensures |all| >= maxEntries && SliceTo(all, maxEntries) == all <==> |all| == maxEntries
  {
    if |all| > maxEntries {
      assert |SliceTo(all, maxEntries)| == maxEntries;
    }
  }

  /** A table with one selected entry, asked with a cap of one: `QueryCapped` answers everything there is and, by its
      contract, says truncated. */
  lemma OnlyEntryIsTruncated(e: Entry, q: Filters)
    requires Selects(q, e)
    ensures var all := Listing([e], q); all == [e] && SliceTo(all, 1) == all && |all| >= 1
  {
    assert Filter([e][..0], Selector(q)) == [];
    assert Filter([e], Selector(q)) == [e];
    assert StableSort([e][..0]) == [];
  }
}
