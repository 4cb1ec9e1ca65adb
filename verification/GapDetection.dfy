/**
 The completeness monitor of the CPEX adapter (adapters/cpex/cpex_to_ledger.py): an online detector with four
 dictionaries, proved to be silent exactly on complete histories and to count losses exactly.
 */
module GapDetection {
  import opened Options

  type Stream = string

  /** An epoch stamp: absent in the older record shape, an integer, or some other text. */
  datatype Epoch = NoEpoch | IntEpoch(number: int) | TextEpoch(text: string)

  datatype Stamp = Stamp(epoch: Epoch, stream: Stream, streamSeq: int, emissionSeq: Option<int>)

  datatype Alert =
    | Gap(stream: Stream, expected: int, got: int)
    | HeadGap(stream: Stream, epoch: Epoch, got: int)
    | EpochRegression(stream: Stream, number: int, newest: int)
    | Ordering(emissionSeq: int, previous: int)

  datatype Note = EpochChange(stream: Stream, previous: Epoch, epoch: Epoch, streamSeq: int)

  /** `STREAM_HEAD_SEQ`. */
  const STREAM_HEAD_SEQ := 0

  /** The dictionaries of the detector. */
  datatype Memory = Memory(
    lastSeq: map<(Epoch, Stream), int>,
    newestEpoch: map<Stream, int>,
    lastEmissionSeq: map<Epoch, int>,
    lastEpoch: map<Stream, Epoch>)

  const FRESH: Memory := Memory(map[], map[], map[], map[])

  // --------------------------------------------------------- one record

  function SeqAlerts(m: Memory, r: Stamp): seq<Alert> {
    if (r.epoch, r.stream) in m.lastSeq then
      var expected := m.lastSeq[(r.epoch, r.stream)] + 1;
      if r.streamSeq != expected then [Gap(r.stream, expected, r.streamSeq)] else []
    else if r.epoch != NoEpoch && r.streamSeq != STREAM_HEAD_SEQ then [HeadGap(r.stream, r.epoch, r.streamSeq)]
    else []
  }

  function EpochAlerts(m: Memory, r: Stamp): seq<Alert> {
    if r.epoch.IntEpoch? && r.stream in m.newestEpoch && r.epoch.number < m.newestEpoch[r.stream] then
      [EpochRegression(r.stream, r.epoch.number, m.newestEpoch[r.stream])]
    else []
  }

  function PreviousEmission(m: Memory, e: Epoch): int {
    if e in m.lastEmissionSeq then m.lastEmissionSeq[e] else -1
  }

  function EmissionAlerts(m: Memory, r: Stamp): seq<Alert> {
    if r.emissionSeq.Some? && r.emissionSeq.value <= PreviousEmission(m, r.epoch) then
      [Ordering(r.emissionSeq.value, PreviousEmission(m, r.epoch))]
    else []
  }

  function AlertsOf(m: Memory, r: Stamp): seq<Alert> {
    SeqAlerts(m, r) + EpochAlerts(m, r) + EmissionAlerts(m, r)
  }

  function NotesOf(m: Memory, r: Stamp): seq<Note> {
    if r.stream in m.lastEpoch && m.lastEpoch[r.stream] != r.epoch then
      [EpochChange(r.stream, m.lastEpoch[r.stream], r.epoch, r.streamSeq)]
    else []
  }

  function Advance(m: Memory, r: Stamp): Memory {
    Memory(m.lastSeq[(r.epoch, r.stream) := r.streamSeq],
           if r.epoch.IntEpoch? && (r.stream !in m.newestEpoch || r.epoch.number > m.newestEpoch[r.stream])
           then m.newestEpoch[r.stream := r.epoch.number] else m.newestEpoch,
           if r.emissionSeq.Some? then m.lastEmissionSeq[r.epoch := r.emissionSeq.value] else m.lastEmissionSeq,
           m.lastEpoch[r.stream := r.epoch])
  }

  /** The object the adapter keeps for a whole log. */
  class GapDetector {
    var lastSeq: map<(Epoch, Stream), int>
    var newestEpoch: map<Stream, int>
    var lastEmissionSeq: map<Epoch, int>
    var lastEpoch: map<Stream, Epoch>
    var notes: seq<Note>

    ghost function Recall(): Memory
      reads this
    {
      Memory(lastSeq, newestEpoch, lastEmissionSeq, lastEpoch)
    }

    constructor ()
      ensures Recall() == FRESH && notes == []
    {
      lastSeq, newestEpoch, lastEmissionSeq, lastEpoch, notes := map[], map[], map[], map[], [];
    }

    /** `pop_notes`. */
    method PopNotes() returns (popped: seq<Note>)
      modifies this`notes
      ensures popped == old(notes) && notes == []
    {
      popped, notes := notes, [];
    }

    /** `check`. */
    method Check(r: Stamp) returns (alerts: seq<Alert>)
      modifies this
      ensures alerts == AlertsOf(old(Recall()), r)
      ensures Recall() == Advance(old(Recall()), r)
      ensures notes == old(notes) + NotesOf(old(Recall()), r)
    {
      hide SeqAlerts, EpochAlerts, EmissionAlerts;
      var previousEpoch := if r.stream in lastEpoch then lastEpoch[r.stream] else r.epoch;
      if previousEpoch != r.epoch {
        notes := notes + [EpochChange(r.stream, previousEpoch, r.epoch, r.streamSeq)];
      }
      lastEpoch := lastEpoch[r.stream := r.epoch];
      AlertsByMap(old(Recall()), Recall(), r);
      var gaps := CheckSeq(r);
      AlertsByMap(old(Recall()), Recall(), r);
      var regressions := CheckEpoch(r);
      AlertsByMap(old(Recall()), Recall(), r);
      var disorders := CheckEmission(r);
      alerts := gaps + regressions + disorders;
    }

    method CheckSeq(r: Stamp) returns (alerts: seq<Alert>)
      modifies this`lastSeq
      ensures alerts == SeqAlerts(old(Recall()), r)
      ensures lastSeq == old(lastSeq)[(r.epoch, r.stream) := r.streamSeq]
    {
      alerts := [];
      var key := (r.epoch, r.stream);
      if key in lastSeq {
        var expected := lastSeq[key] + 1;
        if r.streamSeq != expected {
          alerts := [Gap(r.stream, expected, r.streamSeq)];
        }
      } else if r.epoch != NoEpoch && r.streamSeq != STREAM_HEAD_SEQ {
        alerts := [HeadGap(r.stream, r.epoch, r.streamSeq)];
      }
      lastSeq := lastSeq[key := r.streamSeq];
    }

    method CheckEpoch(r: Stamp) returns (alerts: seq<Alert>)
      modifies this`newestEpoch
      ensures alerts == EpochAlerts(old(Recall()), r)
      ensures newestEpoch == Advance(old(Recall()), r).newestEpoch
    {
      alerts := [];
      if r.epoch.IntEpoch? {
        if r.stream in newestEpoch && r.epoch.number < newestEpoch[r.stream] {
          alerts := [EpochRegression(r.stream, r.epoch.number, newestEpoch[r.stream])];
        } else if r.stream !in newestEpoch || r.epoch.number > newestEpoch[r.stream] {
          newestEpoch := newestEpoch[r.stream := r.epoch.number];
        }
      }
    }

    method CheckEmission(r: Stamp) returns (alerts: seq<Alert>)
      modifies this`lastEmissionSeq
      ensures alerts == EmissionAlerts(old(Recall()), r)
      ensures lastEmissionSeq == Advance(old(Recall()), r).lastEmissionSeq
    {
      alerts := [];
      var previousEmissionSeq := if r.epoch in lastEmissionSeq then lastEmissionSeq[r.epoch] else -1;
      if r.emissionSeq.Some? && r.emissionSeq.value <= previousEmissionSeq {
        alerts := [Ordering(r.emissionSeq.value, previousEmissionSeq)];
      }
      if r.emissionSeq.Some? {
        lastEmissionSeq := lastEmissionSeq[r.epoch := r.emissionSeq.value];
      }
    }
  }

  lemma AlertsByMap(m: Memory, n: Memory, r: Stamp)
    ensures m.lastSeq == n.lastSeq ==> SeqAlerts(m, r) == SeqAlerts(n, r)
    ensures m.newestEpoch == n.newestEpoch ==> EpochAlerts(m, r) == EpochAlerts(n, r)
    ensures m.lastEmissionSeq == n.lastEmissionSeq ==> EmissionAlerts(m, r) == EmissionAlerts(n, r)
  {
  }

  // -------------------------------------------------------- whole histories

  type Log = seq<Stamp>

  /** What the detector remembers after a log. */
  function After(log: Log): Memory {
    if log == [] then FRESH else Advance(After(log[..|log| - 1]), log[|log| - 1])
  }

  /** `check` has nothing to say on any record. */
  ghost predicate Silent(log: Log) {
    forall i | 0 <= i < |log| :: AlertsOf(After(log[..i]), log[i]) == []
  }

  /** The sequence numbers one epoch of one stream delivered, in order. */
  function SeqsOf(log: Log, e: Epoch, s: Stream): seq<int> {
    if log == [] then []
    else
      var r := log[|log| - 1];
      var q := SeqsOf(log[..|log| - 1], e, s);
      if r.epoch == e && r.stream == s then q + [r.streamSeq] else q
  }

  /** The integer epochs of a stream, in order of arrival. */
  function EpochsOf(log: Log, s: Stream): seq<int> {
    if log == [] then []
    else
      var r := log[|log| - 1];
      var q := EpochsOf(log[..|log| - 1], s);
      if r.epoch.IntEpoch? && r.stream == s then q + [r.epoch.number] else q
  }

  /** The emission numbers of an epoch, over all streams. */
  function EmissionsOf(log: Log, e: Epoch): seq<int> {
    if log == [] then []
    else
      var r := log[|log| - 1];
      var q := EmissionsOf(log[..|log| - 1], e);
      if r.epoch == e && r.emissionSeq.Some? then q + [r.emissionSeq.value] else q
  }

  /** Dense from the head; without an epoch there is no defined head, only consecutive numbers. */
  predicate Dense(e: Epoch, q: seq<int>) {
    forall i | 0 <= i < |q| :: q[i] == (if e == NoEpoch then q[0] else STREAM_HEAD_SEQ) + i
  }

  predicate NonDecreasing(q: seq<int>) {
    forall i, j | 0 <= i < j < |q| :: q[i] <= q[j]
  }

  predicate Increasing(q: seq<int>) {
    forall i, j | 0 <= i < j < |q| :: q[i] < q[j]
  }

  predicate FromZeroUp(q: seq<int>) {
    Increasing(q) && (q != [] ==> q[0] >= 0)
  }

  ghost predicate DenseStreams(log: Log) {
    forall e, s :: Dense(e, SeqsOf(log, e, s))
  }

  ghost predicate OrderedEpochs(log: Log) {
    forall s :: NonDecreasing(EpochsOf(log, s))
  }

  ghost predicate OrderedEmissions(log: Log) {
    forall e :: FromZeroUp(EmissionsOf(log, e))
  }

  /** Completeness of a history, with no detector in sight: section 7 of AID-EMIT-1. */
  ghost predicate Complete(log: Log) {
    DenseStreams(log) && OrderedEpochs(log) && OrderedEmissions(log)
  }

  // ------------------------------------------------- what is remembered

  function MaxOf(q: seq<int>): int
    requires q != []
  {
    if |q| == 1 then q[0]
    else
      var m := MaxOf(q[..|q| - 1]);
      if q[|q| - 1] > m then q[|q| - 1] else m
  }

  function Last(q: seq<int>): int
    requires q != []
  {
    q[|q| - 1]
  }

  /** The memory in terms of the history: the last sequence number of each epoch and stream. */
  lemma {:induction false} RemembersSeq(log: Log, e: Epoch, s: Stream)
    ensures var m := After(log);
            && ((e, s) in m.lastSeq <==> SeqsOf(log, e, s) != [])
            && ((e, s) in m.lastSeq ==> m.lastSeq[(e, s)] == Last(SeqsOf(log, e, s)))
    decreases |log|
  {
    if log != [] {
      RemembersSeq(log[..|log| - 1], e, s);
    }
  }

  /** The highest integer epoch of each stream. */
  lemma {:induction false} RemembersEpoch(log: Log, s: Stream)
    ensures var m := After(log);
            && (s in m.newestEpoch <==> EpochsOf(log, s) != [])
            && (s in m.newestEpoch ==> m.newestEpoch[s] == MaxOf(EpochsOf(log, s)))
    decreases |log|
  {
    if log != [] {
      RemembersEpoch(log[..|log| - 1], s);
      var r := log[|log| - 1];
      if r.epoch.IntEpoch? && r.stream == s {
        MaxOfSnoc(EpochsOf(log[..|log| - 1], s), r.epoch.number);
      }
    }
  }

  lemma MaxOfSnoc(q: seq<int>, x: int)
    ensures MaxOf(q + [x]) == if q == [] || x > MaxOf(q) then x else MaxOf(q)
  {
    assert (q + [x])[..|q|] == q;
  }

  /** The last emission number of each epoch. */
  lemma {:induction false} RemembersEmission(log: Log, e: Epoch)
    ensures var m := After(log);
            && (e in m.lastEmissionSeq <==> EmissionsOf(log, e) != [])
            && (e in m.lastEmissionSeq ==> m.lastEmissionSeq[e] == Last(EmissionsOf(log, e)))
    decreases |log|
  {
    if log != [] {
      RemembersEmission(log[..|log| - 1], e);
    }
  }

  lemma Snoc(log: Log, r: Stamp, e: Epoch, s: Stream)
    ensures SeqsOf(log + [r], e, s) == (if r.epoch == e && r.stream == s then SeqsOf(log, e, s) + [r.streamSeq] else SeqsOf(log, e, s))
    ensures EpochsOf(log + [r], s) == (if r.epoch.IntEpoch? && r.stream == s then EpochsOf(log, s) + [r.epoch.number] else EpochsOf(log, s))
    ensures EmissionsOf(log + [r], e) == (if r.epoch == e && r.emissionSeq.Some? then EmissionsOf(log, e) + [r.emissionSeq.value] else EmissionsOf(log, e))
    ensures After(log + [r]) == Advance(After(log), r)
  {
    assert (log + [r])[..|log|] == log;
  }

  lemma {:induction false} MaxOfNonDecreasing(q: seq<int>)
    requires q != [] && NonDecreasing(q)
    ensures MaxOf(q) == q[|q| - 1]
    decreases |q|
  {
    if |q| > 1 {
      MaxOfNonDecreasing(q[..|q| - 1]);
      assert q[|q| - 2] <= q[|q| - 1];
    }
  }

  // ---------------------------------------- every alert, told from the history

  /** Record `i` is the latest of the log that `p` holds of. */
  predicate Latest(log: Log, p: Stamp -> bool, i: int) {
    0 <= i < |log| && p(log[i]) && forall j | i < j < |log| :: !p(log[j])
  }

  function InEpochOfStream(e: Epoch, s: Stream): Stamp -> bool {
    (r: Stamp) => r.epoch == e && r.stream == s
  }

  function OfStream(s: Stream): Stamp -> bool {
    (r: Stamp) => r.stream == s
  }

  function EmittedIn(e: Epoch): Stamp -> bool {
    (r: Stamp) => r.epoch == e && r.emissionSeq.Some?
  }

  /** Record `i` has the highest integer epoch of its stream. */
  predicate Newest(log: Log, s: Stream, i: int) {
    && 0 <= i < |log| && log[i].stream == s && log[i].epoch.IntEpoch?
    && forall j | 0 <= j < |log| && log[j].stream == s && log[j].epoch.IntEpoch? :: log[j].epoch.number <= log[i].epoch.number
  }

  lemma LatestSnoc(log: Log, r: Stamp, p: Stamp -> bool, i: int)
    ensures Latest(log + [r], p, i) <==> if p(r) then i == |log| else Latest(log, p, i)
  {
    var all := log + [r];
    assert all[|log|] == r && forall j | 0 <= j < |log| :: all[j] == log[j];
  }

  /** The three entries that are overwritten are those of the latest record. */
  lemma {:induction false} MemoryIsLatest(log: Log, e: Epoch, s: Stream)
    ensures var m := After(log);
            && (forall i | Latest(log, InEpochOfStream(e, s), i) :: (e, s) in m.lastSeq && m.lastSeq[(e, s)] == log[i].streamSeq)
            && (forall i | Latest(log, OfStream(s), i) :: s in m.lastEpoch && m.lastEpoch[s] == log[i].epoch)
            && (forall i | Latest(log, EmittedIn(e), i) :: e in m.lastEmissionSeq && Some(m.lastEmissionSeq[e]) == log[i].emissionSeq)
            && ((e, s) in m.lastSeq ==> exists i :: Latest(log, InEpochOfStream(e, s), i))
            && (s in m.lastEpoch ==> exists i :: Latest(log, OfStream(s), i))
            && (e in m.lastEmissionSeq ==> exists i :: Latest(log, EmittedIn(e), i))
    decreases |log|
  {
    hide Latest;
    if log != [] {
      var front, r := log[..|log| - 1], log[|log| - 1];
      assert front + [r] == log;
      MemoryIsLatest(front, e, s);
      forall i, p
        ensures Latest(log, p, i) <==> if p(r) then i == |front| else Latest(front, p, i)
      {
        LatestSnoc(front, r, p, i);
      }
      LatestInRange(front);
      LatestSurvives(front, r, InEpochOfStream(e, s));
      LatestSurvives(front, r, OfStream(s));
      LatestSurvives(front, r, EmittedIn(e));
    } else {
      LatestInRange(log);
    }
  }

  lemma LatestSurvives(log: Log, r: Stamp, p: Stamp -> bool)
    ensures p(r) || (exists i :: Latest(log, p, i)) ==> exists i :: Latest(log + [r], p, i)
  {
    hide Latest;
    LatestSnoc(log, r, p, |log|);
    if !p(r) && exists i :: Latest(log, p, i) {
      var i :| Latest(log, p, i);
      LatestSnoc(log, r, p, i);
    }
  }

  lemma LatestInRange(log: Log)
    ensures forall p, i | Latest(log, p, i) :: 0 <= i < |log|
  {
  }

  lemma {:induction false} MemoryIsNewest(log: Log, s: Stream)
    ensures var m := After(log);
            && (forall i | Newest(log, s, i) :: s in m.newestEpoch && m.newestEpoch[s] == log[i].epoch.number)
            && (s in m.newestEpoch ==> exists i :: Newest(log, s, i) && m.newestEpoch[s] == log[i].epoch.number)
            && (s !in m.newestEpoch ==> forall i | 0 <= i < |log| :: !(log[i].stream == s && log[i].epoch.IntEpoch?))
    decreases |log|
  {
    if log != [] {
      var n := |log| - 1;
      var front, r, m := log[..n], log[n], After(log[..n]);
      MemoryIsNewest(front, s);
      assert forall j | 0 <= j < n :: log[j] == front[j];
      if s in m.newestEpoch {
        var i :| Newest(front, s, i) && m.newestEpoch[s] == front[i].epoch.number;
        if r.stream == s && r.epoch.IntEpoch? && r.epoch.number > front[i].epoch.number {
          assert Newest(log, s, n);
        } else {
          assert Newest(log, s, i);
        }
      } else if r.stream == s && r.epoch.IntEpoch? {
        assert Newest(log, s, n);
      }
    }
  }

  /** Every alert and note about a record, with its numbers, from the records before it. A gap names the number after
      that of the latest record of its epoch and stream; without one, an epoch has to open at zero. A regression names the
      highest integer epoch of the stream, disorder the latest emission number of the epoch or -1, and a note the epoch of
      the latest record of the stream. */
  lemma AlertsFromHistory(log: Log, r: Stamp)
    ensures AlertsOf(After(log), r) == SeqAlerts(After(log), r) + EpochAlerts(After(log), r) + EmissionAlerts(After(log), r)
    ensures forall i | Latest(log, InEpochOfStream(r.epoch, r.stream), i) ::
              SeqAlerts(After(log), r)
              == if r.streamSeq == log[i].streamSeq + 1 then [] else [Gap(r.stream, log[i].streamSeq + 1, r.streamSeq)]
    ensures (forall i :: !Latest(log, InEpochOfStream(r.epoch, r.stream), i)) ==>
              SeqAlerts(After(log), r)
              == if r.epoch == NoEpoch || r.streamSeq == 0 then [] else [HeadGap(r.stream, r.epoch, r.streamSeq)]
    ensures forall i | Newest(log, r.stream, i) && r.epoch.IntEpoch? ::
              EpochAlerts(After(log), r)
              == if r.epoch.number < log[i].epoch.number then [EpochRegression(r.stream, r.epoch.number, log[i].epoch.number)] else []
    ensures !r.epoch.IntEpoch? || (forall i :: !Newest(log, r.stream, i)) ==> EpochAlerts(After(log), r) == []
    ensures forall i | Latest(log, EmittedIn(r.epoch), i) && r.emissionSeq.Some? ::
              EmissionAlerts(After(log), r)
              == if r.emissionSeq.value <= log[i].emissionSeq.value then [Ordering(r.emissionSeq.value, log[i].emissionSeq.value)] else []
    ensures r.emissionSeq.Some? && (forall i :: !Latest(log, EmittedIn(r.epoch), i)) ==>
              EmissionAlerts(After(log), r) == if r.emissionSeq.value <= -1 then [Ordering(r.emissionSeq.value, -1)] else []
    ensures r.emissionSeq.None? ==> EmissionAlerts(After(log), r) == []
    ensures forall i | Latest(log, OfStream(r.stream), i) ::
              NotesOf(After(log), r)
              == if log[i].epoch == r.epoch then [] else [EpochChange(r.stream, log[i].epoch, r.epoch, r.streamSeq)]
    ensures (forall i :: !Latest(log, OfStream(r.stream), i)) ==> NotesOf(After(log), r) == []
  {
    hide After, Latest, Newest;
    MemoryIsLatest(log, r.epoch, r.stream);
    MemoryIsNewest(log, r.stream);
    LatestHolds(log, r.epoch, r.stream);
  }

  lemma LatestHolds(log: Log, e: Epoch, s: Stream)
    ensures forall i | Latest(log, EmittedIn(e), i) :: 0 <= i < |log| && log[i].emissionSeq.Some?
    ensures forall i | Newest(log, s, i) :: 0 <= i < |log| && log[i].epoch.IntEpoch?
    ensures forall p, i | Latest(log, p, i) :: 0 <= i < |log|
  {
  }

  // ------------------------------------------ one record more, aspect by aspect

  lemma DenseSnoc(e: Epoch, q: seq<int>, x: int)
    ensures Dense(e, q + [x]) <==>
              Dense(e, q) && (if q != [] then x == q[|q| - 1] + 1 else e == NoEpoch || x == STREAM_HEAD_SEQ)
  {
    var all := q + [x];
    if Dense(e, all) {
      forall i | 0 <= i < |q|
        ensures q[i] == (if e == NoEpoch then q[0] else STREAM_HEAD_SEQ) + i
      {
        assert all[i] == q[i] && all[0] == q[0];
      }
      assert all[|q|] == x;
      assert q != [] ==> all[|q| - 1] == q[|q| - 1];
    } else if Dense(e, q) && q != [] {
      assert q[|q| - 1] == (if e == NoEpoch then q[0] else STREAM_HEAD_SEQ) + |q| - 1;
    }
  }

  lemma SeqSnoc(log: Log, r: Stamp)
    requires DenseStreams(log)
    ensures SeqAlerts(After(log), r) == [] <==> DenseStreams(log + [r])
  {
    hide SeqsOf, Dense;
    var q := SeqsOf(log, r.epoch, r.stream);
    RemembersSeq(log, r.epoch, r.stream);
    DenseSnoc(r.epoch, q, r.streamSeq);
    Snoc(log, r, r.epoch, r.stream);
    if SeqAlerts(After(log), r) == [] {
      forall e, s
        ensures Dense(e, SeqsOf(log + [r], e, s))
      {
        assert Dense(e, SeqsOf(log, e, s));
        Snoc(log, r, e, s);
      }
    } else {
      assert !Dense(r.epoch, SeqsOf(log + [r], r.epoch, r.stream));
    }
  }

  lemma NonDecreasingSnoc(q: seq<int>, x: int)
    requires NonDecreasing(q)
    ensures NonDecreasing(q + [x]) <==> (q != [] ==> MaxOf(q) <= x)
  {
    if q != [] {
      MaxOfNonDecreasing(q);
      assert (q + [x])[|q| - 1] == q[|q| - 1] && (q + [x])[|q|] == x;
    }
  }

  lemma EpochSnoc(log: Log, r: Stamp)
    requires OrderedEpochs(log)
    ensures EpochAlerts(After(log), r) == [] <==> OrderedEpochs(log + [r])
  {
    hide EpochsOf, NonDecreasing, MaxOf;
    var q := EpochsOf(log, r.stream);
    RemembersEpoch(log, r.stream);
    Snoc(log, r, r.epoch, r.stream);
    if r.epoch.IntEpoch? {
      NonDecreasingSnoc(q, r.epoch.number);
    }
    if EpochAlerts(After(log), r) == [] {
      forall s
        ensures NonDecreasing(EpochsOf(log + [r], s))
      {
        assert NonDecreasing(EpochsOf(log, s));
        Snoc(log, r, r.epoch, s);
      }
    } else {
      assert !NonDecreasing(EpochsOf(log + [r], r.stream));
    }
  }

  lemma FromZeroUpSnoc(q: seq<int>, x: int)
    requires FromZeroUp(q)
    ensures FromZeroUp(q + [x]) <==> x > (if q == [] then -1 else Last(q))
  {
    if q != [] {
      assert (q + [x])[|q| - 1] == q[|q| - 1] && (q + [x])[|q|] == x && (q + [x])[0] == q[0];
    }
  }

  lemma EmissionSnoc(log: Log, r: Stamp)
    requires OrderedEmissions(log)
    ensures EmissionAlerts(After(log), r) == [] <==> OrderedEmissions(log + [r])
  {
    hide EmissionsOf, FromZeroUp, Last;
    var q := EmissionsOf(log, r.epoch);
    RemembersEmission(log, r.epoch);
    Snoc(log, r, r.epoch, r.stream);
    assert FromZeroUp(q);
    if r.emissionSeq.Some? {
      FromZeroUpSnoc(q, r.emissionSeq.value);
    }
    if EmissionAlerts(After(log), r) == [] {
      forall e
        ensures FromZeroUp(EmissionsOf(log + [r], e))
      {
        assert FromZeroUp(EmissionsOf(log, e));
        Snoc(log, r, e, r.stream);
      }
    } else {
      assert !FromZeroUp(EmissionsOf(log + [r], r.epoch));
    }
  }

  lemma DenseFront(log: Log, r: Stamp)
    requires DenseStreams(log + [r])
    ensures DenseStreams(log)
  {
    hide SeqsOf, Dense;
    forall e, s
      ensures Dense(e, SeqsOf(log, e, s))
    {
      assert Dense(e, SeqsOf(log + [r], e, s));
      Snoc(log, r, e, s);
      DenseSnoc(e, SeqsOf(log, e, s), r.streamSeq);
    }
  }

  lemma FrontOfOrder(q: seq<int>, tail: seq<int>)
    ensures NonDecreasing(q + tail) ==> NonDecreasing(q)
    ensures FromZeroUp(q + tail) ==> FromZeroUp(q)
  {
    assert forall i | 0 <= i < |q| :: (q + tail)[i] == q[i];
  }

  lemma OrderedFront(log: Log, r: Stamp)
    requires OrderedEpochs(log + [r]) && OrderedEmissions(log + [r])
    ensures OrderedEpochs(log) && OrderedEmissions(log)
  {
    hide EpochsOf, EmissionsOf, NonDecreasing, FromZeroUp;
    forall s
      ensures NonDecreasing(EpochsOf(log, s))
    {
      assert NonDecreasing(EpochsOf(log + [r], s));
      Snoc(log, r, r.epoch, s);
      FrontOfOrder(EpochsOf(log, s), EpochsOf(log + [r], s)[|EpochsOf(log, s)|..]);
      assert EpochsOf(log + [r], s) == EpochsOf(log, s) + EpochsOf(log + [r], s)[|EpochsOf(log, s)|..];
    }
    forall e
      ensures FromZeroUp(EmissionsOf(log, e))
    {
      assert FromZeroUp(EmissionsOf(log + [r], e));
      Snoc(log, r, e, r.stream);
      FrontOfOrder(EmissionsOf(log, e), EmissionsOf(log + [r], e)[|EmissionsOf(log, e)|..]);
      assert EmissionsOf(log + [r], e) == EmissionsOf(log, e) + EmissionsOf(log + [r], e)[|EmissionsOf(log, e)|..];
    }
  }

  lemma SilentSnoc(log: Log, r: Stamp)
    ensures Silent(log + [r]) <==> Silent(log) && AlertsOf(After(log), r) == []
  {
    var all := log + [r];
    assert all[..|log|] == log;
    assert forall i | 0 <= i < |log| :: all[..i] == log[..i] && all[i] == log[i];
  }

  /** The detector is silent on every record of a log exactly when the log is complete. */
  lemma {:induction false} SilenceIsCompleteness(log: Log)
    ensures Silent(log) <==> Complete(log)
    decreases |log|
  {
    hide SeqAlerts, EpochAlerts, EmissionAlerts, DenseStreams, OrderedEpochs, OrderedEmissions, Silent;
    if log == [] {
      NothingSeen();
    } else {
      var front, r := log[..|log| - 1], log[|log| - 1];
      assert front + [r] == log;
      SilenceIsCompleteness(front);
      SilentSnoc(front, r);
      if Complete(front) {
        SeqSnoc(front, r);
        EpochSnoc(front, r);
        EmissionSnoc(front, r);
      }
      if Complete(log) {
        DenseFront(front, r);
        OrderedFront(front, r);
      }
    }
  }

  lemma NothingSeen()
    ensures Silent([]) && Complete([])
  {
  }

  // --------------------------------------------------------- counting losses

  /** How many gap alerts the records of one epoch of one stream raise. */
  function GapCount(log: Log, e: Epoch, s: Stream): nat {
    if log == [] then 0
    else
      var front, r := log[..|log| - 1], log[|log| - 1];
      GapCount(front, e, s) + (if r.epoch == e && r.stream == s then |SeqAlerts(After(front), r)| else 0)
  }

  /** The last members of the maximal missing runs below the last number received: a run ends at `k` when `k` is
      missing and `k + 1` was received. */
  function MissingRunEnds(q: seq<int>): set<int> {
    if q == [] then {} else set k | 0 <= k < Last(q) && RunEndsAt(q, k)
  }

  predicate RunEndsAt(q: seq<int>, k: int) {
    k !in q && k + 1 in q
  }

  lemma FirstRunEnd(x: int)
    requires x >= 0
    ensures MissingRunEnds([x]) == if x == 0 then {} else {x - 1}
  {
    assert x in [x];
    assert x > 0 ==> RunEndsAt([x], x - 1);
    assert forall k | RunEndsAt([x], k) :: k + 1 == x;
  }

  /** Appending `x` adds a last number above all the others. */
  lemma NewLast(q: seq<int>, x: int)
    requires q != [] && FromZeroUp(q + [x])
    ensures 0 <= Last(q) < x && Last(q) in q
    ensures forall k :: k in q + [x] <==> k in q || k == x
    ensures forall k | k in q :: k <= Last(q)
  {
    var all := q + [x];
    assert forall i | 0 <= i < |q| :: all[i] == q[i];
    assert all[|q|] == x && all[0] == q[0] && all[|q| - 1] == Last(q);
    assert all[|q| - 1] < all[|q|];
    assert 0 < |q| - 1 ==> all[0] < all[|q| - 1];
    forall k | k in q
      ensures k <= Last(q)
    {
      var i :| 0 <= i < |q| && q[i] == k;
      assert i < |q| - 1 ==> all[i] < all[|q| - 1];
    }
  }

  lemma NextRunEnd(q: seq<int>, x: int)
    requires q != [] && FromZeroUp(q + [x])
    ensures MissingRunEnds(q + [x]) == if x == Last(q) + 1 then MissingRunEnds(q) else MissingRunEnds(q) + {x - 1}
    ensures x - 1 !in MissingRunEnds(q)
  {
    hide FromZeroUp, Last;
    NewLast(q, x);
    assert Last(q + [x]) == x by {
      LastOf(q, x);
    }
    assert Last(q) + 1 !in q;
    forall k
      ensures k in MissingRunEnds(q + [x]) <==> k in MissingRunEnds(q) || (k == x - 1 && x != Last(q) + 1)
    {
      assert RunEndsAt(q + [x], k) <==> k !in q && k != x && (k + 1 in q || k + 1 == x);
    }
  }

  lemma LastOf(q: seq<int>, x: int)
    ensures Last(q + [x]) == x
  {
  }

  /** For an in-order lossy delivery of one epoch of one stream, in a log shared with anything else, the gap alerts
      number the maximal missing runs below the last record received. */
  lemma {:induction false} GapsCountLosses(log: Log, e: Epoch, s: Stream)
    requires e != NoEpoch && FromZeroUp(SeqsOf(log, e, s))
    ensures GapCount(log, e, s) == |MissingRunEnds(SeqsOf(log, e, s))|
    decreases |log|
  {
    hide FromZeroUp, MissingRunEnds, Advance;
    if log != [] {
      var front, r := log[..|log| - 1], log[|log| - 1];
      var q := SeqsOf(front, e, s);
      if r.epoch == e && r.stream == s {
        FrontOfOrder(q, [r.streamSeq]);
        GapsCountLosses(front, e, s);
        RemembersSeq(front, e, s);
        RunEndStep(q, r.streamSeq);
      } else {
        GapsCountLosses(front, e, s);
      }
    } else {
      assert MissingRunEnds([]) == {} by {
        NoRunEnds();
      }
    }
  }

  lemma NoRunEnds()
    ensures MissingRunEnds([]) == {}
  {
  }

  lemma RunEndStep(q: seq<int>, x: int)
    requires FromZeroUp(q + [x])
    ensures |MissingRunEnds(q + [x])|
         == |MissingRunEnds(q)| + (if x == (if q == [] then STREAM_HEAD_SEQ else Last(q) + 1) then 0 else 1)
  {
    if q == [] {
      assert q + [x] == [x] && [x][0] >= 0;
      FirstRunEnd(x);
    } else {
      NextRunEnd(q, x);
    }
  }

  /** Only tail loss is invisible: no gap alert exactly when everything up to the last record arrived. */
  lemma OnlyTailLossIsInvisible(log: Log, e: Epoch, s: Stream)
    requires e != NoEpoch && FromZeroUp(SeqsOf(log, e, s))
    ensures GapCount(log, e, s) == 0 <==> Dense(e, SeqsOf(log, e, s))
  {
    GapsCountLosses(log, e, s);
    NoRunEndIsDense(e, SeqsOf(log, e, s));
  }

  lemma {:induction false} NoRunEndIsDense(e: Epoch, q: seq<int>)
    requires e != NoEpoch && FromZeroUp(q)
    ensures MissingRunEnds(q) == {} <==> Dense(e, q)
    decreases |q|
  {
    hide MissingRunEnds, Dense, FromZeroUp;
    if q == [] {
      NoRunEnds();
      DenseNothing(e);
    } else {
      var front, x := q[..|q| - 1], Last(q);
      assert q == front + [x];
      FrontOfOrder(front, [x]);
      NoRunEndIsDense(e, front);
      DenseSnoc(e, front, x);
      RunEndStep(front, x);
      if front == [] {
        NoRunEnds();
        DenseNothing(e);
      }
      assert |MissingRunEnds(q)| == 0 <==> MissingRunEnds(q) == {};
      assert |MissingRunEnds(front)| == 0 <==> MissingRunEnds(front) == {};
    }
  }

  lemma DenseNothing(e: Epoch)
    ensures Dense(e, [])
  {
  }

  // ------------------------------------------------------------ interleaving

  /** The records of one stream. */
  function OnStream(log: Log, s: Stream): Log {
    if log == [] then []
    else
      var front, r := OnStream(log[..|log| - 1], s), log[|log| - 1];
      if r.stream == s then front + [r] else front
  }

  /** The gap and epoch alerts raised on the records of one stream, in order. */
  function StreamAlerts(log: Log, s: Stream): seq<Alert> {
    if log == [] then []
    else
      var front, r := log[..|log| - 1], log[|log| - 1];
      if r.stream == s then StreamAlerts(front, s) + (SeqAlerts(After(front), r) + EpochAlerts(After(front), r))
      else StreamAlerts(front, s)
  }

  ghost predicate AgreeOn(m: Memory, n: Memory, s: Stream) {
    && (forall e :: (e, s) in m.lastSeq <==> (e, s) in n.lastSeq)
    && (forall e :: (e, s) in m.lastSeq ==> (e, s) in n.lastSeq && m.lastSeq[(e, s)] == n.lastSeq[(e, s)])
    && (s in m.newestEpoch <==> s in n.newestEpoch)
    && (s in m.newestEpoch ==> s in n.newestEpoch && m.newestEpoch[s] == n.newestEpoch[s])
  }

  lemma AdvanceAgrees(m: Memory, n: Memory, r: Stamp, s: Stream)
    requires AgreeOn(m, n, s)
    ensures AgreeOn(Advance(m, r), if r.stream == s then Advance(n, r) else n, s)
  {
  }

  lemma {:induction false} OtherStreamsForgotten(log: Log, s: Stream)
    ensures AgreeOn(After(log), After(OnStream(log, s)), s)
    decreases |log|
  {
    hide AgreeOn, Advance;
    if log == [] {
      assert AgreeOn(FRESH, FRESH, s) by {
        AgreesWithItself(FRESH, s);
      }
    } else {
      var front, r := log[..|log| - 1], log[|log| - 1];
      OtherStreamsForgotten(front, s);
      AdvanceAgrees(After(front), After(OnStream(front, s)), r, s);
      if r.stream == s {
        assert (OnStream(front, s) + [r])[..|OnStream(front, s)|] == OnStream(front, s);
      }
    }
  }

  lemma AgreesWithItself(m: Memory, s: Stream)
    ensures AgreeOn(m, m, s)
  {
  }

  lemma AgreeingAlerts(m: Memory, n: Memory, r: Stamp)
    requires AgreeOn(m, n, r.stream)
    ensures SeqAlerts(m, r) == SeqAlerts(n, r) && EpochAlerts(m, r) == EpochAlerts(n, r)
  {
  }

  /** The gap and epoch alerts of a stream are those its own records raise alone. */
  lemma {:induction false} OtherStreamsIrrelevant(log: Log, s: Stream)
    ensures StreamAlerts(log, s) == StreamAlerts(OnStream(log, s), s)
    decreases |log|
  {
    hide AgreeOn, SeqAlerts, EpochAlerts, After;
    if log != [] {
      var front, r := log[..|log| - 1], log[|log| - 1];
      OtherStreamsIrrelevant(front, s);
      if r.stream == s {
        var own := OnStream(front, s);
        assert (own + [r])[..|own|] == own && own + [r] == OnStream(log, s);
        OtherStreamsForgotten(front, s);
        AgreeingAlerts(After(front), After(own), r);
      }
    }
  }

  /** Any two interleavings that deliver a stream's records in the same order raise the same gap and epoch alerts on it. */
  lemma InterleavingInvisible(left: Log, right: Log, s: Stream)
    requires OnStream(left, s) == OnStream(right, s)
    ensures StreamAlerts(left, s) == StreamAlerts(right, s)
  {
    OtherStreamsIrrelevant(left, s);
    OtherStreamsIrrelevant(right, s);
  }
}
