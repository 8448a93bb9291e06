/** The retrieval ledger: one record per memory served, under a key built from the
    retrieval id, the kind, the wall, the memory id and the rank. */
module Ledger {
  import opened Wall
  import opened Keys
  import Wakeup

  datatype RetrievalKind = WakeupRecent | WakeupLexicographic | WakeupDoctrine | Search | Browse {
    function Name(): (s: string)
      ensures Free(s, '_')
    {
      match this
      case WakeupRecent => "WakeupRecent"
      case WakeupLexicographic => "WakeupLexicographic"
      case WakeupDoctrine => "WakeupDoctrine"
      case Search => "Search"
      case Browse => "Browse"
    }
  }

  /** Clock nanoseconds and the process's request counter. */
  datatype RetrievalId = RetrievalId(nanos: nat, seqNo: nat) {
    function Text(): string {
      Join(["rl", Numeral(nanos, 16), Numeral(seqNo, 16)])
    }
  }

  datatype RetrievalEvent =
    RetrievalEvent(id: RetrievalId, kind: RetrievalKind, namespace: string, memoryId: MemoryId, rank: nat)
  {
    function Key(): string {
      id.Text() + "_" + Join([kind.Name(), namespace, memoryId, Numeral(rank, 10)])
    }
  }

  /** Everything but the boundary between wall and memory id can be read back from a key,
      although both may contain underscores. */
  lemma KeyDetermines(e: RetrievalEvent, f: RetrievalEvent)
    requires e.Key() == f.Key()
    ensures e.id == f.id && e.kind == f.kind && e.rank == f.rank
    ensures e.namespace + "_" + e.memoryId == f.namespace + "_" + f.memoryId
  {
    KeyAsParts(e);
    KeyAsParts(f);
    JoinFirst("rl", IdParts(e), "rl", IdParts(f));
    JoinFirst(Numeral(e.id.nanos, 16), IdParts(e)[1..], Numeral(f.id.nanos, 16), IdParts(f)[1..]);
    JoinFirst(Numeral(e.id.seqNo, 16), KindParts(e), Numeral(f.id.seqNo, 16), KindParts(f));
    JoinFirst(e.kind.Name(), WallParts(e), f.kind.Name(), WallParts(f));
    WallPartsEndInRank(e);
    WallPartsEndInRank(f);
    SplitLast(e.namespace + "_" + e.memoryId, Numeral(e.rank, 10),
              f.namespace + "_" + f.memoryId, Numeral(f.rank, 10), '_');
    NumeralIsInjective(e.rank, f.rank, 10);
    NumeralIsInjective(e.id.nanos, f.id.nanos, 16);
    NumeralIsInjective(e.id.seqNo, f.id.seqNo, 16);
  }

  function WallParts(e: RetrievalEvent): seq<string> {
    [e.namespace, e.memoryId, Numeral(e.rank, 10)]
  }

  function KindParts(e: RetrievalEvent): seq<string> {
    [e.kind.Name()] + WallParts(e)
  }

  function IdParts(e: RetrievalEvent): seq<string> {
    [Numeral(e.id.nanos, 16)] + ([Numeral(e.id.seqNo, 16)] + KindParts(e))
  }

  lemma KeyAsParts(e: RetrievalEvent)
    ensures e.Key() == Join(["rl"] + IdParts(e))
    ensures IdParts(e)[1..] == [Numeral(e.id.seqNo, 16)] + KindParts(e)
  {
    hide Numeral, Join;
    var n, q := Numeral(e.id.nanos, 16), Numeral(e.id.seqNo, 16);
    var rest := Join(KindParts(e));
    assert KindParts(e) == [e.kind.Name(), e.namespace, e.memoryId, Numeral(e.rank, 10)];
    JoinThree("rl", n, q);
    JoinCons(q, KindParts(e));
    JoinCons(n, [q] + KindParts(e));
    JoinCons("rl", IdParts(e));
    assert "rl" + "_" + (n + "_" + (q + "_" + rest)) == "rl" + "_" + (n + "_" + q) + "_" + rest;
  }

  lemma WallPartsEndInRank(e: RetrievalEvent)
    ensures Join(WallParts(e)) == e.namespace + "_" + e.memoryId + "_" + Numeral(e.rank, 10)
  {
    JoinThree(e.namespace, e.memoryId, Numeral(e.rank, 10));
    Associate(e.namespace + "_", e.memoryId, "_" + Numeral(e.rank, 10));
    Associate(e.memoryId, "_", Numeral(e.rank, 10));
  }

  lemma Associate(a: string, b: string, c: string)
    ensures a + (b + c) == a + b + c
  {
  }

  // ---------- the events of one response ----------

  /** Events of one retrieval, told apart by kind and rank. */
  predicate OneRetrieval(id: RetrievalId, events: seq<RetrievalEvent>) {
    && (forall e | e in events :: e.id == id)
    && (forall i, j | 0 <= i < j < |events| :: events[i].kind != events[j].kind || events[i].rank != events[j].rank)
  }

  function SearchEvents(id: RetrievalId, hits: seq<(Memory, string)>): (events: seq<RetrievalEvent>)
    ensures OneRetrieval(id, events) && |events| == |hits|
    ensures forall r | 0 <= r < |hits| ::
              && events[r].kind == Search && events[r].rank == r
              && events[r].memoryId == hits[r].0.id && events[r].namespace == hits[r].1
  {
    seq(|hits|, rank requires 0 <= rank < |hits| => RetrievalEvent(id, Search, hits[rank].1, hits[rank].0.id, rank))
  }

  function BrowseEvents(id: RetrievalId, ns: string, memories: seq<Memory>): (events: seq<RetrievalEvent>)
    ensures OneRetrieval(id, events) && |events| == |memories|
    ensures forall r | 0 <= r < |memories| ::
              && events[r].kind == Browse && events[r].rank == r
              && events[r].memoryId == memories[r].id && events[r].namespace == ns
  {
    seq(|memories|, rank requires 0 <= rank < |memories| => RetrievalEvent(id, Browse, ns, memories[rank].id, rank))
  }

  function KindOf(stratumOf: map<MemoryId, Wakeup.Stratum>, id: MemoryId): RetrievalKind {
    if id in stratumOf && stratumOf[id].Recent? then WakeupRecent else WakeupLexicographic
  }

  function EssentialEvents(id: RetrievalId, ns: string, essentials: seq<Memory>,
                           stratumOf: map<MemoryId, Wakeup.Stratum>): seq<RetrievalEvent> {
    seq(|essentials|, rank requires 0 <= rank < |essentials| =>
      RetrievalEvent(id, KindOf(stratumOf, essentials[rank].id), ns, essentials[rank].id, rank))
  }

  function DoctrineEvents(id: RetrievalId, ns: string, doctrine: seq<Memory>): seq<RetrievalEvent> {
    seq(|doctrine|, rank requires 0 <= rank < |doctrine| =>
      RetrievalEvent(id, WakeupDoctrine, ns, doctrine[rank].id, rank))
  }

  /** Both lists of a wake-up count ranks from 0; the kinds keep them apart. */
  lemma WakeupIsOneRetrieval(id: RetrievalId, ns: string, essentials: seq<Memory>,
                             stratumOf: map<MemoryId, Wakeup.Stratum>,
                             doctrineNs: string, doctrine: seq<Memory>)
    ensures OneRetrieval(id, EssentialEvents(id, ns, essentials, stratumOf) + DoctrineEvents(id, doctrineNs, doctrine))
  {
    var xs, ys := EssentialEvents(id, ns, essentials, stratumOf), DoctrineEvents(id, doctrineNs, doctrine);
    var all := xs + ys;
    forall i | 0 <= i < |all|
      ensures all[i].id == id
      ensures all[i].rank == (if i < |xs| then i else i - |xs|) && (all[i].kind == WakeupDoctrine <==> i >= |xs|)
    {
      assert all[i] == if i < |xs| then xs[i] else ys[i - |xs|];
    }
  }

  method WakeupEvents(id: RetrievalId, ns: string, essentials: seq<Memory>, stratumOf: map<MemoryId, Wakeup.Stratum>,
                      doctrineNs: string, doctrine: seq<Memory>) returns (ledger: seq<RetrievalEvent>)
    ensures ledger == EssentialEvents(id, ns, essentials, stratumOf) + DoctrineEvents(id, doctrineNs, doctrine)
    ensures OneRetrieval(id, ledger) && |ledger| == |essentials| + |doctrine|
    ensures forall r | 0 <= r < |essentials| ::
              && ledger[r].memoryId == essentials[r].id && ledger[r].namespace == ns && ledger[r].rank == r
              && (ledger[r].kind == WakeupRecent || ledger[r].kind == WakeupLexicographic)
              && (ledger[r].kind == WakeupRecent <==>
                  essentials[r].id in stratumOf && stratumOf[essentials[r].id] == Wakeup.Recent)
    ensures forall r | 0 <= r < |doctrine| ::
              var e := ledger[|essentials| + r];
              e.kind == WakeupDoctrine && e.memoryId == doctrine[r].id && e.namespace == doctrineNs && e.rank == r
  {
    ghost var xs, ys := EssentialEvents(id, ns, essentials, stratumOf), DoctrineEvents(id, doctrineNs, doctrine);
    ledger := [];
    for rank := 0 to |essentials|
      invariant ledger == xs[..rank]
    {
      ledger := ledger + [RetrievalEvent(id, KindOf(stratumOf, essentials[rank].id), ns, essentials[rank].id, rank)];
    }
    for rank := 0 to |doctrine|
      invariant ledger == xs + ys[..rank]
    {
      ledger := ledger + [RetrievalEvent(id, WakeupDoctrine, doctrineNs, doctrine[rank].id, rank)];
    }
    assert ledger == xs + ys;
    WakeupIsOneRetrieval(id, ns, essentials, stratumOf, doctrineNs, doctrine);
  }

  // ---------- the ledger of one process ----------

  type Records = map<string, RetrievalEvent>

  /** Appending attempts every event; a key already taken keeps its record and is an error. */
  function AppendAll(before: Records, events: seq<RetrievalEvent>): (Records, Result<()>) {
    if events == [] then (before, Ok(()))
    else
      var (now, r) := AppendAll(before, events[..|events| - 1]);
      var e := events[|events| - 1];
      if e.Key() in now then (now, if r.Ok? then Err(StoreFailure) else r) else (now[e.Key() := e], r)
  }

  /** The ids of a process, in the order it issued them, are numbered 0, 1, 2, ... */
  predicate InTurn(issued: seq<RetrievalId>) {
    forall i | 0 <= i < |issued| :: issued[i].seqNo == i
  }

  /** Appending keeps every earlier record, adds no others than the first event of each new
      key, and succeeds exactly when no key was taken or came twice. */
  lemma {:induction false} AppendingKeepsFirst(before: Records, events: seq<RetrievalEvent>)
    ensures var (now, r) := AppendAll(before, events);
            && (forall key | key in before :: key in now && now[key] == before[key])
            && (forall key | key in now && key !in before :: IsFirst(events, now[key]) && now[key].Key() == key)
            && (forall e | e in events :: e.Key() in now)
            && (r.Ok? <==> NoneTaken(before, events))
            && (r.Err? ==> r.error == StoreFailure)
  {
    hide RetrievalEvent.Key;
    if events != [] {
      var n := |events| - 1;
      var front, e := events[..n], events[n];
      AppendingKeepsFirst(before, front);
      assert events == front + [e];
      FirstStays(front, e);
      OneMoreTaken(before, front, e);
      hide IsFirst, NoneTaken;
    }
  }

  /** No earlier event has the key of this one. */
  ghost predicate IsFirst(events: seq<RetrievalEvent>, e: RetrievalEvent) {
    exists k | 0 <= k < |events| :: events[k] == e && forall j | 0 <= j < k :: events[j].Key() != e.Key()
  }

  ghost predicate NoneTaken(before: Records, events: seq<RetrievalEvent>) {
    && (forall e | e in events :: e.Key() !in before)
    && (forall i, j | 0 <= i < j < |events| :: events[i].Key() != events[j].Key())
  }

  lemma FirstStays(events: seq<RetrievalEvent>, e: RetrievalEvent)
    ensures forall f | IsFirst(events, f) :: IsFirst(events + [e], f)
    ensures (forall f | f in events :: f.Key() != e.Key()) ==> IsFirst(events + [e], e)
  {
    hide RetrievalEvent.Key;
    forall f | IsFirst(events, f) ensures IsFirst(events + [e], f) {
      var k :| 0 <= k < |events| && events[k] == f && forall j | 0 <= j < k :: events[j].Key() != f.Key();
      assert (events + [e])[k] == f;
    }
    if forall f | f in events :: f.Key() != e.Key() {
      assert (events + [e])[|events|] == e;
      assert forall j | 0 <= j < |events| :: events[j] in events;
    }
  }

  lemma OneMoreTaken(before: Records, events: seq<RetrievalEvent>, e: RetrievalEvent)
    ensures NoneTaken(before, events + [e]) <==>
            NoneTaken(before, events) && e.Key() !in before && forall f | f in events :: f.Key() != e.Key()
  {
    hide RetrievalEvent.Key;
    var all := events + [e];
    assert all[|events|] == e && e in all;
    if NoneTaken(before, all) {
      forall i, j | 0 <= i < j < |events| ensures events[i].Key() != events[j].Key() {
        assert all[i] == events[i] && all[j] == events[j];
      }
      forall f | f in events ensures f.Key() != e.Key() && f in all {
        var i :| 0 <= i < |events| && events[i] == f;
        assert all[i] == f;
      }
    }
  }

  class RetrievalLedger {
    var records: Records
    var counter: nat
    ghost var issued: seq<RetrievalId>

    /** The counter has moved once for every id issued. */
    ghost predicate Valid()
      reads this
    {
      counter == |issued| && InTurn(issued)
    }

    constructor ()
      ensures Valid() && records == map[] && issued == []
    {
      records, counter, issued := map[], 0, [];
    }

    /** No two requests of a process get the same sequence number. */
    method NewRetrievalId(nanos: nat) returns (id: RetrievalId)
      requires Valid()
      modifies this`counter, this`issued
      ensures Valid() && issued == old(issued) + [id]
      ensures id.nanos == nanos && forall earlier | earlier in old(issued) :: earlier.seqNo != id.seqNo
    {
      id := RetrievalId(nanos, counter);
      counter, issued := counter + 1, issued + [id];
    }

    method AppendRetrievalEvents(events: seq<RetrievalEvent>) returns (r: Result<()>)
      modifies this`records
      ensures (records, r) == AppendAll(old(records), events)
    {
      hide RetrievalEvent.Key;
      r := Ok(());
      for i := 0 to |events|
        invariant (records, r) == AppendAll(old(records), events[..i])
      {
        assert events[..i + 1][..i] == events[..i];
        if events[i].Key() in records {
          if r.Ok? {
            r := Err(StoreFailure);
          }
        } else {
          records := records[events[i].Key() := events[i]];
        }
      }
      assert events[..|events|] == events;
    }
  }

  /** No two events of a log agree on request, kind and rank. */
  predicate ToldApart(log: seq<RetrievalEvent>) {
    forall i, j | 0 <= i < j < |log| ::
      log[i].id.seqNo != log[j].id.seqNo || log[i].kind != log[j].kind || log[i].rank != log[j].rank
  }

  /** Every record is kept under the key of its event. */
  ghost predicate Faithful(records: Records) {
    forall key | key in records :: key == records[key].Key()
  }

  /** Exactly the events of the log joined the records, each under its own key. */
  ghost predicate Recorded(before: Records, log: seq<RetrievalEvent>, now: Records) {
    && |now| == |before| + |log|
    && (forall key | key in before :: key in now && now[key] == before[key])
    && (forall key | key in now && key !in before :: now[key] in log)
    && (forall e | e in log :: e.Key() in now && now[e.Key()] == e)
    && Faithful(now)
  }

  /** The log's retrievals are not those of earlier records. */
  ghost predicate NewTo(before: Records, log: seq<RetrievalEvent>) {
    forall key, e | key in before && e in log :: before[key].id != e.id
  }

  lemma {:induction false} ToldApartIsRecorded(before: Records, log: seq<RetrievalEvent>)
    requires Faithful(before) && NewTo(before, log) && ToldApart(log)
    ensures AppendAll(before, log).1.Ok? && Recorded(before, log, AppendAll(before, log).0)
  {
    hide RetrievalEvent.Key, Recorded, Faithful;
    if log == [] {
      NothingRecorded(before);
    } else {
      var front, last := log[..|log| - 1], log[|log| - 1];
      ToldApartIsRecorded(before, front);
      var now := AppendAll(before, front).0;
      forall i | 0 <= i < |front| ensures front[i].Key() != last.Key() {
        if front[i].Key() == last.Key() {
          KeyDetermines(front[i], last);
        }
      }
      NotAmongEarlier(before, last);
      RecordOne(before, now, front, last);
      assert log == front + [last];
    }
  }

  lemma NotAmongEarlier(before: Records, e: RetrievalEvent)
    requires Faithful(before) && forall key | key in before :: before[key].id != e.id
    ensures e.Key() !in before
  {
    hide RetrievalEvent.Key;
    if e.Key() in before {
      KeyDetermines(before[e.Key()], e);
    }
  }

  lemma NothingRecorded(before: Records)
    requires Faithful(before)
    ensures Recorded(before, [], before)
  {
  }

  lemma RecordOne(before: Records, now: Records, log: seq<RetrievalEvent>, e: RetrievalEvent)
    requires Recorded(before, log, now) && e.Key() !in before
    requires forall i | 0 <= i < |log| :: log[i].Key() != e.Key()
    ensures e.Key() !in now && Recorded(before, log + [e], now[e.Key() := e])
  {
    hide RetrievalEvent.Key;
  }

  /** One request: its id and the events of its response. */
  datatype Retrieval = Retrieval(id: RetrievalId, events: seq<RetrievalEvent>)

  /** `log` runs through the events of the retrievals, each exactly once, in any order:
      `origin[k]` says which retrieval and which of its events came `k`-th. */
  ghost predicate Interleaves(log: seq<RetrievalEvent>, retrievals: seq<Retrieval>, origin: seq<(nat, nat)>) {
    && |origin| == |log|
    && (forall i, j | 0 <= i < j < |origin| :: origin[i] != origin[j])
    && (forall slot :: slot in origin <==> slot in Slots(retrievals))
    && (forall k | 0 <= k < |origin| && origin[k] in Slots(retrievals) ::
          log[k] == retrievals[origin[k].0].events[origin[k].1])
  }

  /** Every event of every retrieval, by position. */
  function Slots(retrievals: seq<Retrieval>): set<(nat, nat)> {
    set r: nat, e: nat | r < |retrievals| && e < |retrievals[r].events| :: (r, e)
  }

  function Served(retrievals: seq<Retrieval>): nat {
    if retrievals == [] then 0 else Served(retrievals[..|retrievals| - 1]) + |retrievals[|retrievals| - 1].events|
  }

  function Row(r: nat, n: nat): (slots: set<(nat, nat)>)
    ensures forall slot :: slot in slots <==> slot.0 == r && slot.1 < n
    ensures |slots| == n
  {
    if n == 0 then {} else Row(r, n - 1) + {(r, n - 1)}
  }

  lemma {:induction false} SlotsAreServed(retrievals: seq<Retrieval>)
    ensures |Slots(retrievals)| == Served(retrievals)
  {
    if retrievals == [] {
      assert Slots(retrievals) == {};
    } else {
      var front, n := retrievals[..|retrievals| - 1], |retrievals| - 1;
      SlotsAreServed(front);
      LastSlots(retrievals);
      hide Slots, Row;
      var row := Row(n, |retrievals[n].events|);
      assert |Slots(front) + row| == |Slots(front)| + |row|;
    }
  }

  lemma LastSlots(retrievals: seq<Retrieval>)
    requires retrievals != []
    ensures var n := |retrievals| - 1;
            var front, row := Slots(retrievals[..n]), Row(n, |retrievals[n].events|);
            Slots(retrievals) == front + row && front !! row
  {
    var n := |retrievals| - 1;
    var row := Row(n, |retrievals[n].events|);
    hide Row;
    forall slot ensures slot in Slots(retrievals) <==> slot in Slots(retrievals[..n]) || slot in row {}
  }

  lemma {:induction false} DistinctCount<T>(xs: seq<T>, s: set<T>)
    requires (forall i, j | 0 <= i < j < |xs| :: xs[i] != xs[j]) && forall x :: x in xs <==> x in s
    ensures |xs| == |s|
  {
    if xs == [] {
      assert s == {};
    } else {
      var n := |xs| - 1;
      assert xs == xs[..n] + [xs[n]];
      DistinctCount(xs[..n], s - {xs[n]});
    }
  }

  lemma EventsToldApart(log: seq<RetrievalEvent>, retrievals: seq<Retrieval>, origin: seq<(nat, nat)>)
    requires Interleaves(log, retrievals, origin)
    requires forall r | 0 <= r < |retrievals| ::
      retrievals[r].id.seqNo == r && OneRetrieval(retrievals[r].id, retrievals[r].events)
    ensures ToldApart(log)
  {
    forall i, j | 0 <= i < j < |log|
      ensures log[i].id.seqNo != log[j].id.seqNo || log[i].kind != log[j].kind || log[i].rank != log[j].rank
    {
      assert origin[i] in origin && origin[j] in origin && origin[i] != origin[j];
      var r, q := retrievals[origin[i].0], retrievals[origin[j].0];
      assert log[i] in r.events && log[j] in q.events;
    }
  }

  /** However the requests of one process overlap, and whatever earlier processes recorded
      under other retrieval ids, no ledger key is ever taken twice: the ledger grows by exactly
      one record per memory served. */
  lemma LedgerGrowsByWhatIsServed(before: Records, issued: seq<RetrievalId>, retrievals: seq<Retrieval>,
                                  log: seq<RetrievalEvent>, origin: seq<(nat, nat)>)
    requires Faithful(before) && forall key | key in before :: before[key].id !in issued
    requires InTurn(issued) && |retrievals| == |issued|
    requires forall r | 0 <= r < |retrievals| ::
      retrievals[r].id == issued[r] && OneRetrieval(retrievals[r].id, retrievals[r].events)
    requires Interleaves(log, retrievals, origin)
    ensures AppendAll(before, log).1.Ok? && Recorded(before, log, AppendAll(before, log).0)
    ensures |AppendAll(before, log).0| == |before| + Served(retrievals)
  {
    EventsToldApart(log, retrievals, origin);
    forall e | e in log ensures e.id in issued {
      EventIsIssued(issued, retrievals, log, origin, e);
    }
    ToldApartIsRecorded(before, log);
    DistinctCount(origin, Slots(retrievals));
    SlotsAreServed(retrievals);
  }

  lemma EventIsIssued(issued: seq<RetrievalId>, retrievals: seq<Retrieval>, log: seq<RetrievalEvent>,
                      origin: seq<(nat, nat)>, e: RetrievalEvent)
    requires |retrievals| == |issued| && Interleaves(log, retrievals, origin) && e in log
    requires forall r | 0 <= r < |retrievals| ::
      retrievals[r].id == issued[r] && OneRetrieval(retrievals[r].id, retrievals[r].events)
    ensures e.id in issued
  {
    var k :| 0 <= k < |log| && log[k] == e;
    assert origin[k] in origin;
    var r := origin[k].0;
    assert e in retrievals[r].events && issued[r] in issued;
  }
}
