/** Navigating a wall: how many rows each project has on each topic, and which projects a
    topic connects. */
module Palace {
  import opened Order

  /** One row's project and topic. */
  datatype Cell = Cell(project: string, topic: string)

  datatype Room = Room(project: string, topic: string, count: nat)

  datatype Taxon = Taxon(project: string, rooms: seq<Room>, total: nat)

  datatype Tunnel = Tunnel(topic: string, projectA: string, projectB: string, countA: nat, countB: nat)

  type Counts = map<Cell, nat>

  // ---------- counting ----------

  /** Every cell that occurs, with how often. */
  ghost predicate CountsOf(cells: seq<Cell>, counts: Counts) {
    forall c :: (c in counts <==> c in cells) && (c in counts ==> counts[c] == multiset(cells)[c])
  }

  method ProjectTopicCounts(cells: seq<Cell>) returns (counts: Counts)
    ensures CountsOf(cells, counts)
  {
    counts := map[];
    for i := 0 to |cells|
      invariant CountsOf(cells[..i], counts)
    {
      var c := cells[i];
      assert cells[..i + 1] == cells[..i] + [c];
      counts := counts[c := if c in counts then counts[c] + 1 else 1];
    }
    assert cells[..|cells|] == cells;
  }

  function CountAt(counts: Counts, c: Cell): nat {
    if c in counts then counts[c] else 0
  }

  function ProjectsIn(counts: Counts): (ps: set<string>)
    ensures forall c | c in counts :: c.project in ps
    ensures forall p | p in ps :: exists c :: c in counts && c.project == p
  {
    set c | c in counts :: c.project
  }

  function TopicsIn(counts: Counts): (ts: set<string>)
    ensures forall c | c in counts :: c.topic in ts
  {
    set c | c in counts :: c.topic
  }

  function ProjectsOn(counts: Counts, topic: string): (ps: set<string>)
    ensures forall p :: p in ps <==> Cell(p, topic) in counts
  {
    set c | c in counts && c.topic == topic :: c.project
  }

  function TopicsOf(counts: Counts, project: string): (ts: set<string>)
    ensures forall t :: t in ts <==> Cell(project, t) in counts
  {
    set c | c in counts && c.project == project :: c.topic
  }

  // ---------- sorted keys ----------

  predicate Ascending(xs: seq<string>) {
    forall i, j | 0 <= i < j < |xs| :: Less(xs[i], xs[j])
  }

  predicate Least(x: string, s: set<string>) {
    x in s && forall y | y in s :: y == x || Less(x, y)
  }

  lemma {:induction false} LeastExists(s: set<string>) returns (x: string)
    requires s != {}
    ensures Least(x, s)
    decreases |s|
  {
    x :| x in s;
    if s != {x} {
      var rest := s - {x};
      assert |rest| < |s| && rest != {} by {
        assert s == rest + {x};
      }
      var y := LeastExists(rest);
      LessIsTotal(x, y);
      if Less(y, x) {
        x := y;
      } else {
        forall z | z in rest ensures Less(x, z) {
          if z != y { LessIsTransitive(x, y, z); }
        }
      }
    }
  }

  /** The order a sorted map or set hands out its keys. */
  method SortedKeys(keys: set<string>) returns (xs: seq<string>)
    ensures Ascending(xs) && forall x :: x in xs <==> x in keys
  {
    hide Less;
    xs := [];
    var left := keys;
    while left != {}
      invariant left <= keys && forall x :: x in xs <==> x in keys && x !in left
      invariant Ascending(xs) && forall x, y | x in xs && y in left :: Less(x, y)
      decreases left
    {
      ghost var least := LeastExists(left);
      assert least in left;
      var x :| x in left && Least(x, left);
      forall u, v | u in xs + [x] && v in left - {x} ensures Less(u, v) {
        assert v in left && v != x;
        if u !in xs {
          assert u == x && Least(x, left);
        }
      }
      xs, left := xs + [x], left - {x};
    }
  }

  // ---------- tunnels ----------

  /** A topic two distinct projects both have rows on, the projects in order, with their counts. */
  predicate IsTunnel(counts: Counts, t: Tunnel) {
    && Less(t.projectA, t.projectB)
    && Cell(t.projectA, t.topic) in counts && t.countA == counts[Cell(t.projectA, t.topic)]
    && Cell(t.projectB, t.topic) in counts && t.countB == counts[Cell(t.projectB, t.topic)]
  }

  ghost predicate NoRepeats<T>(xs: seq<T>) {
    forall i, j | 0 <= i < j < |xs| :: xs[i] != xs[j]
  }

  function Connect(counts: Counts, topic: string, a: string, b: string): Tunnel {
    Tunnel(topic, a, b, CountAt(counts, Cell(a, topic)), CountAt(counts, Cell(b, topic)))
  }

  /** Tunnels from one project to each of some others. */
  function TunnelsFrom(counts: Counts, topic: string, a: string, bs: seq<string>): (ts: seq<Tunnel>)
    ensures |ts| == |bs|
  {
    if bs == [] then [] else [Connect(counts, topic, a, bs[0])] + TunnelsFrom(counts, topic, a, bs[1..])
  }

  lemma {:induction false} TunnelsFromAt(counts: Counts, topic: string, a: string, bs: seq<string>, i: nat)
    requires i < |bs|
    ensures TunnelsFrom(counts, topic, a, bs)[i] == Connect(counts, topic, a, bs[i])
  {
    if i > 0 {
      TunnelsFromAt(counts, topic, a, bs[1..], i - 1);
    }
  }

  /** Tunnels between each two of a topic's projects. */
  function TopicTunnels(counts: Counts, topic: string, ps: seq<string>): seq<Tunnel> {
    if ps == [] then [] else TunnelsFrom(counts, topic, ps[0], ps[1..]) + TopicTunnels(counts, topic, ps[1..])
  }

  /** The first project of an ascending list precedes the others, which ascend too. */
  lemma AscendingTail(ps: seq<string>)
    requires Ascending(ps) && ps != []
    ensures Ascending(ps[1..]) && forall p | p in ps[1..] :: p in ps && p != ps[0] && Less(ps[0], p) && !Less(p, ps[0])
    ensures forall p | p in ps :: p == ps[0] || p in ps[1..]
  {
    hide Less;
    forall p | p in ps[1..] ensures p in ps && p != ps[0] && Less(ps[0], p) && !Less(p, ps[0]) {
      var i :| 0 <= i < |ps[1..]| && ps[1..][i] == p;
      assert ps[i + 1] == p;
      LessIsAsymmetric(ps[0], p);
    }
  }

  lemma FirstRow(counts: Counts, topic: string, a: string, rest: seq<string>)
    requires Cell(a, topic) in counts && forall p | p in rest :: Cell(p, topic) in counts && Less(a, p)
    ensures forall t :: t in TunnelsFrom(counts, topic, a, rest) <==>
      IsTunnel(counts, t) && t.topic == topic && t.projectA == a && t.projectB in rest
  {
    hide Less;
    var first := TunnelsFrom(counts, topic, a, rest);
    forall t | t in first ensures IsTunnel(counts, t) && t.topic == topic && t.projectA == a && t.projectB in rest {
      var i :| 0 <= i < |first| && first[i] == t;
      TunnelsFromAt(counts, topic, a, rest, i);
      assert rest[i] in rest;
    }
    forall t | IsTunnel(counts, t) && t.topic == topic && t.projectA == a && t.projectB in rest ensures t in first {
      var i :| 0 <= i < |rest| && rest[i] == t.projectB;
      TunnelsFromAt(counts, topic, a, rest, i);
      assert first[i] == t;
    }
  }

  lemma RowDiffers(counts: Counts, topic: string, a: string, rest: seq<string>)
    requires NoRepeats(rest)
    ensures NoRepeats(TunnelsFrom(counts, topic, a, rest))
  {
    forall i, j | 0 <= i < j < |rest|
      ensures TunnelsFrom(counts, topic, a, rest)[i] != TunnelsFrom(counts, topic, a, rest)[j]
    {
      TunnelsFromAt(counts, topic, a, rest, i);
      TunnelsFromAt(counts, topic, a, rest, j);
    }
  }

  lemma NoRepeatsConcat<T>(xs: seq<T>, ys: seq<T>)
    requires NoRepeats(xs) && NoRepeats(ys) && forall x | x in xs :: x !in ys
    ensures NoRepeats(xs + ys)
  {
    assert forall i | 0 <= i < |xs| :: xs[i] in xs;
    assert forall i | 0 <= i < |ys| :: ys[i] in ys;
  }

  lemma {:induction false} TopicTunnelsAre(counts: Counts, topic: string, ps: seq<string>)
    requires Ascending(ps) && forall p | p in ps :: Cell(p, topic) in counts
    ensures forall t :: t in TopicTunnels(counts, topic, ps) <==>
      IsTunnel(counts, t) && t.topic == topic && t.projectA in ps && t.projectB in ps
    ensures NoRepeats(TopicTunnels(counts, topic, ps))
  {
    hide Less, Ascending;
    if ps != [] {
      var a, rest := ps[0], ps[1..];
      AscendingTail(ps);
      TopicTunnelsAre(counts, topic, rest);
      FirstRow(counts, topic, a, rest);
      var first, others := TunnelsFrom(counts, topic, a, rest), TopicTunnels(counts, topic, rest);
      AscendingDiffers(rest);
      RowDiffers(counts, topic, a, rest);
      LessIsIrreflexive(a);
      NoRepeatsConcat(first, others);
      forall t ensures t in first + others <==>
        IsTunnel(counts, t) && t.topic == topic && t.projectA in ps && t.projectB in ps
      {
        assert t in first + others <==> t in first || t in others;
      }
    }
  }

  lemma LessIsIrreflexive(a: string)
    ensures !Less(a, a)
  {
    if Less(a, a) {
      LessIsAsymmetric(a, a);
    }
  }

  lemma AscendingDiffers(ps: seq<string>)
    requires Ascending(ps)
    ensures NoRepeats(ps)
  {
    hide Less;
    forall i, j | 0 <= i < j < |ps| ensures ps[i] != ps[j] {
      LessIsAsymmetric(ps[i], ps[j]);
    }
  }

  /** Each tunnel is emitted exactly once: one per topic and unordered pair of distinct
      projects with rows on it, in order, with true counts. */
  method PalaceGraph(counts: Counts) returns (projects: seq<string>, tunnels: seq<Tunnel>)
    ensures Ascending(projects) && forall p :: p in projects <==> p in ProjectsIn(counts)
    ensures forall t :: t in tunnels <==>
              && Less(t.projectA, t.projectB)
              && Cell(t.projectA, t.topic) in counts && t.countA == counts[Cell(t.projectA, t.topic)]
              && Cell(t.projectB, t.topic) in counts && t.countB == counts[Cell(t.projectB, t.topic)]
    ensures NoRepeats(tunnels)
  {
    hide Less, Ascending, NoRepeats, Covers, ProjectsIn, TopicsIn, ProjectsOn;
    projects := SortedKeys(ProjectsIn(counts));
    var topics := SortedKeys(TopicsIn(counts));
    AscendingDiffers(topics);
    tunnels := [];
    CoversNothing(counts);
    for k := 0 to |topics|
      invariant Covers(counts, tunnels, topics[..k]) && NoRepeats(tunnels)
    {
      var entries := SortedKeys(ProjectsOn(counts, topics[k]));
      var found := TunnelsOfTopic(counts, topics[k], entries);
      NextDiffers(topics, k);
      CoversOneMore(counts, tunnels, found, topics[..k], topics[k]);
      tunnels := tunnels + found;
    }
    assert topics[..|topics|] == topics;
    CoversAll(counts, tunnels, topics);
  }

  /** Exactly the tunnels on some topics. */
  ghost predicate Covers(counts: Counts, tunnels: seq<Tunnel>, topics: seq<string>) {
    forall t :: t in tunnels <==> IsTunnel(counts, t) && t.topic in topics
  }

  lemma CoversNothing(counts: Counts)
    ensures Covers(counts, [], []) && NoRepeats<Tunnel>([])
  {
  }

  lemma CoversOneMore(counts: Counts, tunnels: seq<Tunnel>, found: seq<Tunnel>, topics: seq<string>, topic: string)
    requires Covers(counts, tunnels, topics) && NoRepeats(tunnels) && topic !in topics
    requires NoRepeats(found) && forall t :: t in found <==> IsTunnel(counts, t) && t.topic == topic
    ensures Covers(counts, tunnels + found, topics + [topic]) && NoRepeats(tunnels + found)
  {
    hide IsTunnel;
    NoRepeatsConcat(tunnels, found);
    forall t ensures t in tunnels + found <==> IsTunnel(counts, t) && t.topic in topics + [topic] {
      assert t in tunnels + found <==> t in tunnels || t in found;
      assert t.topic in topics + [topic] <==> t.topic in topics || t.topic == topic;
    }
  }

  lemma CoversAll(counts: Counts, tunnels: seq<Tunnel>, topics: seq<string>)
    requires Covers(counts, tunnels, topics) && forall t :: t in topics <==> t in TopicsIn(counts)
    ensures forall t :: t in tunnels <==> IsTunnel(counts, t)
  {
    hide Less;
    forall t | IsTunnel(counts, t) ensures t.topic in topics {
      assert Cell(t.projectA, t.topic) in counts;
    }
  }

  lemma NextDiffers(xs: seq<string>, k: nat)
    requires NoRepeats(xs) && k < |xs|
    ensures xs[k] !in xs[..k] && xs[..k + 1] == xs[..k] + [xs[k]]
    ensures forall x :: x in xs[..k + 1] <==> x in xs[..k] || x == xs[k]
  {
  }

  /** The nested loops over one topic's projects. */
  method TunnelsOfTopic(counts: Counts, topic: string, entries: seq<string>) returns (tunnels: seq<Tunnel>)
    requires Ascending(entries) && forall p :: p in entries <==> Cell(p, topic) in counts
    ensures forall t :: t in tunnels <==> IsTunnel(counts, t) && t.topic == topic
    ensures NoRepeats(tunnels)
  {
    hide Less, IsTunnel, Connect, TopicTunnels, TunnelsFrom, Ascending, NoRepeats;
    tunnels := [];
    if |entries| < 2 {
      TooFewProjects(counts, topic, entries);
      return;
    }
    for i := 0 to |entries|
      invariant tunnels + TopicTunnels(counts, topic, entries[i..]) == TopicTunnels(counts, topic, entries)
    {
      ghost var before, rest := tunnels, TopicTunnels(counts, topic, entries[i + 1..]);
      ghost var row := TunnelsFrom(counts, topic, entries[i], entries[i + 1..]);
      NextRow(counts, topic, entries, i);
      for j := i + 1 to |entries|
        invariant tunnels == before + row[..j - i - 1]
      {
        TunnelsFromAt(counts, topic, entries[i], entries[i + 1..], j - i - 1);
        tunnels := tunnels + [Connect(counts, topic, entries[i], entries[j])];
      }
      assert row[..|row|] == row;
      assert (before + row) + rest == before + (row + rest);
    }
    NoRow(counts, topic, entries);
    assert tunnels == TopicTunnels(counts, topic, entries);
    TopicTunnelsAre(counts, topic, entries);
    EndsAreEntries(counts, topic, entries);
  }

  lemma TooFewProjects(counts: Counts, topic: string, entries: seq<string>)
    requires |entries| < 2 && forall p :: p in entries <==> Cell(p, topic) in counts
    ensures forall t | IsTunnel(counts, t) :: t.topic != topic
    ensures NoRepeats<Tunnel>([])
  {
    hide Less;
    forall t | IsTunnel(counts, t) ensures t.topic != topic {
      if t.topic == topic {
        assert t.projectA in entries && t.projectB in entries;
        LessIsIrreflexive(t.projectA);
      }
    }
  }

  lemma EndsAreEntries(counts: Counts, topic: string, entries: seq<string>)
    requires forall p :: p in entries <==> Cell(p, topic) in counts
    ensures forall t | IsTunnel(counts, t) && t.topic == topic :: t.projectA in entries && t.projectB in entries
  {
  }

  lemma NextRow(counts: Counts, topic: string, entries: seq<string>, i: nat)
    requires i < |entries|
    ensures TopicTunnels(counts, topic, entries[i..]) ==
            TunnelsFrom(counts, topic, entries[i], entries[i + 1..]) + TopicTunnels(counts, topic, entries[i + 1..])
  {
    assert entries[i..][1..] == entries[i + 1..];
  }

  lemma NoRow(counts: Counts, topic: string, entries: seq<string>)
    ensures TopicTunnels(counts, topic, entries[|entries|..]) == []
  {
  }

  // ---------- totals ----------

  /** The multiplicities of some keys, added up. */
  function SumAt<T(==)>(keys: seq<T>, m: multiset<T>): nat {
    if keys == [] then 0 else m[keys[0]] + SumAt(keys[1..], m)
  }

  lemma {:induction false} SumGrows<T>(keys: seq<T>, m: multiset<T>, x: T)
    requires NoRepeats(keys)
    ensures SumAt(keys, m + multiset{x}) == SumAt(keys, m) + if x in keys then 1 else 0
  {
    if keys != [] {
      SumGrows(keys[1..], m, x);
      assert forall i | 0 < i < |keys| :: keys[i] != keys[0];
    }
  }

  lemma {:induction false} SumOfNothing<T>(keys: seq<T>)
    ensures SumAt(keys, multiset{}) == 0
  {
    if keys != [] {
      SumOfNothing(keys[1..]);
    }
  }

  /** Adding up how often each key occurs counts the occurrences. */
  lemma {:induction false} MultiplicitiesAddUp<T>(keys: seq<T>, xs: seq<T>)
    requires NoRepeats(keys) && forall x | x in xs :: x in keys
    ensures SumAt(keys, multiset(xs)) == |xs|
  {
    if xs == [] {
      SumOfNothing(keys);
    } else {
      var front, last := xs[..|xs| - 1], xs[|xs| - 1];
      assert xs == front + [last];
      MultiplicitiesAddUp(keys, front);
      SumGrows(keys, multiset(front), last);
      assert last in xs;
    }
  }

  function SumOf(counts: Counts, keys: seq<Cell>): nat {
    if keys == [] then 0 else CountAt(counts, keys[0]) + SumOf(counts, keys[1..])
  }

  lemma {:induction false} SumOfCounts(cells: seq<Cell>, counts: Counts, keys: seq<Cell>)
    requires CountsOf(cells, counts)
    ensures SumOf(counts, keys) == SumAt(keys, multiset(cells))
  {
    if keys != [] {
      SumOfCounts(cells, counts, keys[1..]);
      assert keys[0] in cells <==> keys[0] in multiset(cells);
    }
  }

  /** The rooms of a wall, listed once each in any order, count every row once. */
  lemma RoomCountsAddUp(cells: seq<Cell>, counts: Counts, keys: seq<Cell>)
    requires CountsOf(cells, counts) && NoRepeats(keys) && forall c :: c in keys <==> c in counts
    ensures SumOf(counts, keys) == |cells|
  {
    SumOfCounts(cells, counts, keys);
    MultiplicitiesAddUp(keys, cells);
  }

  // ---------- rooms and taxonomy ----------

  /** A project's rooms, and their total. */
  function TotalOf(rooms: seq<Room>): nat {
    if rooms == [] then 0 else rooms[0].count + TotalOf(rooms[1..])
  }

  lemma {:induction false} TotalAppend(xs: seq<Room>, ys: seq<Room>)
    ensures TotalOf(xs + ys) == TotalOf(xs) + TotalOf(ys)
  {
    if xs == [] {
      assert xs + ys == ys;
    } else {
      assert (xs + ys)[1..] == xs[1..] + ys;
      TotalAppend(xs[1..], ys);
    }
  }

  function RowsOf(cells: seq<Cell>, project: string): seq<string> {
    if cells == [] then []
    else if cells[0].project == project then [cells[0].topic] + RowsOf(cells[1..], project)
    else RowsOf(cells[1..], project)
  }

  lemma {:induction false} RowsCounted(cells: seq<Cell>, project: string, topic: string)
    ensures multiset(RowsOf(cells, project))[topic] == multiset(cells)[Cell(project, topic)]
  {
    if cells != [] {
      RowsCounted(cells[1..], project, topic);
      assert cells == [cells[0]] + cells[1..];
    }
  }

  function Projects(cells: seq<Cell>): seq<string> {
    if cells == [] then [] else [cells[0].project] + Projects(cells[1..])
  }

  lemma {:induction false} ProjectsCounted(cells: seq<Cell>, project: string)
    ensures multiset(Projects(cells))[project] == |RowsOf(cells, project)| && |Projects(cells)| == |cells|
    ensures project in Projects(cells) <==> exists c | c in cells :: c.project == project
  {
    if cells != [] {
      ProjectsCounted(cells[1..], project);
      assert forall c :: c in cells <==> c == cells[0] || c in cells[1..];
    }
  }

  /** The taxon lists exactly its project's rooms, with true counts, and their total is the
      number of the project's rows. */
  ghost predicate IsTaxon(cells: seq<Cell>, counts: Counts, taxon: Taxon) {
    && taxon.total == TotalOf(taxon.rooms) == |RowsOf(cells, taxon.project)|
    && NoRepeats(taxon.rooms)
    && forall r: Room :: r in taxon.rooms <==>
      r.project == taxon.project && Cell(r.project, r.topic) in counts && r.count == counts[Cell(r.project, r.topic)]
  }

  /** One project's rooms in a duplicate-free order of its topics add up to its rows. */
  method TaxonOf(ghost cells: seq<Cell>, counts: Counts, project: string) returns (taxon: Taxon)
    requires CountsOf(cells, counts)
    ensures taxon.project == project && IsTaxon(cells, counts, taxon)
    ensures forall r: Room :: r in taxon.rooms <==>
              r.project == project && Cell(project, r.topic) in counts && r.count == counts[Cell(project, r.topic)]
  {
    hide Less, Ascending, CountsOf, SumAt, TotalOf, RowsOf;
    var topics := SortedKeys(TopicsOf(counts, project));
    AscendingDiffers(topics);
    AllTopicsListed(cells, counts, project, topics);
    ghost var rows := multiset(RowsOf(cells, project));
    var rooms: seq<Room>, total := [], 0;
    NothingTotalled(topics);
    for i := 0 to |topics|
      invariant total == TotalOf(rooms) && total + SumAt(topics[i..], rows) == |RowsOf(cells, project)|
      invariant |rooms| == i
      invariant forall k | 0 <= k < i :: rooms[k] == Room(project, topics[k], CountAt(counts, Cell(project, topics[k])))
    {
      NextTopic(cells, counts, project, topics, rooms, i);
      var room := Room(project, topics[i], CountAt(counts, Cell(project, topics[i])));
      rooms, total := rooms + [room], total + room.count;
    }
    NothingLeft(topics, rows);
    RoomsAreComplete(counts, project, topics, rooms);
    taxon := Taxon(project, rooms, total);
  }

  lemma AllTopicsListed(cells: seq<Cell>, counts: Counts, project: string, topics: seq<string>)
    requires CountsOf(cells, counts) && NoRepeats(topics) && forall t :: t in topics <==> t in TopicsOf(counts, project)
    ensures SumAt(topics, multiset(RowsOf(cells, project))) == |RowsOf(cells, project)|
  {
    forall t | t in RowsOf(cells, project) ensures t in topics {
      RowsCounted(cells, project, t);
      assert Cell(project, t) in counts;
    }
    MultiplicitiesAddUp(topics, RowsOf(cells, project));
  }

  lemma RoomsAreComplete(counts: Counts, project: string, topics: seq<string>, rooms: seq<Room>)
    requires |rooms| == |topics| && forall t :: t in topics <==> Cell(project, t) in counts
    requires forall k | 0 <= k < |rooms| ::
      rooms[k] == Room(project, topics[k], CountAt(counts, Cell(project, topics[k])))
    ensures NoRepeats(topics) ==> NoRepeats(rooms)
    ensures forall r: Room :: r in rooms <==>
      r.project == project && Cell(project, r.topic) in counts && r.count == counts[Cell(project, r.topic)]
  {
    forall k | 0 <= k < |rooms|
      ensures Cell(project, rooms[k].topic) in counts && rooms[k].count == counts[Cell(project, rooms[k].topic)]
    {
      assert topics[k] in topics;
    }
    forall r: Room |
      r.project == project && Cell(project, r.topic) in counts && r.count == counts[Cell(project, r.topic)]
      ensures r in rooms
    {
      assert r.topic in topics;
      var k :| 0 <= k < |topics| && topics[k] == r.topic;
      assert rooms[k] == r;
    }
  }

  lemma NothingTotalled(topics: seq<string>)
    ensures TotalOf([]) == 0 && topics[0..] == topics
  {
  }

  lemma NothingLeft(topics: seq<string>, rows: multiset<string>)
    ensures SumAt(topics[|topics|..], rows) == 0
  {
  }

  lemma NextTopic(cells: seq<Cell>, counts: Counts, project: string, topics: seq<string>, rooms: seq<Room>, i: nat)
    requires CountsOf(cells, counts) && i < |topics|
    ensures var count := CountAt(counts, Cell(project, topics[i]));
            && TotalOf(rooms + [Room(project, topics[i], count)]) == TotalOf(rooms) + count
            && SumAt(topics[i..], multiset(RowsOf(cells, project)))
            == count + SumAt(topics[i + 1..], multiset(RowsOf(cells, project)))
  {
    RowsCounted(cells, project, topics[i]);
    assert topics[i..][1..] == topics[i + 1..];
    TotalAppend(rooms, [Room(project, topics[i], CountAt(counts, Cell(project, topics[i])))]);
  }

  function GrandTotal(taxons: seq<Taxon>): nat {
    if taxons == [] then 0 else GrandTotal(taxons[..|taxons| - 1]) + taxons[|taxons| - 1].total
  }

  /** Every row is counted once: the totals of the taxonomy add up to the rows of the wall. */
  method Taxonomy(ghost cells: seq<Cell>, counts: Counts) returns (taxons: seq<Taxon>)
    requires CountsOf(cells, counts)
    ensures GrandTotal(taxons) == |cells|
    ensures forall t | t in taxons :: IsTaxon(cells, counts, t)
    ensures forall t, r: Room | t in taxons :: r in t.rooms <==>
              r.project == t.project && Cell(t.project, r.topic) in counts && r.count == counts[Cell(t.project, r.topic)]
    ensures forall i, j | 0 <= i < j < |taxons| :: taxons[i].project != taxons[j].project
    ensures forall p :: p in ProjectsIn(counts) <==> exists t | t in taxons :: t.project == p
  {
    hide Less, Ascending, CountsOf, SumAt, IsTaxon, GrandTotal, RowsOf, Projects;
    var projects := SortedKeys(ProjectsIn(counts));
    AscendingDiffers(projects);
    AllProjectsListed(cells, counts, projects);
    ghost var listed := multiset(Projects(cells));
    taxons := [];
    NothingSummed();
    for i := 0 to |projects|
      invariant |taxons| == i
      invariant forall k | 0 <= k < i :: taxons[k].project == projects[k] && IsTaxon(cells, counts, taxons[k])
      invariant GrandTotal(taxons) + SumAt(projects[i..], listed) == |cells|
    {
      var taxon := TaxonOf(cells, counts, projects[i]);
      NextProject(cells, counts, taxons, taxon, projects, i);
      taxons := taxons + [taxon];
    }
    NothingLeft(projects, listed);
    ProjectsListedOnce(counts, projects, taxons);
    forall t | t in taxons ensures IsTaxon(cells, counts, t) && RoomsAre(counts, t) {
      TaxonLists(cells, counts, t);
    }
  }

  ghost predicate RoomsAre(counts: Counts, t: Taxon) {
    forall r: Room :: r in t.rooms <==>
      r.project == t.project && Cell(t.project, r.topic) in counts && r.count == counts[Cell(t.project, r.topic)]
  }

  lemma TaxonLists(cells: seq<Cell>, counts: Counts, t: Taxon)
    requires IsTaxon(cells, counts, t)
    ensures RoomsAre(counts, t)
  {
  }

  lemma ProjectsListedOnce(counts: Counts, projects: seq<string>, taxons: seq<Taxon>)
    requires NoRepeats(projects) && forall p :: p in projects <==> p in ProjectsIn(counts)
    requires |taxons| == |projects| && forall k | 0 <= k < |taxons| :: taxons[k].project == projects[k]
    ensures forall i, j | 0 <= i < j < |taxons| :: taxons[i].project != taxons[j].project
    ensures forall p :: p in ProjectsIn(counts) <==> exists t | t in taxons :: t.project == p
  {
    forall p | p in projects ensures exists t | t in taxons :: t.project == p {
      var k :| 0 <= k < |projects| && projects[k] == p;
      assert taxons[k] in taxons;
    }
  }

  lemma NothingSummed()
    ensures GrandTotal([]) == 0
  {
  }

  lemma AllProjectsListed(cells: seq<Cell>, counts: Counts, projects: seq<string>)
    requires CountsOf(cells, counts) && NoRepeats(projects)
    requires forall p :: p in projects <==> p in ProjectsIn(counts)
    ensures SumAt(projects, multiset(Projects(cells))) == |cells|
    ensures projects[0..] == projects
  {
    ProjectsCounted(cells, "");
    forall p | p in Projects(cells) ensures p in projects {
      ProjectsCounted(cells, p);
      var c :| c in cells && c.project == p;
      assert c in counts;
    }
    MultiplicitiesAddUp(projects, Projects(cells));
  }

  lemma NextProject(cells: seq<Cell>, counts: Counts, taxons: seq<Taxon>, taxon: Taxon, projects: seq<string>, i: nat)
    requires i < |projects| && taxon.project == projects[i] && IsTaxon(cells, counts, taxon)
    ensures GrandTotal(taxons + [taxon]) == GrandTotal(taxons) + |RowsOf(cells, projects[i])|
    ensures SumAt(projects[i..], multiset(Projects(cells)))
         == |RowsOf(cells, projects[i])| + SumAt(projects[i + 1..], multiset(Projects(cells)))
  {
    assert (taxons + [taxon])[..|taxons|] == taxons;
    assert projects[i..][1..] == projects[i + 1..];
    ProjectsCounted(cells, projects[i]);
  }
}
