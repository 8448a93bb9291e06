/** What the supersede lock is for, and what it does not cover. */
module Races {
  import opened Wrappers
  import opened Wall
  import opened Transitions
  import opened SupersedeGraph
  import opened ConcurrentSaves
  import opened ConcurrentDoctrine
  import opened DoctrineOutcomes

  function Note(id: MemoryId, content: string, supersedes: Option<MemoryId>): Memory {
    Memory(id, content, "p", "t", Explicit, 0.5, supersedes, None, None, "0")
  }

  /** Two saves that name each other as targets, part-way through. */
  function Mutual(rows: Rows, lock: Option<Pid>, first: Pc, second: Pc): State {
    State(rows, lock, map[0 := Saver(Note("a", "A", Some("b")), first), 1 := Saver(Note("b", "B", Some("a")), second)])
  }

  ghost predicate Takes(s: State, p: Pid, s': State) {
    CanStep(s, p, false) && s' == Step(s, p, true)
  }

  lemma BothReachTheirInserts(a: Memory, b: Memory)
    requires a == Note("a", "A", Some("b")) && b == Note("b", "B", Some("a"))
    ensures Takes(Mutual(map[], None, Start, Start), 0, Mutual(map[], None, Checked, Start))
    ensures Takes(Mutual(map[], None, Checked, Start), 1, Mutual(map[], None, Checked, Checked))
    ensures Takes(Mutual(map[], None, Checked, Checked), 0, Mutual(map[], Some(0), Holding, Checked))
    ensures Takes(Mutual(map[], Some(0), Holding, Checked), 1, Mutual(map[], Some(1), Holding, Holding))
    ensures Takes(Mutual(map[], Some(1), Holding, Holding), 0, Mutual(map["a" := a], Some(1), Inserted, Holding))
  {
  }

  lemma BothInsertAndOneClaims(a: Memory, b: Memory)
    requires a == Note("a", "A", Some("b")) && b == Note("b", "B", Some("a"))
    ensures var inserted := map["a" := a, "b" := b];
            var claimed := map["a" := a, "b" := b.(supersededBy := Some("a"))];
            && Takes(Mutual(map["a" := a], Some(1), Inserted, Holding), 1,
                     Mutual(inserted, Some(1), Inserted, Inserted))
            && Takes(Mutual(inserted, Some(1), Inserted, Inserted), 0,
                     Mutual(claimed, Some(1), Releasing(Ok("a")), Inserted))
  {
  }

  lemma OtherClaims(a: Memory, b: Memory)
    requires a == Note("a", "A", Some("b")) && b == Note("b", "B", Some("a"))
    ensures var claimed := map["a" := a, "b" := b.(supersededBy := Some("a"))];
            var crossed := map["a" := a.(supersededBy := Some("b")), "b" := b.(supersededBy := Some("a"))];
            Takes(Mutual(claimed, Some(1), Releasing(Ok("a")), Inserted), 1,
                  Mutual(crossed, Some(1), Releasing(Ok("a")), Releasing(Ok("b"))))
  {
  }

  /** Without the lock both inserts can precede both claims, and the claims close a cycle. */
  lemma WithoutLockMutualSavesCycle() returns (states: seq<State>, order: seq<Pid>)
    ensures |states| == |order| + 1 && states[0] == Mutual(map[], None, Start, Start)
    ensures forall i | 0 <= i < |order| :: Takes(states[i], order[i], states[i + 1])
    ensures Initial(states[0]) && !Acyclic(LinksOf(states[|order|].rows))
  {
    hide Takes, Note, Initial, Acyclic, LinksOf;
    var a, b := Note("a", "A", Some("b")), Note("b", "B", Some("a"));
    var inserted := map["a" := a, "b" := b];
    var claimed := map["a" := a, "b" := b.(supersededBy := Some("a"))];
    var crossed := map["a" := a.(supersededBy := Some("b")), "b" := b.(supersededBy := Some("a"))];
    order := [0, 1, 0, 1, 0, 1, 0, 1];
    states := [
      Mutual(map[], None, Start, Start),
      Mutual(map[], None, Checked, Start),
      Mutual(map[], None, Checked, Checked),
      Mutual(map[], Some(0), Holding, Checked),
      Mutual(map[], Some(1), Holding, Holding),
      Mutual(map["a" := a], Some(1), Inserted, Holding),
      Mutual(inserted, Some(1), Inserted, Inserted),
      Mutual(claimed, Some(1), Releasing(Ok("a")), Inserted),
      Mutual(crossed, Some(1), Releasing(Ok("a")), Releasing(Ok("b")))
    ];
    BothReachTheirInserts(a, b);
    BothInsertAndOneClaims(a, b);
    OtherClaims(a, b);
    MutualEnds(a, b);
  }

  lemma MutualEnds(a: Memory, b: Memory)
    requires a == Note("a", "A", Some("b")) && b == Note("b", "B", Some("a"))
    ensures Initial(Mutual(map[], None, Start, Start))
    ensures !Acyclic(LinksOf(map["a" := a.(supersededBy := Some("b")), "b" := b.(supersededBy := Some("a"))]))
  {
    var links := LinksOf(map["a" := a.(supersededBy := Some("b")), "b" := b.(supersededBy := Some("a"))]);
    assert IsCycle(links, ["a", "b", "a"]);
  }

  // ---------- saves against ingests ----------

  /** A save of `y` that supersedes `x`, while `y` is ingested with the body `x` holds. */
  function Racing(rows: Rows, lock: Option<Pid>, doctrineLock: Option<Pid>, save: Pc, ingest: Stage): System {
    System(State(rows, lock, map[0 := Saver(Note("y", "D", Some("x")), save)]), doctrineLock,
           map[0 := Worker(IngestTask(DoctrineDoc("y", "C", "p", "t", "0")), ingest)])
  }

  function OnlyX(): Rows {
    map["x" := Note("x", "C", None)]
  }

  function BothRows(byX: Option<MemoryId>, byY: Option<MemoryId>): Rows {
    map["x" := Note("x", "C", None).(supersededBy := byY), "y" := Note("y", "D", Some("x")).(supersededBy := byX)]
  }

  const SAVING := SaveMove(SaverStep(0, true))
  const INGESTING := DoctrineMove(0, Inputs(Some("x"), true, 1, None))

  predicate Goes(s: System, m: Move, s': System) {
    CanMove(s, m) && s' == AfterMove(s, m)
  }

  lemma SaveUpToClaim()
    ensures Goes(Racing(OnlyX(), None, None, Start, Waiting), SAVING, Racing(OnlyX(), None, None, Checked, Waiting))
    ensures Goes(Racing(OnlyX(), None, None, Checked, Waiting), SAVING,
                 Racing(OnlyX(), Some(0), None, Holding, Waiting))
    ensures Goes(Racing(OnlyX(), Some(0), None, Holding, Waiting), SAVING,
                 Racing(BothRows(None, None), Some(0), None, Inserted, Waiting))
  {
  }

  lemma IngestReads(y: Memory)
    requires y == Note("y", "D", Some("x"))
    ensures var rows := BothRows(None, None);
            && Goes(Racing(rows, Some(0), None, Inserted, Waiting), INGESTING,
                    Racing(rows, Some(0), Some(0), Inserted, Loading))
            && Goes(Racing(rows, Some(0), Some(0), Inserted, Loading), INGESTING,
                    Racing(rows, Some(0), Some(0), Inserted, Comparing(Some(y))))
  {
  }

  lemma IngestUpToRetire(y: Memory)
    requires y == Note("y", "D", Some("x"))
    ensures var rows := BothRows(None, None);
            && Goes(Racing(rows, Some(0), Some(0), Inserted, Comparing(Some(y))), INGESTING,
                    Racing(rows, Some(0), Some(0), Inserted, FoundElsewhere(Some(y), "x")))
            && Goes(Racing(rows, Some(0), Some(0), Inserted, FoundElsewhere(Some(y), "x")), INGESTING,
                    Racing(rows, Some(0), Some(0), Inserted, Retiring("x")))
  {
  }

  lemma ClaimThenRetire()
    ensures var s := Racing(BothRows(None, None), Some(0), Some(0), Inserted, Retiring("x"));
            var claimed := Racing(BothRows(None, Some("y")), Some(0), Some(0), Releasing(Ok("y")), Retiring("x"));
            var crossed := Racing(BothRows(Some("x"), Some("y")), Some(0), None,
                                  Releasing(Ok("y")), Finished(Answered("x")));
            Goes(s, SAVING, claimed) && Goes(claimed, INGESTING, crossed) && Retires(claimed, 0)
  {
  }

  lemma RetireThenClaim()
    ensures var s := Racing(BothRows(None, None), Some(0), Some(0), Inserted, Retiring("x"));
            var retired := Racing(BothRows(Some("x"), None), Some(0), None, Inserted, Finished(Answered("x")));
            var crossed := Racing(BothRows(Some("x"), Some("y")), Some(0), None,
                                  Releasing(Ok("y")), Finished(Answered("x")));
            Goes(s, INGESTING, retired) && Goes(retired, SAVING, crossed) && Claims(retired, 0)
  {
  }

  lemma RaceIsReachable() returns (states: seq<System>, moves: seq<Move>)
    ensures Schedule(states, moves) && Fresh(states[0]) && Acyclic(LinksOf(states[0].saves.rows))
    ensures states[|moves|] == Racing(BothRows(None, None), Some(0), Some(0), Inserted, Retiring("x"))
  {
    var y := Note("y", "D", Some("x"));
    hide CanMove, AfterMove, BothRows, Note;
    SaveUpToClaim();
    IngestReads(y);
    IngestUpToRetire(y);
    moves := [SAVING, SAVING, SAVING, INGESTING, INGESTING, INGESTING, INGESTING];
    states := [
      Racing(OnlyX(), None, None, Start, Waiting),
      Racing(OnlyX(), None, None, Checked, Waiting),
      Racing(OnlyX(), Some(0), None, Holding, Waiting),
      Racing(BothRows(None, None), Some(0), None, Inserted, Waiting),
      Racing(BothRows(None, None), Some(0), Some(0), Inserted, Loading),
      Racing(BothRows(None, None), Some(0), Some(0), Inserted, Comparing(Some(y))),
      Racing(BothRows(None, None), Some(0), Some(0), Inserted, FoundElsewhere(Some(y), "x")),
      Racing(BothRows(None, None), Some(0), Some(0), Inserted, Retiring("x"))
    ];
    StartsWell();
  }

  lemma StartsWell()
    ensures Fresh(Racing(OnlyX(), None, None, Start, Waiting)) && Acyclic(LinksOf(OnlyX()))
  {
    assert LinksOf(OnlyX()) == map[];
    assert forall p :: !IsCycle(map[], p);
  }

  lemma CrossedRowsCycle()
    ensures !Acyclic(LinksOf(BothRows(Some("x"), Some("y"))))
  {
    assert IsCycle(LinksOf(BothRows(Some("x"), Some("y"))), ["x", "y", "x"]);
  }

  /** The doctrine lock does not exclude saves. A retirement decided before a claim and
      written after it leaves two rows superseding each other ... */
  lemma RetireRacesClaimIntoCycle() returns (states: seq<System>, moves: seq<Move>)
    ensures Schedule(states, moves) && Fresh(states[0]) && Acyclic(LinksOf(states[0].saves.rows))
    ensures !Acyclic(LinksOf(states[|moves|].saves.rows))
    ensures Retires(states[|moves| - 1], 0)
  {
    hide CanMove, AfterMove, Fresh, Acyclic, LinksOf, BothRows, Note, Retires;
    states, moves := RaceIsReachable();
    ClaimThenRetire();
    states := states + [
      Racing(BothRows(None, Some("y")), Some(0), Some(0), Releasing(Ok("y")), Retiring("x")),
      Racing(BothRows(Some("x"), Some("y")), Some(0), None, Releasing(Ok("y")), Finished(Answered("x")))];
    moves := moves + [SAVING, INGESTING];
    CrossedRowsCycle();
  }

  /** ... and so does one written before the claim, while the retired row's save is in flight:
      no retirement then leads back when it is written, and the claim closes the cycle. */
  lemma RetiredInFlightClaimsIntoCycle() returns (states: seq<System>, moves: seq<Move>)
    ensures Schedule(states, moves) && Fresh(states[0]) && Acyclic(LinksOf(states[0].saves.rows))
    ensures !Acyclic(LinksOf(states[|moves|].saves.rows))
    ensures Claims(states[|moves| - 1], 0)
  {
    hide CanMove, AfterMove, Fresh, Acyclic, LinksOf, BothRows, Note, Claims;
    states, moves := RaceIsReachable();
    RetireThenClaim();
    states := states + [
      Racing(BothRows(Some("x"), None), Some(0), None, Inserted, Finished(Answered("x"))),
      Racing(BothRows(Some("x"), Some("y")), Some(0), None, Releasing(Ok("y")), Finished(Answered("x")))];
    moves := moves + [INGESTING, SAVING];
    CrossedRowsCycle();
  }

  // ---------- a rollback that read too early ----------

  /** `x`, two saves that supersede it, and a rollback of `x`. */
  function Reopening(rows: Rows, lock: Option<Pid>, doctrineLock: Option<Pid>,
                     first: Pc, second: Pc, rollback: Stage): System {
    System(State(rows, lock, map[0 := Saver(Y(), first), 1 := Saver(Z(), second)]), doctrineLock,
           map[0 := Worker(RollbackTask("x", 1), rollback)])
  }

  const SAVING2 := SaveMove(SaverStep(1, true))
  const ROLLING := DoctrineMove(0, Inputs(None, true, 0, Some("B")))

  function X(content: string, revision: Option<nat>, by': Option<MemoryId>): Memory {
    Note("x", content, None).(revision := revision, supersededBy := by')
  }

  function Y(): Memory {
    Note("y", "D", Some("x"))
  }

  function Z(): Memory {
    Note("z", "E", Some("x"))
  }

  lemma RollbackReads()
    ensures var rows: Rows, read := map["x" := X("C", None, None)], Rewriting(X("C", None, None), "B");
            && Goes(Reopening(rows, None, None, Start, Start, Waiting), ROLLING,
                    Reopening(rows, None, Some(0), Start, Start, Loading))
            && Goes(Reopening(rows, None, Some(0), Start, Start, Loading), ROLLING,
                    Reopening(rows, None, Some(0), Start, Start, read))
  {
  }

  lemma FirstSaveInserts(read: Stage)
    requires read == Rewriting(X("C", None, None), "B")
    ensures var rows: Rows := map["x" := X("C", None, None)];
            && Goes(Reopening(rows, None, Some(0), Start, Start, read), SAVING,
                    Reopening(rows, None, Some(0), Checked, Start, read))
            && Goes(Reopening(rows, None, Some(0), Checked, Start, read), SAVING,
                    Reopening(rows, Some(0), Some(0), Holding, Start, read))
            && Goes(Reopening(rows, Some(0), Some(0), Holding, Start, read), SAVING,
                    Reopening(rows["y" := Y()], Some(0), Some(0), Inserted, Start, read))
  {
  }

  lemma FirstSaveSucceeds(read: Stage)
    requires read == Rewriting(X("C", None, None), "B")
    ensures var both: Rows, claimed: Rows := map["x" := X("C", None, None)]["y" := Y()],
                                             map["x" := X("C", None, Some("y")), "y" := Y()];
            && Goes(Reopening(both, Some(0), Some(0), Inserted, Start, read), SAVING,
                    Reopening(claimed, Some(0), Some(0), Releasing(Ok("y")), Start, read))
            && Goes(Reopening(claimed, Some(0), Some(0), Releasing(Ok("y")), Start, read), SAVING,
                    Reopening(claimed, None, Some(0), Done(Ok("y")), Start, read))
  {
  }

  lemma RollbackUndoesClaim(read: Stage)
    requires read == Rewriting(X("C", None, None), "B")
    ensures var claimed: Rows := map["x" := X("C", None, Some("y")), "y" := Y()];
            var undone: Rows := map["x" := X("B", Some(1), None), "y" := Y()];
            var before := Reopening(claimed, None, Some(0), Done(Ok("y")), Start, read);
            && Goes(before, ROLLING, Reopening(undone, None, None, Done(Ok("y")), Start, Finished(Written)))
            && Rewrites(before, 0, ROLLING.inputs) && Reopens(before, ROLLING)
  {
    var claimed: Rows := map["x" := X("C", None, Some("y")), "y" := Y()];
    assert HasSuccessor(Reopening(claimed, None, Some(0), Done(Ok("y")), Start, read), "x", 0);
  }

  lemma SecondSaveInserts(done: Stage)
    requires done == Finished(Written)
    ensures var undone: Rows := map["x" := X("B", Some(1), None), "y" := Y()];
            && Goes(Reopening(undone, None, None, Done(Ok("y")), Start, done), SAVING2,
                    Reopening(undone, None, None, Done(Ok("y")), Checked, done))
            && Goes(Reopening(undone, None, None, Done(Ok("y")), Checked, done), SAVING2,
                    Reopening(undone, Some(1), None, Done(Ok("y")), Holding, done))
            && Goes(Reopening(undone, Some(1), None, Done(Ok("y")), Holding, done), SAVING2,
                    Reopening(undone["z" := Z()], Some(1), None, Done(Ok("y")), Inserted, done))
  {
  }

  lemma SecondSaveSucceeds(done: Stage)
    requires done == Finished(Written)
    ensures var three: Rows := map["x" := X("B", Some(1), None), "y" := Y()]["z" := Z()];
            Goes(Reopening(three, Some(1), None, Done(Ok("y")), Inserted, done), SAVING2,
                 Reopening(three["x" := X("B", Some(1), Some("z"))], Some(1), None,
                           Done(Ok("y")), Releasing(Ok("z")), done))
  {
  }

  lemma TwoHaveSucceeded(rows: Rows)
    ensures !Single(Reopening(rows, Some(1), None, Done(Ok("y")), Releasing(Ok("z")), Finished(Written)))
  {
    var s := Reopening(rows, Some(1), None, Done(Ok("y")), Releasing(Ok("z")), Finished(Written));
    assert HasSuccessor(s, "x", 0) && HasSuccessor(s, "x", 1);
  }

  /** A rollback that read its row before a save claimed it writes the row back unclaimed, and
      a second save supersedes it as successfully as the first. */
  lemma RollbackAllowsSecondSuccessor() returns (states: seq<System>, moves: seq<Move>)
    ensures Schedule(states, moves) && Fresh(states[0]) && !Single(states[|moves|])
    ensures |moves| == 12 && moves[7] == ROLLING
    ensures Rewrites(states[7], 0, ROLLING.inputs) && Reopens(states[7], moves[7])
  {
    hide CanMove, AfterMove, Fresh, Single, Reopens, Rewrites, Reopening, X, Y, Z;
    var rows: Rows, read, done := map["x" := X("C", None, None)], Rewriting(X("C", None, None), "B"), Finished(Written);
    var both, claimed: Rows := rows["y" := Y()], map["x" := X("C", None, Some("y")), "y" := Y()];
    var undone: Rows := map["x" := X("B", Some(1), None), "y" := Y()];
    var three, taken := undone["z" := Z()], undone["z" := Z()]["x" := X("B", Some(1), Some("z"))];
    moves := [ROLLING, ROLLING, SAVING, SAVING, SAVING, SAVING, SAVING, ROLLING, SAVING2, SAVING2, SAVING2, SAVING2];
    states := [
      Reopening(rows, None, None, Start, Start, Waiting),
      Reopening(rows, None, Some(0), Start, Start, Loading),
      Reopening(rows, None, Some(0), Start, Start, read),
      Reopening(rows, None, Some(0), Checked, Start, read),
      Reopening(rows, Some(0), Some(0), Holding, Start, read),
      Reopening(both, Some(0), Some(0), Inserted, Start, read),
      Reopening(claimed, Some(0), Some(0), Releasing(Ok("y")), Start, read),
      Reopening(claimed, None, Some(0), Done(Ok("y")), Start, read),
      Reopening(undone, None, None, Done(Ok("y")), Start, done),
      Reopening(undone, None, None, Done(Ok("y")), Checked, done),
      Reopening(undone, Some(1), None, Done(Ok("y")), Holding, done),
      Reopening(three, Some(1), None, Done(Ok("y")), Inserted, done),
      Reopening(taken, Some(1), None, Done(Ok("y")), Releasing(Ok("z")), done)
    ];
    TwoHaveSucceeded(taken);
    ReopeningStarts(rows);
    RollbackReads();
    FirstSaveInserts(read);
    FirstSaveSucceeds(read);
    RollbackUndoesClaim(read);
    SecondSaveInserts(done);
    SecondSaveSucceeds(done);
  }

  lemma ReopeningStarts(rows: Rows)
    ensures Fresh(Reopening(rows, None, None, Start, Start, Waiting))
  {
  }

  // ---------- an ingest that loses its row to a save ----------

  /** Document `d`, about to be replaced, and a save of the body it is to get. */
  function Losing(rows: Rows, doctrineLock: Option<Pid>, save: Pc, ingest: Stage): System {
    System(State(rows, None, map[0 := Saver(Note("s", "N", None), save)]), doctrineLock,
           map[0 := Worker(IngestTask(DoctrineDoc("d", "N", "p", "t", "0")), ingest)])
  }

  const REPLACING := DoctrineMove(0, Inputs(None, true, 2, None))

  lemma IngestUpToDelete(old': Memory)
    requires old' == Note("d", "O", None)
    ensures var rows: Rows := map["d" := old'];
            && Goes(Losing(rows, None, Start, Waiting), REPLACING, Losing(rows, Some(0), Start, Loading))
            && Goes(Losing(rows, Some(0), Start, Loading), REPLACING,
                    Losing(rows, Some(0), Start, Comparing(Some(old'))))
            && Goes(Losing(rows, Some(0), Start, Comparing(Some(old'))), REPLACING,
                    Losing(rows, Some(0), Start, Deleting))
            && Goes(Losing(rows, Some(0), Start, Deleting), REPLACING, Losing(map[], Some(0), Start, Storing))
  {
    var rows: Rows := map["d" := old'];
    assert rows - {"d"} == map[];
  }

  lemma SaveStepsIn(saved: Memory)
    requires saved == Note("s", "N", None)
    ensures var after: Rows := map["s" := saved];
            && Goes(Losing(map[], Some(0), Start, Storing), SAVING, Losing(map[], Some(0), Checked, Storing))
            && Goes(Losing(map[], Some(0), Checked, Storing), SAVING, Losing(after, Some(0), Done(Ok("s")), Storing))
            && Goes(Losing(after, Some(0), Done(Ok("s")), Storing), REPLACING,
                    Losing(after, None, Done(Ok("s")), Finished(Refused(Duplicate))))
  {
    var after: Rows := map["s" := saved];
    assert LiveHolder(after, "N", "s");
  }

  /** A save of the body an ingest is putting in takes its place between the ingest's delete
      and its insert: the ingest is refused and its document has no row. */
  lemma SaveCostsIngestItsRow() returns (states: seq<System>, moves: seq<Move>)
    ensures Schedule(states, moves) && Fresh(states[0]) && "d" in states[0].saves.rows
    ensures var last := states[|moves|];
            && 0 in last.workers && last.workers[0].stage == Finished(Refused(Duplicate))
            && "d" !in last.saves.rows
  {
    var old', saved := Note("d", "O", None), Note("s", "N", None);
    var rows: Rows, after: Rows := map["d" := old'], map["s" := saved];
    hide CanMove, AfterMove;
    IngestUpToDelete(old');
    SaveStepsIn(saved);
    moves := [REPLACING, REPLACING, REPLACING, REPLACING, SAVING, SAVING, REPLACING];
    states := [
      Losing(rows, None, Start, Waiting),
      Losing(rows, Some(0), Start, Loading),
      Losing(rows, Some(0), Start, Comparing(Some(old'))),
      Losing(rows, Some(0), Start, Deleting),
      Losing(map[], Some(0), Start, Storing),
      Losing(map[], Some(0), Checked, Storing),
      Losing(after, Some(0), Done(Ok("s")), Storing),
      Losing(after, None, Done(Ok("s")), Finished(Refused(Duplicate)))
    ];
  }

  // ---------- one body, two saves ----------

  /** The dedup check is not part of the insert. An insert keeps live content unique exactly
      when no live row holds the body at that moment ... */
  lemma InsertKeepsUniqueIff(rows: Rows, m: Memory)
    requires UniqueLive(rows) && m.id !in rows && m.Live()
    ensures UniqueLive(rows[m.id := m]) <==> !HeldLive(rows, m.content)
  {
    var rows' := rows[m.id := m];
    if HeldLive(rows, m.content) {
      var holder :| holder in rows && LiveHolder(rows, m.content, holder);
      assert LiveHolder(rows', m.content, holder) && LiveHolder(rows', m.content, m.id);
    } else {
      forall i, j, b | LiveHolder(rows', b, i) && LiveHolder(rows', b, j) ensures i == j {
        assert i != m.id ==> LiveHolder(rows, b, i);
        assert j != m.id ==> LiveHolder(rows, b, j);
      }
    }
  }

  /** Inserts a body that a live row holds by now. */
  predicate Duplicates(s: State, e: Event) {
    e.SaverStep? && Inserts(s, e.p) && HeldLive(s.rows, s.savers[e.p].memory.content)
  }

  lemma StepKeepsUniqueLiveIff(s: State, e: Event)
    requires LockInv(s) && CanHappen(s, e) && UniqueLive(s.rows)
    ensures UniqueLive(After(s, e).rows) <==> !Duplicates(s, e)
  {
    hide UniqueLive, HeldLive;
    if e.SaverStep? && Inserts(s, e.p) {
      assert SaverInv(s.rows, s.lock, e.p, s.savers[e.p]);
      InsertKeepsUniqueIff(s.rows, s.savers[e.p].memory);
    } else {
      OtherStepsAddNoHolder(s, e);
      NoNewHolderStaysUnique(s.rows, After(s, e).rows);
    }
  }

  lemma NoNewHolderStaysUnique(rows: Rows, rows': Rows)
    requires UniqueLive(rows) && forall id, b | LiveHolder(rows', b, id) :: LiveHolder(rows, b, id)
    ensures UniqueLive(rows')
  {
  }

  /** Any interleaving of saves and deletes keeps live content unique throughout exactly when
      none of its inserts happens while a live row holds the body. */
  lemma {:induction false} InterleavingKeepsUniqueIff(states: seq<State>, events: seq<Event>)
    requires Interleaving(states, events) && Initial(states[0]) && UniqueLive(states[0].rows)
    ensures (forall i | 0 <= i < |states| :: UniqueLive(states[i].rows))
            <==> (forall i | 0 <= i < |events| :: !Duplicates(states[i], events[i]))
    ensures forall i | 0 <= i < |states| :: LockInv(states[i])
    decreases |events|
  {
    hide UniqueLive, LockInv, After, CanHappen, Duplicates;
    if events == [] {
      InitialLockInv(states[0]);
    } else {
      var n := |events| - 1;
      var states', events' := states[..n + 1], events[..n];
      InterleavingKeepsUniqueIff(states', events');
      assert forall i | 0 <= i < |states| :: i < |states'| ==> states[i] == states'[i];
      assert forall i | 0 <= i < n :: Duplicates(states[i], events[i]) == Duplicates(states'[i], events'[i]);
      LockInvKept(states[n], events[n]);
      if UniqueLive(states[n].rows) {
        StepKeepsUniqueLiveIff(states[n], events[n]);
      }
      assert states[n + 1] == After(states[n], events[n]);
    }
  }

  lemma InitialLockInv(s: State)
    requires Initial(s)
    ensures LockInv(s)
  {
  }

  /** Two saves of one body under two ids. */
  function Twins(rows: Rows, first: Pc, second: Pc): State {
    State(rows, None, map[0 := Saver(Note("a", "C", None), first), 1 := Saver(Note("b", "C", None), second)])
  }

  lemma BothCheckThenInsert(a: Memory, b: Memory)
    requires a == Note("a", "C", None) && b == Note("b", "C", None)
    ensures Takes(Twins(map[], Start, Start), 0, Twins(map[], Checked, Start))
    ensures Takes(Twins(map[], Checked, Start), 1, Twins(map[], Checked, Checked))
    ensures Takes(Twins(map[], Checked, Checked), 0, Twins(map["a" := a], Done(Ok("a")), Checked))
    ensures Takes(Twins(map["a" := a], Done(Ok("a")), Checked), 1,
                  Twins(map["a" := a, "b" := b], Done(Ok("a")), Done(Ok("b"))))
  {
  }

  /** ... and two saves of one body can both check before either inserts. */
  lemma TwinSavesDuplicate() returns (states: seq<State>, events: seq<Event>)
    ensures Interleaving(states, events) && Initial(states[0]) && UniqueLive(states[0].rows)
    ensures !UniqueLive(states[|events|].rows)
  {
    hide Step;
    var a, b := Note("a", "C", None), Note("b", "C", None);
    events := [SaverStep(0, true), SaverStep(1, true), SaverStep(0, true), SaverStep(1, true)];
    states := [
      Twins(map[], Start, Start),
      Twins(map[], Checked, Start),
      Twins(map[], Checked, Checked),
      Twins(map["a" := a], Done(Ok("a")), Checked),
      Twins(map["a" := a, "b" := b], Done(Ok("a")), Done(Ok("b")))
    ];
    BothCheckThenInsert(a, b);
    assert LiveHolder(states[4].rows, "C", "a") && LiveHolder(states[4].rows, "C", "b");
  }
}
