/** What an ingest or rollback guarantees when it returns: liveness of the returned row,
    idempotence, uniqueness of live content, and truthful `active` flags. */
module DoctrineOutcomes {
  import opened Wrappers
  import opened Wall
  import opened Transitions
  import opened DoctrineIdentity

  // ---------- totality ----------

  /** An ingest whose embedder works always succeeds, loses no row, and returns a live row
      that holds exactly the ingested body at the returned number. */
  lemma IngestIsTotal(w: Wall, doc: DoctrineDoc, answer: Option<MemoryId>)
    requires IsDuplicateAnswer(w.rows, doc.content, answer)
    ensures var (w', r) := Ingest(w, doc, answer, true);
            && r.Ok?
            && w.rows.Keys <= w'.rows.Keys
            && (doc.id in w'.rows || Elsewhere(doc, answer))
            && LiveHolder(w'.rows, doc.content, r.value.0)
            && w'.rows[r.value.0].Number() == r.value.1
  {
  }

  /** An ingest destroys a row exactly when the embedder refuses the body of a document
      that is present and due for replacement: the row is deleted before the body is embedded. */
  lemma IngestDestroysRowIff(w: Wall, doc: DoctrineDoc, answer: Option<MemoryId>, embeds: bool)
    requires IsDuplicateAnswer(w.rows, doc.content, answer)
    ensures w.rows.Keys <= Ingest(w, doc, answer, embeds).0.rows.Keys
            <==> embeds || doc.id !in w.rows || !Replaces(w, doc, answer)
  {
    var w' := Ingest(w, doc, answer, embeds).0;
    if !embeds && doc.id in w.rows && Replaces(w, doc, answer) {
      assert doc.id !in w'.rows.Keys;
    }
  }

  // ---------- uniqueness of live content ----------

  ghost predicate UniqueLive(rows: Rows) {
    forall i, j, b :: LiveHolder(rows, b, i) && LiveHolder(rows, b, j) ==> i == j
  }

  lemma SaveKeepsUnique(w: Wall, m: Memory, embeds: bool)
    requires UniqueLive(w.rows)
    ensures UniqueLive(Save(w, m, embeds).0.rows)
  {
    var rows' := Save(w, m, embeds).0.rows;
    forall i, j, b | LiveHolder(rows', b, i) && LiveHolder(rows', b, j)
      ensures i == j
    {
      assert i != m.id ==> LiveHolder(w.rows, b, i);
      assert j != m.id ==> LiveHolder(w.rows, b, j);
    }
  }

  lemma IngestKeepsUnique(w: Wall, doc: DoctrineDoc, answer: Option<MemoryId>, embeds: bool)
    requires UniqueLive(w.rows) && IsDuplicateAnswer(w.rows, doc.content, answer)
    ensures UniqueLive(Ingest(w, doc, answer, embeds).0.rows)
  {
    var rows' := Ingest(w, doc, answer, embeds).0.rows;
    forall i, j, b | LiveHolder(rows', b, i) && LiveHolder(rows', b, j)
      ensures i == j
    {
      assert i != doc.id ==> LiveHolder(w.rows, b, i);
      assert j != doc.id ==> LiveHolder(w.rows, b, j);
    }
  }

  /** A rollback that goes through does no content dedup: it keeps live content unique
      exactly when the row is retired or no other live row holds the restored body. */
  lemma RollbackKeepsUniqueIff(w: Wall, id: MemoryId, to: nat)
    requires UniqueLive(w.rows) && to in w.VersionsOf(id) && id in w.rows
    ensures UniqueLive(Rollback(w, id, to, true).0.rows)
            <==> !w.rows[id].Live() || !HeldLive(w.rows - {id}, w.VersionsOf(id)[to].content)
  {
    var rows', body := Rollback(w, id, to, true).0.rows, w.VersionsOf(id)[to].content;
    forall i, b | i != id
      ensures LiveHolder(rows', b, i) == LiveHolder(w.rows, b, i) == LiveHolder(w.rows - {id}, b, i)
    {}
    if w.rows[id].Live() && HeldLive(w.rows - {id}, body) {
      var other :| other in w.rows - {id} && LiveHolder(w.rows - {id}, body, other);
      assert LiveHolder(rows', body, other) && LiveHolder(rows', body, id);
    }
  }

  /** A rollback that goes through puts no body back that another live row holds. */
  predicate UniquenessSafe(w: Wall, op: Op) {
    op.RollbackOp? && op.rollbackEmbeds && op.to in w.VersionsOf(op.id) && op.id in w.rows && w.rows[op.id].Live() ==>
      !HeldLive(w.rows - {op.id}, w.VersionsOf(op.id)[op.to].content)
  }

  lemma StepKeepsUniqueIff(w: Wall, op: Op)
    requires UniqueLive(w.rows) && Enabled(w, op)
    ensures UniqueLive(Apply(w, op).rows) <==> UniquenessSafe(w, op)
  {
    match op
    case SaveOp(m, embeds) => SaveKeepsUnique(w, m, embeds);
    case IngestOp(doc, answer, embeds) => IngestKeepsUnique(w, doc, answer, embeds);
    case RollbackOp(id, to, embeds) =>
      if embeds && to in w.VersionsOf(id) && id in w.rows {
        RollbackKeepsUniqueIff(w, id, to);
      }
    case DeleteOp(id) => FewerRowsStayUnique(w.rows, w.rows - {id});
  }

  lemma FewerRowsStayUnique(rows: Rows, rows': Rows)
    requires UniqueLive(rows) && forall id | id in rows' :: id in rows && rows[id] == rows'[id]
    ensures UniqueLive(rows')
  {
    forall i, j, b | LiveHolder(rows', b, i) && LiveHolder(rows', b, j) ensures i == j {
      assert LiveHolder(rows, b, i) && LiveHolder(rows, b, j);
    }
  }

  /** A serial run keeps live content unique throughout exactly when every rollback in it is
      safe in this sense; saves, ingests and deletes always are. */
  lemma {:induction false} RunKeepsUniqueIff(walls: seq<Wall>, ops: seq<Op>)
    requires Run(walls, ops) && UniqueLive(walls[0].rows)
    ensures (forall i | 0 <= i < |walls| :: UniqueLive(walls[i].rows))
            <==> (forall i | 0 <= i < |ops| :: UniquenessSafe(walls[i], ops[i]))
    decreases |ops|
  {
    hide UniqueLive, UniquenessSafe, Apply, Enabled;
    if ops != [] {
      var n := |ops| - 1;
      var walls', ops' := walls[..n + 1], ops[..n];
      RunKeepsUniqueIff(walls', ops');
      assert forall i | 0 <= i < |walls| :: i < |walls'| ==> walls[i] == walls'[i];
      assert forall i | 0 <= i < n :: UniquenessSafe(walls[i], ops[i]) == UniquenessSafe(walls'[i], ops'[i]);
      if UniqueLive(walls[n].rows) {
        StepKeepsUniqueIff(walls[n], ops[n]);
        assert walls[n + 1] == Apply(walls[n], ops[n]);
      }
    }
  }

  /** Two documents whose bodies crossed: `a` moved on from a body `b` then took up. */
  function Crossed(): Wall {
    Wall(map["a" := DoctrineDoc("a", "new", "p", "t", "0").ToMemory(2),
             "b" := DoctrineDoc("b", "old", "p", "t", "0").ToMemory(1)],
         map["a" := map[1 := Version("old", false)]])
  }

  lemma RollbackCanDuplicate()
    ensures (forall id :: Inv(Crossed(), id)) && UniqueLive(Crossed().rows)
    ensures !UniqueLive(Rollback(Crossed(), "a", 1, true).0.rows)
  {
    var w := Crossed();
    forall id ensures Inv(w, id) {
      assert id != "a" ==> w.VersionsOf(id) == map[];
    }
    assert "b" in w.rows - {"a"} && LiveHolder(w.rows - {"a"}, "old", "b");
    RollbackKeepsUniqueIff(w, "a", 1);
  }

  // ---------- idempotence ----------

  /** Repeating an ingest answers the same and changes nothing, whatever the lookup now
      returns and whether or not the embedder still works. */
  lemma IngestIsIdempotent(w: Wall, doc: DoctrineDoc, answer: Option<MemoryId>, answer': Option<MemoryId>, embeds: bool)
    requires UniqueLive(w.rows) && IsDuplicateAnswer(w.rows, doc.content, answer)
    requires IsDuplicateAnswer(Ingest(w, doc, answer, true).0.rows, doc.content, answer')
    ensures var (w', r) := Ingest(w, doc, answer, true);
            Ingest(w', doc, answer', embeds) == (w', r)
  {
    IngestIsTotal(w, doc, answer);
    IngestKeepsUnique(w, doc, answer, true);
    var (w', r) := Ingest(w, doc, answer, true);
    assert LiveHolder(w'.rows, doc.content, r.value.0);
    assert answer'.Some? ==> answer'.value == r.value.0;
  }

  // ---------- active flags ----------

  /** A version is active exactly when its body is the current row's. */
  predicate TruthfulFlags(vs: Versions, live: Option<Memory>) {
    forall v | v in vs :: vs[v].active <==> live.Some? && vs[v].content == live.value.content
  }

  predicate FlagsInv(w: Wall, id: MemoryId) {
    TruthfulFlags(w.VersionsOf(id), w.Recall(id))
  }

  /** Operations that keep the flags of document `id` truthful. Removing its row, by a delete
      or an ingest the embedder cuts short, does if its body is not archived; so does putting
      a row there by a save. A rollback cut short does if the body is archived already. A
      transition that completes always does, and nothing done to other rows matters. */
  predicate FlagsSafe(w: Wall, op: Op, id: MemoryId) {
    match op
    case IngestOp(doc, answer, embeds) =>
      doc.id == id && !embeds && id in w.rows && Replaces(w, doc, answer) ==>
        !Archived(w.VersionsOf(id), w.rows[id].content)
    case RollbackOp(rolled, to, embeds) =>
      rolled == id && !embeds && id in w.rows && to in w.VersionsOf(id) ==>
        Archived(w.VersionsOf(id), w.rows[id].content)
    case SaveOp(m, embeds) =>
      m.id == id && SaveRefusal(w.rows, m, embeds).None? ==> !Archived(w.VersionsOf(id), m.content)
    case DeleteOp(deleted) =>
      deleted == id && id in w.rows ==> !Archived(w.VersionsOf(id), w.rows[id].content)
  }

  lemma IngestKeepsFlagsIff(w: Wall, doc: DoctrineDoc, answer: Option<MemoryId>, embeds: bool, id: MemoryId)
    requires FlagsInv(w, id) && IsDuplicateAnswer(w.rows, doc.content, answer)
    ensures FlagsInv(Ingest(w, doc, answer, embeds).0, id) <==> FlagsSafe(w, IngestOp(doc, answer, embeds), id)
  {
    hide Allocate;
    var vs, live := w.VersionsOf(doc.id), w.Recall(doc.id);
    WrittenVersions(w, doc.id, SetActiveFlags(ArchiveIfLive(vs, live), doc.content));
    WrittenVersions(w, doc.id, ArchiveIfLive(vs, live));
    if live.Some? {
      OutgoingIsArchived(vs, live.value);
    }
  }

  lemma OutgoingIsArchived(vs: Versions, live: Memory)
    ensures var (archived, number) := ArchiveOutgoing(vs, live);
            number in archived && (!Archived(vs, live.content) ==> archived[number] == Version(live.content, false))
  {
  }

  /** A rollback the embedder cuts short leaves the flags truthful exactly when it had
      nothing to archive: a body archived on the way out is live but not marked active. */
  lemma RollbackCutShortIff(w: Wall, id: MemoryId, to: nat)
    requires FlagsInv(w, id) && to in w.VersionsOf(id) && id in w.rows
    ensures FlagsInv(Rollback(w, id, to, false).0, id) <==> Archived(w.VersionsOf(id), w.rows[id].content)
  {
    var vs, live := w.VersionsOf(id), w.rows[id];
    OutgoingIsArchived(vs, live);
    WrittenVersions(w, id, ArchiveOutgoing(vs, live).0);
    assert live.content != vs[to].content || Archived(vs, live.content) by {
      assert live.content == vs[to].content ==> ArchivedAs(vs, live.content, to);
    }
  }

  lemma RollbackKeepsFlagsIff(w: Wall, rolled: MemoryId, to: nat, embeds: bool, id: MemoryId)
    requires FlagsInv(w, id)
    ensures FlagsInv(Rollback(w, rolled, to, embeds).0, id) <==> FlagsSafe(w, RollbackOp(rolled, to, embeds), id)
  {
    if id == rolled && !embeds && id in w.rows && to in w.VersionsOf(id) {
      RollbackCutShortIff(w, id, to);
    }
  }

  /** Any operation keeps a document's flags truthful exactly when it is safe in this sense. */
  lemma StepKeepsFlagsIff(w: Wall, op: Op, id: MemoryId)
    requires FlagsInv(w, id) && Enabled(w, op)
    ensures FlagsInv(Apply(w, op), id) <==> FlagsSafe(w, op, id)
  {
    hide Ingest, Rollback;
    match op
    case IngestOp(doc, answer, embeds) => IngestKeepsFlagsIff(w, doc, answer, embeds, id);
    case RollbackOp(rolled, to, embeds) => RollbackKeepsFlagsIff(w, rolled, to, embeds, id);
    case _ =>
  }

  /** A run keeps them truthful throughout exactly when each of its operations is safe. */
  lemma {:induction false} RunKeepsFlagsIff(walls: seq<Wall>, ops: seq<Op>, id: MemoryId)
    requires Run(walls, ops) && FlagsInv(walls[0], id)
    ensures (forall i | 0 <= i < |walls| :: FlagsInv(walls[i], id))
            <==> (forall i | 0 <= i < |ops| :: FlagsSafe(walls[i], ops[i], id))
    decreases |ops|
  {
    hide FlagsInv, FlagsSafe, Apply, Enabled;
    if ops != [] {
      var n := |ops| - 1;
      var walls', ops' := walls[..n + 1], ops[..n];
      RunKeepsFlagsIff(walls', ops', id);
      assert forall i | 0 <= i < |walls| :: i < |walls'| ==> walls[i] == walls'[i];
      assert forall i | 0 <= i < n :: FlagsSafe(walls[i], ops[i], id) == FlagsSafe(walls'[i], ops'[i], id);
      if FlagsInv(walls[n], id) {
        StepKeepsFlagsIff(walls[n], ops[n], id);
        assert walls[n + 1] == Apply(walls[n], ops[n]);
      }
    }
  }

  function Active(vs: Versions): set<nat> {
    set v | v in vs && vs[v].active
  }

  /** At every point of a run safe for a document in both senses the active version is the
      current row's number if the current body is archived, and there is none otherwise:
      never more than one. */
  lemma ActiveIsCurrent(walls: seq<Wall>, ops: seq<Op>, i: nat, id: MemoryId)
    requires SafeRun(walls, ops, id) && FlagsInv(walls[0], id) && i < |walls|
    requires forall k | 0 <= k < |ops| :: FlagsSafe(walls[k], ops[k], id)
    ensures var vs, live := walls[i].VersionsOf(id), walls[i].Recall(id);
            Active(vs) == if live.Some? && Archived(vs, live.value.content) then {live.value.Number()} else {}
  {
    RunKeepsFlagsIff(walls, ops, id);
    RunKeeps(walls, ops, id, i, i);
    assert FlagsInv(walls[i], id);
    var vs, live := walls[i].VersionsOf(id), walls[i].Recall(id);
    assert live.Some? ==> forall v | v in vs && vs[v].content == live.value.content ::
      ArchivedAs(vs, live.value.content, v);
  }

  /** Right after a rollback exactly one version is active, and it is the one asked for. */
  lemma RollbackActivates(w: Wall, id: MemoryId, to: nat)
    requires Inv(w, id) && to in w.VersionsOf(id) && id in w.rows
    ensures Active(Rollback(w, id, to, true).0.VersionsOf(id)) == {to}
  {
    RollbackKeeps(w, id, to, true, id);
    var w' := Rollback(w, id, to, true).0;
    assert ArchivedAs(w'.VersionsOf(id), w.VersionsOf(id)[to].content, to);
  }

  /** Right after an ingest replaced a row, a version is active exactly when the ingested
      body had been archived or is the outgoing body re-asserted; a new body leaves none active. */
  lemma IngestActivates(w: Wall, doc: DoctrineDoc, answer: Option<MemoryId>)
    requires Inv(w, doc.id) && IsDuplicateAnswer(w.rows, doc.content, answer) && Replaces(w, doc, answer)
    ensures var (w', r) := Ingest(w, doc, answer, true);
            var returning := Archived(w.VersionsOf(doc.id), doc.content)
                             || (doc.id in w.rows && w.rows[doc.id].content == doc.content);
            Active(w'.VersionsOf(doc.id)) == if returning then {r.value.1} else {}
  {
    AllocationAgrees(w.VersionsOf(doc.id), w.Recall(doc.id), doc.content);
    WrittenVersions(w, doc.id, SetActiveFlags(ArchiveIfLive(w.VersionsOf(doc.id), w.Recall(doc.id)), doc.content));
    var vs, live := w.VersionsOf(doc.id), w.Recall(doc.id);
    var archived := ArchiveIfLive(vs, live);
    assert forall v | v in archived :: v in vs || (live.Some? && v == live.value.Number());
  }
}
