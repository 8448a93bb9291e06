/** A doctrine transition that nothing interrupts: its statements add up to the serial one. */
module DoctrineAlone {
  import opened Wrappers
  import opened Wall
  import opened Transitions
  import opened ConcurrentSaves
  import opened ConcurrentDoctrine

  /** Statements a transition may still have before it. */
  function StagesLeft(stage: Stage): nat {
    match stage
    case Waiting => 8
    case Loading => 7
    case Comparing(_) => 6
    case FoundElsewhere(_, _) => 5
    case Retiring(_) => 1
    case Deleting => 4
    case Storing => 3
    case Creating => 2
    case Rewriting(_, _) => 1
    case Finished(_) => 0
  }

  /** Worker `p` runs on with nobody else in between. */
  function RunTask(s: System, p: Pid, inputs: Inputs): System
    requires p in s.workers
    decreases StagesLeft(s.workers[p].stage)
  {
    if CanMove(s, DoctrineMove(p, inputs)) then RunTask(DoctrineStep(s, p, inputs), p, inputs) else s
  }

  lemma NextOfTask(s: System, p: Pid, inputs: Inputs)
    requires CanMove(s, DoctrineMove(p, inputs))
    ensures RunTask(s, p, inputs) == RunTask(DoctrineStep(s, p, inputs), p, inputs)
  {
  }

  lemma TaskEnds(s: System, p: Pid, inputs: Inputs)
    requires p in s.workers && s.workers[p].stage.Finished?
    ensures RunTask(s, p, inputs) == s
  {
  }

  ghost function AllocatedFor(w: Wall, doc: DoctrineDoc): nat {
    Allocate(w.VersionsOf(doc.id), w.Recall(doc.id), doc.content)
  }

  function BodyAt(archive: map<MemoryId, Versions>, id: MemoryId, to: nat): Option<string> {
    if id in archive && to in archive[id] then Some(archive[id][to].content) else None
  }

  /** What the caller of a transition is told. */
  predicate Reports<T>(outcome: Outcome, task: Task, r: Result<T>, id: MemoryId) {
    match outcome
    case Answered(canonical) => r.Ok? && id == canonical
    case Written => r.Ok? && id == task.Id()
    case Refused(e) => r == Err(e)
  }

  /** Run by itself, the statements of an ingest add up to the serial ingest: the same rows, the
      same answer, the lock free again. */
  lemma IngestAloneIsSerial(s: System, p: Pid, inputs: Inputs, archive: map<MemoryId, Versions>)
    requires p in s.workers && s.workers[p].task.IngestTask? && s.workers[p].stage.Waiting? && s.doctrineLock.None?
    requires IsDuplicateAnswer(s.saves.rows, s.workers[p].task.doc.content, inputs.answer)
    requires inputs.revision == AllocatedFor(Wall(s.saves.rows, archive), s.workers[p].task.doc)
    ensures var doc := s.workers[p].task.doc;
            var (w', r) := Ingest(Wall(s.saves.rows, archive), doc, inputs.answer, inputs.embeds);
            var s' := RunTask(s, p, inputs);
            && s'.saves == s.saves.(rows := w'.rows) && s'.doctrineLock.None?
            && p in s'.workers && s'.workers[p].stage.Finished?
            && Reports(s'.workers[p].stage.outcome, s.workers[p].task, r, if r.Ok? then r.value.0 else doc.id)
  {
    hide RunTask, Allocate, HeldLive;
    var doc, rows := s.workers[p].task.doc, s.saves.rows;
    NextOfTask(s, p, inputs);
    var loading := DoctrineStep(s, p, inputs);
    NextOfTask(loading, p, inputs);
    var comparing := DoctrineStep(loading, p, inputs);
    NextOfTask(comparing, p, inputs);
    var next := DoctrineStep(comparing, p, inputs);
    if next.workers[p].stage.Finished? {
      TaskEnds(next, p, inputs);
    } else if next.workers[p].stage.FoundElsewhere? {
      NextOfTask(next, p, inputs);
      var found := DoctrineStep(next, p, inputs);
      if found.workers[p].stage.Retiring? {
        NextOfTask(found, p, inputs);
        TaskEnds(DoctrineStep(found, p, inputs), p, inputs);
      } else {
        TaskEnds(found, p, inputs);
      }
    } else {
      ReplacingAlone(next, p, inputs);
    }
  }

  /** From the delete on. */
  lemma ReplacingAlone(s: System, p: Pid, inputs: Inputs)
    requires p in s.workers && s.workers[p].task.IngestTask? && s.workers[p].stage.Deleting?
    requires !HeldLive(s.saves.rows, s.workers[p].task.doc.content)
    ensures var doc, s' := s.workers[p].task.doc, RunTask(s, p, inputs);
            && s'.saves == s.saves.(rows := if inputs.embeds then s.saves.rows[doc.id := doc.ToMemory(inputs.revision)]
                                            else s.saves.rows - {doc.id})
            && s'.doctrineLock.None? && p in s'.workers
            && s'.workers[p].stage == Finished(if inputs.embeds then Written else Refused(StoreFailure))
  {
    hide RunTask;
    var doc, rows := s.workers[p].task.doc, s.saves.rows;
    NextOfTask(s, p, inputs);
    var storing := DoctrineStep(s, p, inputs);
    assert forall id | id in rows - {doc.id} :: !LiveHolder(rows, doc.content, id);
    NextOfTask(storing, p, inputs);
    var creating := DoctrineStep(storing, p, inputs);
    if inputs.embeds {
      NextOfTask(creating, p, inputs);
      var created := DoctrineStep(creating, p, inputs);
      var row := doc.ToMemory(inputs.revision);
      assert (rows - {doc.id})[doc.id := row] == rows[doc.id := row];
      TaskEnds(created, p, inputs);
    } else {
      TaskEnds(creating, p, inputs);
    }
  }

  /** And those of a rollback to the serial rollback. */
  lemma RollbackAloneIsSerial(s: System, p: Pid, inputs: Inputs, archive: map<MemoryId, Versions>)
    requires p in s.workers && s.workers[p].task.RollbackTask? && s.workers[p].stage.Waiting? && s.doctrineLock.None?
    requires inputs.archived == BodyAt(archive, s.workers[p].task.document, s.workers[p].task.to)
    ensures var task := s.workers[p].task;
            var (w', r) := Rollback(Wall(s.saves.rows, archive), task.document, task.to, inputs.embeds);
            var s' := RunTask(s, p, inputs);
            && s'.saves == s.saves.(rows := w'.rows) && s'.doctrineLock.None?
            && p in s'.workers && s'.workers[p].stage.Finished?
            && Reports(s'.workers[p].stage.outcome, task, r, task.document)
  {
    hide RunTask;
    NextOfTask(s, p, inputs);
    var loading := DoctrineStep(s, p, inputs);
    NextOfTask(loading, p, inputs);
    var next := DoctrineStep(loading, p, inputs);
    if next.workers[p].stage.Rewriting? {
      NextOfTask(next, p, inputs);
      TaskEnds(DoctrineStep(next, p, inputs), p, inputs);
    } else {
      TaskEnds(next, p, inputs);
    }
  }
}
