/** Doctrine ingests and rollbacks running alongside the saves of `ConcurrentSaves`. Each holds
    the doctrine lock throughout, but that lock does not exclude saves: between two statements
    of a transition, any save may run. Only the rows are followed; the archive holds no links. */
module ConcurrentDoctrine {
  import opened Wrappers
  import opened Wall
  import opened Transitions
  import opened SupersedeGraph
  import opened ConcurrentSaves

  datatype Task = IngestTask(doc: DoctrineDoc) | RollbackTask(document: MemoryId, to: nat) {
    function Id(): MemoryId {
      if IngestTask? then doc.id else document
    }
  }

  datatype Outcome = Answered(canonical: MemoryId) | Written | Refused(error: Error)

  datatype Stage =
    | Waiting                                                   // for the doctrine lock
    | Loading                                                   // about to recall its own row
    | Comparing(mine: Option<Memory>)                           // about to look for a live duplicate
    | FoundElsewhere(own: Option<Memory>, canonical: MemoryId)  // about to recall the canonical row
    | Retiring(onto: MemoryId)                                  // about to link its row to it
    | Deleting                                                  // about to delete its row
    | Storing                                                   // past the delete, about to check for duplicates again
    | Creating                                                  // about to insert the new row
    | Rewriting(stale: Memory, body: string)                    // about to write back the row it read, body changed
    | Finished(outcome: Outcome)

  datatype Worker = Worker(task: Task, stage: Stage) {
    /** Between taking the doctrine lock and letting it go. */
    predicate Active() {
      !stage.Waiting? && !stage.Finished?
    }
  }

  datatype System = System(saves: State, doctrineLock: Option<Pid>, workers: map<Pid, Worker>) {
    function GotoStage(p: Pid, stage: Stage): System
      requires p in workers
    {
      this.(workers := workers[p := workers[p].(stage := stage)])
    }

    function Finish(p: Pid, outcome: Outcome): System
      requires p in workers
    {
      GotoStage(p, Finished(outcome)).(doctrineLock := None)
    }

    function WithRows(rows: Rows): System {
      this.(saves := saves.(rows := rows))
    }
  }

  /** What a statement meets outside the rows: the answer of the duplicate lookup, whether the
      embedder accepts the body, the number allocated, the archived body to go back to. */
  datatype Inputs = Inputs(answer: Option<MemoryId>, embeds: bool, revision: nat, archived: Option<string>)

  datatype Move = SaveMove(event: Event) | DoctrineMove(p: Pid, inputs: Inputs)

  predicate CanMove(s: System, m: Move) {
    match m
    case SaveMove(e) => CanHappen(s.saves, e)
    case DoctrineMove(p, inputs) =>
      && p in s.workers && !s.workers[p].stage.Finished?
      && (s.workers[p].task.RollbackTask? ==>
          s.workers[p].stage.Waiting? || s.workers[p].stage.Loading? || s.workers[p].stage.Rewriting?)
      && (s.workers[p].task.IngestTask? ==> !s.workers[p].stage.Rewriting?)
      && (s.workers[p].stage.Waiting? ==> s.doctrineLock.None?)
      && (s.workers[p].stage.Comparing? ==>
          IsDuplicateAnswer(s.saves.rows, s.workers[p].task.doc.content, inputs.answer))
  }

  /** The next statement of worker `p`. What it read earlier may be out of date by now. */
  function DoctrineStep(s: System, p: Pid, inputs: Inputs): System
    requires CanMove(s, DoctrineMove(p, inputs))
  {
    var task, rows := s.workers[p].task, s.saves.rows;
    match s.workers[p].stage
    case Waiting => s.GotoStage(p, Loading).(doctrineLock := Some(p))
    case Loading =>
      var mine := if task.Id() in rows then Some(rows[task.Id()]) else None;
      if task.IngestTask? then s.GotoStage(p, Comparing(mine))
      else if mine.None? || inputs.archived.None? then s.Finish(p, Refused(NotFound))
      else s.GotoStage(p, Rewriting(mine.value, inputs.archived.value))
    case Comparing(mine) =>
      if mine.Some? && mine.value.content == task.doc.content && mine.value.Live() then
        s.Finish(p, Answered(task.doc.id))
      else if inputs.answer.Some? && inputs.answer.value != task.doc.id then
        s.GotoStage(p, FoundElsewhere(mine, inputs.answer.value))
      else s.GotoStage(p, Deleting)
    case FoundElsewhere(own, canonical) =>
      if canonical !in rows then s.Finish(p, Refused(NotFound))
      else if own.Some? && own.value.Live() && own.value.content != task.doc.content then
        s.GotoStage(p, Retiring(canonical))
      else s.Finish(p, Answered(canonical))
    case Retiring(onto) => s.Finish(p, Answered(onto)).WithRows(LinkTo(rows, task.doc.id, onto))
    case Deleting => s.GotoStage(p, Storing).WithRows(rows - {task.doc.id})
    case Storing =>
      if HeldLive(rows, task.doc.content) then s.Finish(p, Refused(Duplicate))
      else if !inputs.embeds then s.Finish(p, Refused(StoreFailure))
      else s.GotoStage(p, Creating)
    case Creating =>
      if task.doc.id in rows then s.Finish(p, Refused(StoreFailure))
      else s.Finish(p, Written).WithRows(rows[task.doc.id := task.doc.ToMemory(inputs.revision)])
    case Rewriting(stale, body) =>
      if !inputs.embeds then s.Finish(p, Refused(StoreFailure))
      else s.Finish(p, Written).WithRows(rows[task.document := stale.(content := body, revision := Some(task.to))])
  }

  function AfterMove(s: System, m: Move): System
    requires CanMove(s, m)
  {
    match m
    case SaveMove(e) => s.(saves := After(s.saves, e))
    case DoctrineMove(p, inputs) => DoctrineStep(s, p, inputs)
  }

  ghost predicate Schedule(states: seq<System>, moves: seq<Move>) {
    && |states| == |moves| + 1
    && forall i | 0 <= i < |moves| :: CanMove(states[i], moves[i]) && states[i + 1] == AfterMove(states[i], moves[i])
  }

  /** Nobody has started, and incoming rows carry no inverse link. */
  predicate Fresh(s: System) {
    Initial(s.saves) && s.doctrineLock.None? && forall p | p in s.workers :: s.workers[p].stage.Waiting?
  }

  // ---------- what every schedule keeps ----------

  /** Incoming rows carry no inverse link, only linking saves reach their claim, and only the
      holder of the doctrine lock is at work. */
  predicate SystemInv(s: System) {
    && (forall p | p in s.saves.savers ::
          s.saves.savers[p].memory.Live() && (s.saves.savers[p].InLock() ==> s.saves.savers[p].Linking()))
    && (forall p | p in s.workers :: s.workers[p].Active() ==> s.doctrineLock == Some(p))
  }

  lemma MoveKeepsSystemInv(s: System, m: Move)
    requires SystemInv(s) && CanMove(s, m)
    ensures SystemInv(AfterMove(s, m))
  {
    hide DoctrineStep, Step;
    match m
    case DoctrineMove(p, inputs) => DoctrineLeavesSavers(s, p, inputs);
    case SaveMove(SaverStep(p, embeds)) => SaverStaysItself(s.saves, p, embeds);
    case SaveMove(DeleteRow(_)) =>
  }

  lemma DoctrineLeavesSavers(s: System, p: Pid, inputs: Inputs)
    requires CanMove(s, DoctrineMove(p, inputs))
    ensures var s' := DoctrineStep(s, p, inputs);
            && s'.saves.savers == s.saves.savers
            && p in s'.workers && s'.workers == s.workers[p := s'.workers[p]]
            && (s'.workers[p].Active() ==>
                s'.doctrineLock == Some(p) || (s'.doctrineLock == s.doctrineLock && s.workers[p].Active()))
            && (!s'.workers[p].Active() ==> s'.doctrineLock.None?)
            && (s.workers[p].Active() || s.doctrineLock.None?)
            && s'.workers[p].task == s.workers[p].task
  {
  }

  lemma SaverStaysItself(s: State, p: Pid, embeds: bool)
    requires CanStep(s, p, true)
    ensures var saver, saver' := s.savers[p], Step(s, p, embeds).savers[p];
            && Step(s, p, embeds).savers == s.savers[p := saver']
            && saver'.memory == saver.memory
            && (saver'.InLock() ==> saver.InLock() || saver.Linking())
  {
  }

  lemma {:induction false} ScheduleKeepsInv(states: seq<System>, moves: seq<Move>, i: nat)
    requires Schedule(states, moves) && Fresh(states[0]) && i < |states|
    ensures SystemInv(states[i])
  {
    if i > 0 {
      hide CanMove, AfterMove, SystemInv;
      ScheduleKeepsInv(states, moves, i - 1);
      MoveKeepsSystemInv(states[i - 1], moves[i - 1]);
    }
  }

  // ---------- when the graph stays acyclic ----------

  /** Saver `p` is about to claim its target successfully. */
  predicate Claims(s: System, p: Pid) {
    && p in s.saves.savers && s.saves.savers[p].pc.Inserted? && s.saves.savers[p].Linking()
    && s.saves.savers[p].memory.supersedes.value != s.saves.savers[p].memory.id
    && Claimable(s.saves.rows, s.saves.savers[p].memory.supersedes.value)
  }

  /** Ingest `p` is about to retire its row, and the row is still there. */
  predicate Retires(s: System, p: Pid) {
    && p in s.workers && s.workers[p].task.IngestTask? && s.workers[p].stage.Retiring?
    && s.workers[p].task.doc.id in s.saves.rows
  }

  /** Rollback `p` is about to write back the row it read. */
  predicate Rewrites(s: System, p: Pid, inputs: Inputs) {
    p in s.workers && s.workers[p].task.RollbackTask? && s.workers[p].stage.Rewriting? && inputs.embeds
  }

  /** A retirement is safe unless the canonical row by now leads back to the retired one. A
      rollback is safe unless the row it read was superseded and its successor by now leads
      back to it. A claim is safe unless the claiming row was itself linked since its insert,
      into a chain that leads to its target. Everything else is safe. */
  ghost predicate CycleSafe(s: System, m: Move) {
    var rows := s.saves.rows;
    match m
    case DoctrineMove(p, inputs) =>
      && (Retires(s, p) ==> !Reaches(LinksOf(rows), s.workers[p].stage.onto, s.workers[p].task.doc.id))
      && (Rewrites(s, p, inputs) ==>
          var stale := s.workers[p].stage.stale;
          !stale.Live() ==> !Reaches(LinksOf(rows), stale.supersededBy.value, s.workers[p].task.document))
    case SaveMove(SaverStep(p, _)) =>
      Claims(s, p) ==>
        var claiming := s.saves.savers[p].memory;
        claiming.id in rows && !rows[claiming.id].Live() ==>
          !Reaches(LinksOf(rows), rows[claiming.id].supersededBy.value, claiming.supersedes.value)
    case SaveMove(DeleteRow(_)) => true
  }

  /** From a row with a link, other rows are reached through the link only. */
  lemma ReachesThroughLink(g: Links, u: MemoryId, t: MemoryId)
    requires u in g && u != t
    ensures Reaches(g, u, t) <==> Reaches(g, g[u], t)
  {
    if Reaches(g, u, t) {
      var p :| IsPath(g, p) && p[0] == u && p[|p| - 1] == t;
      assert IsPath(g, p[1..]) && p[1] == g[u];
    }
    if Reaches(g, g[u], t) {
      var p :| IsPath(g, p) && p[0] == g[u] && p[|p| - 1] == t;
      assert IsPath(g, [u] + p);
    }
  }

  lemma ReachesFromSink(g: Links, u: MemoryId, t: MemoryId)
    requires u !in g && Reaches(g, u, t)
    ensures u == t
  {
    var p :| IsPath(g, p) && p[0] == u && p[|p| - 1] == t;
    if |p| > 1 {
      assert false;
    }
  }

  lemma ClaimKeepsAcyclicIff(rows: Rows, id: MemoryId, target: MemoryId)
    requires Acyclic(LinksOf(rows)) && target != id && Claimable(rows, target)
    ensures Acyclic(LinksOf(LinkTo(rows, target, id))) <==>
            (id in rows && !rows[id].Live() ==> !Reaches(LinksOf(rows), rows[id].supersededBy.value, target))
  {
    var g := LinksOf(rows);
    LinkStaysAcyclicIff(g, target, id);
    assert LinksOf(LinkTo(rows, target, id)) == g[target := id];
    if id in g {
      ReachesThroughLink(g, id, target);
    } else if Reaches(g, id, target) {
      ReachesFromSink(g, id, target);
    }
  }

  lemma RetireKeepsAcyclicIff(rows: Rows, id: MemoryId, onto: MemoryId)
    requires Acyclic(LinksOf(rows)) && id in rows
    ensures Acyclic(LinksOf(LinkTo(rows, id, onto))) <==> !Reaches(LinksOf(rows), onto, id)
  {
    LinkStaysAcyclicIff(LinksOf(rows), id, onto);
    assert LinksOf(LinkTo(rows, id, onto)) == LinksOf(rows)[id := onto];
  }

  /** Writing back a row, stale link and all. */
  lemma RewriteKeepsAcyclicIff(rows: Rows, id: MemoryId, row: Memory)
    requires Acyclic(LinksOf(rows))
    ensures Acyclic(LinksOf(rows[id := row])) <==>
            (!row.Live() ==> !Reaches(LinksOf(rows), row.supersededBy.value, id))
  {
    var g, g' := LinksOf(rows), LinksOf(rows[id := row]);
    if row.Live() {
      FewerLinksStayAcyclic(g, g');
    } else {
      LinkStaysAcyclicIff(g, id, row.supersededBy.value);
      assert g' == g[id := row.supersededBy.value];
    }
  }

  lemma SaveMoveKeepsAcyclicIff(s: System, p: Pid, embeds: bool)
    requires SystemInv(s) && Acyclic(LinksOf(s.saves.rows)) && CanMove(s, SaveMove(SaverStep(p, embeds)))
    ensures Acyclic(LinksOf(Step(s.saves, p, embeds).rows)) <==> CycleSafe(s, SaveMove(SaverStep(p, embeds)))
  {
    hide Acyclic, LinksOf, Reaches;
    if Claims(s, p) {
      var m := s.saves.savers[p].memory;
      ClaimKeepsAcyclicIff(s.saves.rows, m.id, m.supersedes.value);
    } else {
      UnclaimedAddsNoLink(s, p, embeds);
      FewerLinksStayAcyclic(LinksOf(s.saves.rows), LinksOf(Step(s.saves, p, embeds).rows));
    }
  }

  lemma UnclaimedAddsNoLink(s: System, p: Pid, embeds: bool)
    requires SystemInv(s) && CanMove(s, SaveMove(SaverStep(p, embeds))) && !Claims(s, p)
    ensures var g, g' := LinksOf(s.saves.rows), LinksOf(Step(s.saves, p, embeds).rows);
            forall u | u in g' :: u in g && g[u] == g'[u]
  {
  }

  lemma DoctrineMoveKeepsAcyclicIff(s: System, m: Move)
    requires Acyclic(LinksOf(s.saves.rows)) && CanMove(s, m) && m.DoctrineMove?
    ensures Acyclic(LinksOf(AfterMove(s, m).saves.rows)) <==> CycleSafe(s, m)
  {
    hide Acyclic, Reaches;
    if Retires(s, m.p) {
      RetireKeepsAcyclicIff(s.saves.rows, s.workers[m.p].task.doc.id, s.workers[m.p].stage.onto);
    } else if Rewrites(s, m.p, m.inputs) {
      var task, stage := s.workers[m.p].task, s.workers[m.p].stage;
      var row := stage.stale.(content := stage.body, revision := Some(task.to));
      RewriteKeepsAcyclicIff(s.saves.rows, task.document, row);
    } else {
      FewerLinksStayAcyclic(LinksOf(s.saves.rows), LinksOf(AfterMove(s, m).saves.rows));
    }
  }

  lemma MoveKeepsAcyclicIff(s: System, m: Move)
    requires SystemInv(s) && Acyclic(LinksOf(s.saves.rows)) && CanMove(s, m)
    ensures Acyclic(LinksOf(AfterMove(s, m).saves.rows)) <==> CycleSafe(s, m)
  {
    hide Acyclic, Reaches, Step, DoctrineStep;
    match m
    case DoctrineMove(_, _) => DoctrineMoveKeepsAcyclicIff(s, m);
    case SaveMove(SaverStep(p, embeds)) => SaveMoveKeepsAcyclicIff(s, p, embeds);
    case SaveMove(DeleteRow(id)) => FewerLinksStayAcyclic(LinksOf(s.saves.rows), LinksOf(s.saves.rows - {id}));
  }

  /** Any number of saves, deletes, ingests and rollbacks, however they interleave, keep the
      graph acyclic throughout exactly when every link they write is safe. */
  lemma ScheduleStaysAcyclicIff(states: seq<System>, moves: seq<Move>)
    requires Schedule(states, moves) && Fresh(states[0]) && Acyclic(LinksOf(states[0].saves.rows))
    ensures (forall i | 0 <= i < |states| :: Acyclic(LinksOf(states[i].saves.rows)))
            <==> (forall i | 0 <= i < |moves| :: CycleSafe(states[i], moves[i]))
  {
    hide Acyclic, CycleSafe, AfterMove, CanMove, Fresh, LinksOf;
    if forall i | 0 <= i < |moves| :: CycleSafe(states[i], moves[i]) {
      forall i | 0 <= i < |states| ensures Acyclic(LinksOf(states[i].saves.rows)) {
        UpToAllSafe(states, moves, i);
      }
    } else {
      var i :| 0 <= i < |moves| && !CycleSafe(states[i], moves[i]);
      if Acyclic(LinksOf(states[i].saves.rows)) {
        ScheduleKeepsInv(states, moves, i);
        MoveKeepsAcyclicIff(states[i], moves[i]);
        assert !Acyclic(LinksOf(states[i + 1].saves.rows));
      }
    }
  }

  lemma {:induction false} UpToAllSafe(states: seq<System>, moves: seq<Move>, i: nat)
    requires Schedule(states, moves) && Fresh(states[0]) && Acyclic(LinksOf(states[0].saves.rows)) && i < |states|
    requires forall k | 0 <= k < |moves| :: CycleSafe(states[k], moves[k])
    ensures Acyclic(LinksOf(states[i].saves.rows))
  {
    hide Acyclic, CycleSafe, AfterMove, CanMove, Fresh, LinksOf;
    if i > 0 {
      UpToAllSafe(states, moves, i - 1);
      ScheduleKeepsInv(states, moves, i - 1);
      MoveKeepsAcyclicIff(states[i - 1], moves[i - 1]);
    }
  }

  // ---------- when a target has at most one successor ----------

  /** A save superseding `id` has succeeded. */
  predicate HasSuccessor(s: System, id: MemoryId, p: Pid) {
    p in s.saves.savers && s.saves.savers[p].Succeeded() && s.saves.savers[p].memory.supersedes == Some(id)
  }

  ghost predicate Single(s: System) {
    forall p, q, id | HasSuccessor(s, id, p) && HasSuccessor(s, id, q) :: p == q
  }

  /** What has been superseded successfully cannot be claimed again. */
  ghost predicate Closed(s: System) {
    forall p, id | HasSuccessor(s, id, p) :: !Claimable(s.saves.rows, id)
  }

  /** The id under which a move puts an unclaimed row, if it does. */
  function Puts(s: System, m: Move): Option<MemoryId> {
    match m
    case SaveMove(SaverStep(p, _)) => if Inserts(s.saves, p) then Some(s.saves.savers[p].memory.id) else None
    case SaveMove(DeleteRow(_)) => None
    case DoctrineMove(p, inputs) =>
      if p !in s.workers then None
      else
        var task, stage := s.workers[p].task, s.workers[p].stage;
        if task.IngestTask? && stage.Creating? && task.doc.id !in s.saves.rows then Some(task.doc.id)
        else if Rewrites(s, p, inputs) && stage.stale.Live() then Some(task.document)
        else None
  }

  /** Puts an unclaimed row where a successfully superseded one was: a save or an ingest under
      the id of a row deleted since, or a rollback that read the row before it was claimed. */
  ghost predicate Reopens(s: System, m: Move) {
    Puts(s, m).Some? && exists p :: HasSuccessor(s, Puts(s, m).value, p)
  }

  /** Successfully claims `id`. */
  predicate ClaimsTarget(s: System, m: Move, id: MemoryId) {
    && m.SaveMove? && m.event.SaverStep? && Claims(s, m.event.p)
    && s.saves.savers[m.event.p].memory.supersedes == Some(id)
  }

  /** A claim of a target that has a successor already. */
  ghost predicate SecondClaim(s: System, m: Move) {
    exists q, id :: HasSuccessor(s, id, q) && ClaimsTarget(s, m, id)
  }

  /** What a move does to who has succeeded. */
  lemma MoveSuccessors(s: System, m: Move, id: MemoryId, p: Pid)
    requires SystemInv(s) && CanMove(s, m)
    ensures HasSuccessor(AfterMove(s, m), id, p) <==>
            HasSuccessor(s, id, p) || (ClaimsTarget(s, m, id) && m.event.p == p)
  {
    hide DoctrineStep, Step;
    match m
    case DoctrineMove(q, inputs) => DoctrineLeavesSavers(s, q, inputs);
    case SaveMove(SaverStep(q, embeds)) => StepSuccessors(s, q, embeds, id, p);
    case SaveMove(DeleteRow(_)) =>
  }

  lemma StepSuccessors(s: System, q: Pid, embeds: bool, id: MemoryId, p: Pid)
    requires SystemInv(s) && CanStep(s.saves, q, true)
    ensures HasSuccessor(s.(saves := Step(s.saves, q, embeds)), id, p) <==>
            HasSuccessor(s, id, p) || (ClaimsTarget(s, SaveMove(SaverStep(q, embeds)), id) && q == p)
  {
    hide LinkTo, HeldLive;
  }

  /** What a move does to which rows can be claimed. */
  lemma MoveClaimable(s: System, m: Move, id: MemoryId)
    requires SystemInv(s) && CanMove(s, m)
    ensures Puts(s, m) == Some(id) ==> Claimable(AfterMove(s, m).saves.rows, id)
    ensures Claimable(AfterMove(s, m).saves.rows, id) ==> Claimable(s.saves.rows, id) || Puts(s, m) == Some(id)
    ensures ClaimsTarget(s, m, id) ==> !Claimable(AfterMove(s, m).saves.rows, id)
  {
    match m
    case DoctrineMove(p, inputs) => DoctrineClaimable(s, p, inputs, id);
    case SaveMove(SaverStep(p, embeds)) => StepClaimable(s, p, embeds, id);
    case SaveMove(DeleteRow(_)) =>
  }

  lemma DoctrineClaimable(s: System, p: Pid, inputs: Inputs, id: MemoryId)
    requires CanMove(s, DoctrineMove(p, inputs))
    ensures var m, rows' := DoctrineMove(p, inputs), DoctrineStep(s, p, inputs).saves.rows;
            && (Puts(s, m) == Some(id) ==> Claimable(rows', id))
            && (Claimable(rows', id) ==> Claimable(s.saves.rows, id) || Puts(s, m) == Some(id))
  {
  }

  lemma StepClaimable(s: System, p: Pid, embeds: bool, id: MemoryId)
    requires SystemInv(s) && CanStep(s.saves, p, true)
    ensures var m, rows' := SaveMove(SaverStep(p, embeds)), Step(s.saves, p, embeds).rows;
            && (Puts(s, m) == Some(id) ==> Claimable(rows', id))
            && (Claimable(rows', id) ==> Claimable(s.saves.rows, id) || Puts(s, m) == Some(id))
            && (ClaimsTarget(s, m, id) ==> !Claimable(rows', id))
  {
  }

  /** A move keeps superseded targets closed exactly when it does not reopen one. */
  lemma MoveKeepsClosedIff(s: System, m: Move)
    requires SystemInv(s) && CanMove(s, m) && Closed(s)
    ensures Closed(AfterMove(s, m)) <==> !Reopens(s, m)
  {
    hide SystemInv, CanMove, AfterMove, HasSuccessor, Claimable, ClaimsTarget, Puts;
    var s' := AfterMove(s, m);
    if Reopens(s, m) {
      var p :| HasSuccessor(s, Puts(s, m).value, p);
      MoveSuccessors(s, m, Puts(s, m).value, p);
      MoveClaimable(s, m, Puts(s, m).value);
    } else {
      forall p, id | HasSuccessor(s', id, p) ensures !Claimable(s'.saves.rows, id) {
        MoveSuccessors(s, m, id, p);
        MoveClaimable(s, m, id);
      }
    }
  }

  /** A move keeps successors single exactly when it is not a second claim. */
  lemma MoveKeepsSingleIff(s: System, m: Move)
    requires SystemInv(s) && CanMove(s, m) && Single(s)
    ensures Single(AfterMove(s, m)) <==> !SecondClaim(s, m)
  {
    var s' := AfterMove(s, m);
    if SecondClaim(s, m) {
      ClaimantHasNotSucceeded(s, m);
    }
    hide SystemInv, CanMove, AfterMove, HasSuccessor, ClaimsTarget;
    if SecondClaim(s, m) {
      var q, id :| HasSuccessor(s, id, q) && ClaimsTarget(s, m, id);
      MoveSuccessors(s, m, id, m.event.p);
      MoveSuccessors(s, m, id, q);
    } else {
      forall p, q, id | HasSuccessor(s', id, p) && HasSuccessor(s', id, q) ensures p == q {
        MoveSuccessors(s, m, id, p);
        MoveSuccessors(s, m, id, q);
      }
    }
  }

  lemma ClaimantHasNotSucceeded(s: System, m: Move)
    ensures forall id | ClaimsTarget(s, m, id) ::
              m.SaveMove? && m.event.SaverStep? && forall other :: !HasSuccessor(s, other, m.event.p)
  {
  }

  /** Second claims need a reopened target. */
  lemma ClosedHasNoSecondClaim(s: System, m: Move)
    requires Closed(s)
    ensures !SecondClaim(s, m)
  {
  }

  lemma {:induction false} ClosedUntilReopened(states: seq<System>, moves: seq<Move>, i: nat)
    requires Schedule(states, moves) && Fresh(states[0]) && i < |states|
    requires forall k | 0 <= k < i :: !Reopens(states[k], moves[k])
    ensures Closed(states[i]) && Single(states[i])
  {
    hide Closed, Single, Reopens, AfterMove, CanMove;
    if i == 0 {
      FreshIsClosed(states[0]);
    } else {
      hide Fresh;
      ClosedUntilReopened(states, moves, i - 1);
      ScheduleKeepsInv(states, moves, i - 1);
      MoveKeepsClosedIff(states[i - 1], moves[i - 1]);
      ClosedHasNoSecondClaim(states[i - 1], moves[i - 1]);
      MoveKeepsSingleIff(states[i - 1], moves[i - 1]);
    }
  }

  lemma FreshIsClosed(s: System)
    requires Fresh(s)
    ensures Closed(s) && Single(s)
  {
  }

  /** Every target has at most one successful successor throughout a schedule exactly when no
      claim is a second one; and a second one comes only after a move that reopened a target. */
  lemma ScheduleKeepsSingleIff(states: seq<System>, moves: seq<Move>)
    requires Schedule(states, moves) && Fresh(states[0])
    ensures (forall i | 0 <= i < |states| :: Single(states[i])) <==>
            (forall i | 0 <= i < |moves| :: !SecondClaim(states[i], moves[i]))
    ensures forall i | 0 <= i < |moves| && SecondClaim(states[i], moves[i]) ::
            exists k | 0 <= k < i :: Reopens(states[k], moves[k])
  {
    hide Closed, Single, Reopens, SecondClaim, AfterMove, CanMove, Fresh;
    if forall i | 0 <= i < |moves| :: !SecondClaim(states[i], moves[i]) {
      forall i | 0 <= i < |states| ensures Single(states[i]) {
        SingleUpTo(states, moves, i);
      }
    } else {
      var i :| 0 <= i < |moves| && SecondClaim(states[i], moves[i]);
      if Single(states[i]) {
        ScheduleKeepsInv(states, moves, i);
        MoveKeepsSingleIff(states[i], moves[i]);
        assert !Single(states[i + 1]);
      }
    }
    forall i | 0 <= i < |moves| && SecondClaim(states[i], moves[i])
      ensures exists k | 0 <= k < i :: Reopens(states[k], moves[k])
    {
      if forall k | 0 <= k < i :: !Reopens(states[k], moves[k]) {
        ClosedUntilReopened(states, moves, i);
        ClosedHasNoSecondClaim(states[i], moves[i]);
      }
    }
  }

  lemma {:induction false} SingleUpTo(states: seq<System>, moves: seq<Move>, i: nat)
    requires Schedule(states, moves) && Fresh(states[0]) && i < |states|
    requires forall k | 0 <= k < |moves| :: !SecondClaim(states[k], moves[k])
    ensures Single(states[i])
  {
    hide Single, SecondClaim, AfterMove, CanMove;
    if i == 0 {
      FreshIsClosed(states[0]);
    } else {
      hide Fresh;
      SingleUpTo(states, moves, i - 1);
      ScheduleKeepsInv(states, moves, i - 1);
      MoveKeepsSingleIff(states[i - 1], moves[i - 1]);
    }
  }

  // ---------- when an ingest loses its row ----------

  /** Ingest `p` has deleted its row and not yet put another in its place. */
  predicate BetweenRows(s: System, p: Pid) {
    p in s.workers && s.workers[p].task.IngestTask? && (s.workers[p].stage.Storing? || s.workers[p].stage.Creating?)
  }

  /** Its next statement gives up. */
  predicate GivesUp(s: System, p: Pid, inputs: Inputs)
    requires BetweenRows(s, p)
  {
    var doc := s.workers[p].task.doc;
    if s.workers[p].stage.Storing? then HeldLive(s.saves.rows, doc.content) || !inputs.embeds
    else doc.id in s.saves.rows
  }

  /** The ingest is refused exactly when its statement gives up, and has written its body
      exactly when it reached and passed its insert. */
  lemma LosesRowIff(s: System, p: Pid, inputs: Inputs)
    requires CanMove(s, DoctrineMove(p, inputs)) && BetweenRows(s, p)
    ensures var s', doc := DoctrineStep(s, p, inputs), s.workers[p].task.doc;
            && p in s'.workers
            && (GivesUp(s, p, inputs) <==> s'.workers[p].stage.Finished? && s'.workers[p].stage.outcome.Refused?)
            && (GivesUp(s, p, inputs) ==> s'.saves.rows == s.saves.rows)
            && (s'.workers[p].stage == Finished(Written) <==> s.workers[p].stage.Creating? && !GivesUp(s, p, inputs))
            && (s'.workers[p].stage == Finished(Written) ==> LiveHolder(s'.saves.rows, doc.content, doc.id))
  {
  }

  /** A save that inserts the ingest's body, or a row under its id. */
  predicate GetsInTheWay(s: System, m: Move, doc: DoctrineDoc) {
    m.SaveMove? && m.event.SaverStep? && Inserts(s.saves, m.event.p)
    && (s.saves.savers[m.event.p].memory.id == doc.id || s.saves.savers[m.event.p].memory.content == doc.content)
  }

  /** From just after its delete until its last statement, as no save gets in the way, the
      ingest finds its id free and its body unheld. */
  lemma {:induction false} WayStaysFree(states: seq<System>, moves: seq<Move>, p: Pid, doc: DoctrineDoc, i: nat, k: nat)
    requires Schedule(states, moves) && Fresh(states[0]) && i < k < |states|
    requires forall t | i < t <= k :: BetweenRows(states[t], p) && states[t].workers[p].task.doc == doc
    requires doc.id !in states[i + 1].saves.rows && !HeldLive(states[i + 1].saves.rows, doc.content)
    requires forall t | i < t < k :: !GetsInTheWay(states[t], moves[t], doc)
    ensures doc.id !in states[k].saves.rows && !HeldLive(states[k].saves.rows, doc.content)
  {
    hide CanMove, AfterMove, Fresh, HeldLive, GetsInTheWay, BetweenRows;
    if k > i + 1 {
      WayStaysFree(states, moves, p, doc, i, k - 1);
      ScheduleKeepsInv(states, moves, k - 1);
      assert states[k] == AfterMove(states[k - 1], moves[k - 1]);
      FreeStep(states[k - 1], moves[k - 1], p, doc);
    }
  }

  lemma FreeStep(s: System, m: Move, p: Pid, doc: DoctrineDoc)
    requires SystemInv(s) && CanMove(s, m) && BetweenRows(s, p) && s.workers[p].task.doc == doc
    requires BetweenRows(AfterMove(s, m), p)
    requires doc.id !in s.saves.rows && !HeldLive(s.saves.rows, doc.content) && !GetsInTheWay(s, m, doc)
    ensures doc.id !in AfterMove(s, m).saves.rows && !HeldLive(AfterMove(s, m).saves.rows, doc.content)
  {
    match m
    case DoctrineMove(q, inputs) => assert q == p;
    case SaveMove(e) =>
      if e.SaverStep? && Inserts(s.saves, e.p) {
        InsertElsewhere(s.saves.rows, s.saves.savers[e.p].memory, doc.content);
      } else {
        OtherStepsAddNoHolder(s.saves, e);
      }
  }

  lemma InsertElsewhere(rows: Rows, m: Memory, content: string)
    requires !HeldLive(rows, content) && m.id !in rows && m.content != content
    ensures !HeldLive(rows[m.id := m], content)
  {
    assert forall id | id in rows :: rows[m.id := m][id] == rows[id];
    assert forall id | id in rows :: !LiveHolder(rows, content, id);
  }

  /** An ingest that gives up after deleting its row at step `i`, its body then held by no
      other live row, was refused by the embedder, or some save in between inserted its body
      or took its id. */
  lemma LossHasCause(states: seq<System>, moves: seq<Move>, p: Pid, inputs: Inputs, i: nat, k: nat)
    requires Schedule(states, moves) && Fresh(states[0]) && i < k < |moves|
    requires p in states[i].workers && states[i].workers[p].task.IngestTask? && states[i].workers[p].stage.Deleting?
    requires moves[i].DoctrineMove? && moves[i].p == p && moves[k] == DoctrineMove(p, inputs)
    requires !HeldLive(states[i].saves.rows - {states[i].workers[p].task.doc.id}, states[i].workers[p].task.doc.content)
    requires forall t | i < t <= k :: BetweenRows(states[t], p)
    requires GivesUp(states[k], p, inputs)
    ensures || (states[k].workers[p].stage.Storing? && !inputs.embeds)
            || exists j | i < j < k :: GetsInTheWay(states[j], moves[j], states[i].workers[p].task.doc)
  {
    var doc := states[i].workers[p].task.doc;
    forall t | i < t <= k ensures states[t].workers[p].task.doc == doc {
      TaskStays(states, moves, p, i, t);
    }
    if forall j | i < j < k :: !GetsInTheWay(states[j], moves[j], doc) {
      assert states[i + 1] == AfterMove(states[i], moves[i]);
      WayStaysFree(states, moves, p, doc, i, k);
    }
  }

  lemma {:induction false} TaskStays(states: seq<System>, moves: seq<Move>, p: Pid, i: nat, t: nat)
    requires Schedule(states, moves) && i <= t < |states| && p in states[i].workers
    ensures p in states[t].workers && states[t].workers[p].task == states[i].workers[p].task
  {
    hide DoctrineStep, CanMove;
    if t > i {
      TaskStays(states, moves, p, i, t - 1);
      if moves[t - 1].DoctrineMove? {
        DoctrineLeavesSavers(states[t - 1], moves[t - 1].p, moves[t - 1].inputs);
      }
    }
  }
}
