/** Any number of saves running at once against one wall. Each database statement is one
    atomic step; between two statements of a save, any other save may run. A save that
    declares a target holds the supersede lock from before its insert until it returns. */
module ConcurrentSaves {
  import opened Wrappers
  import opened Wall
  import opened Transitions
  import opened SupersedeGraph

  type Pid = nat

  datatype Pc =
    | Start
    | Checked                        // past dedup and embedding
    | Holding                        // has the lock, about to insert
    | Inserted                       // row inserted, about to claim the target
    | Unclaimed                      // claim matched nothing, about to find out why
    | Failed(reason: Error)          // about to undo the insert
    | Releasing(outcome: Result<MemoryId>)
    | Done(result: Result<MemoryId>)

  datatype Saver = Saver(memory: Memory, pc: Pc) {
    predicate Linking() {
      memory.supersedes.Some?
    }

    /** Between taking the lock and letting it go. */
    predicate InLock() {
      pc.Holding? || pc.Inserted? || pc.Unclaimed? || pc.Failed? || pc.Releasing?
    }

    /** Its row is in the table but its target is not linked yet, and may never be. */
    predicate InFlight() {
      pc.Inserted? || pc.Unclaimed? || pc.Failed?
    }

    predicate Succeeded() {
      (pc.Releasing? && pc.outcome.Ok?) || (pc.Done? && pc.result.Ok?)
    }

    /** Its row is in the table and stays there unless the saver removes it. */
    predicate Owns() {
      InFlight() || Succeeded()
    }
  }

  datatype State = State(rows: Rows, lock: Option<Pid>, savers: map<Pid, Saver>) {
    function Goto(p: Pid, pc: Pc): State
      requires p in savers
    {
      this.(savers := savers[p := savers[p].(pc := pc)])
    }
  }

  predicate CanStep(s: State, p: Pid, locking: bool) {
    && p in s.savers
    && !s.savers[p].pc.Done?
    && (s.savers[p].pc.Checked? && s.savers[p].Linking() && locking ==> s.lock.None?)
  }

  /** The next statement of saver `p`; `embeds` says whether the embedder accepts its body. */
  function Step(s: State, p: Pid, embeds: bool): State
    requires p in s.savers && !s.savers[p].pc.Done?
  {
    var m := s.savers[p].memory;
    match s.savers[p].pc
    case Start =>
      if HeldLive(s.rows, m.content) then s.Goto(p, Done(Err(Duplicate)))
      else if !embeds then s.Goto(p, Done(Err(StoreFailure)))
      else s.Goto(p, Checked)
    case Checked =>
      if m.supersedes.Some? then s.Goto(p, Holding).(lock := Some(p))
      else if m.id in s.rows then s.Goto(p, Done(Err(StoreFailure)))
      else s.Goto(p, Done(Ok(m.id))).(rows := s.rows[m.id := m])
    case Holding =>
      if m.id in s.rows then s.Goto(p, Releasing(Err(StoreFailure)))
      else s.Goto(p, Inserted).(rows := s.rows[m.id := m])
    case Inserted =>
      if m.supersedes == Some(m.id) then s.Goto(p, Failed(Duplicate))
      else if m.supersedes.Some? && Claimable(s.rows, m.supersedes.value) then
        s.Goto(p, Releasing(Ok(m.id))).(rows := LinkTo(s.rows, m.supersedes.value, m.id))
      else s.Goto(p, Unclaimed)
    case Unclaimed =>
      s.Goto(p, Failed(if m.supersedes.Some? && m.supersedes.value in s.rows then Duplicate else NotFound))
    case Failed(e) => s.Goto(p, Releasing(Err(e))).(rows := s.rows - {m.id})
    case Releasing(r) => s.Goto(p, Done(r)).(lock := None)
  }

  /** Statements a saver may still have before it. */
  function StatementsLeft(pc: Pc): nat {
    match pc
    case Start => 7
    case Checked => 6
    case Holding => 5
    case Inserted => 4
    case Unclaimed => 3
    case Failed(_) => 2
    case Releasing(_) => 1
    case Done(_) => 0
  }

  /** Saver `p` runs to its end with nobody else in between. */
  function RunAlone(s: State, p: Pid, embeds: bool): State
    requires p in s.savers
    decreases StatementsLeft(s.savers[p].pc)
  {
    if s.savers[p].pc.Done? then s else RunAlone(Step(s, p, embeds), p, embeds)
  }

  lemma ReleaseAlone(s: State, p: Pid, embeds: bool)
    requires p in s.savers && s.savers[p].pc.Releasing?
    ensures RunAlone(s, p, embeds) == s.Goto(p, Done(s.savers[p].pc.outcome)).(lock := None)
  {
    var done := Step(s, p, embeds);
    assert RunAlone(done, p, embeds) == done;
  }

  /** The compensation of a failed save. */
  lemma UndoAlone(s: State, p: Pid, embeds: bool)
    requires p in s.savers && s.savers[p].pc.Failed?
    ensures RunAlone(s, p, embeds)
         == State(s.rows - {s.savers[p].memory.id}, None, s.Goto(p, Done(Err(s.savers[p].pc.reason))).savers)
  {
    var undone := Step(s, p, embeds);
    ReleaseAlone(undone, p, embeds);
    assert RunAlone(s, p, embeds) == RunAlone(undone, p, embeds);
  }

  /** What becomes of a claim of `target` for `id` among the other rows. */
  function ClaimRefusal(rows: Rows, id: MemoryId, target: MemoryId): Option<Error> {
    if target == id then Some(Duplicate)
    else if target !in rows then Some(NotFound)
    else if rows[target].supersededBy.Some? then Some(Duplicate)
    else None
  }

  /** The rest of a linking save once its row is in. */
  lemma ClaimAlone(s: State, p: Pid, embeds: bool)
    requires p in s.savers && s.savers[p].pc.Inserted? && s.savers[p].Linking()
    ensures var m := s.savers[p].memory;
            var refusal := ClaimRefusal(s.rows, m.id, m.supersedes.value);
            RunAlone(s, p, embeds) ==
              if refusal.Some? then State(s.rows - {m.id}, None, s.Goto(p, Done(Err(refusal.value))).savers)
              else State(LinkTo(s.rows, m.supersedes.value, m.id), None, s.Goto(p, Done(Ok(m.id))).savers)
  {
    var claim := Step(s, p, embeds);
    assert RunAlone(s, p, embeds) == RunAlone(claim, p, embeds);
    hide RunAlone;
    if claim.savers[p].pc.Releasing? {
      ReleaseAlone(claim, p, embeds);
    } else if claim.savers[p].pc.Failed? {
      UndoAlone(claim, p, embeds);
    } else {
      NextAlone(claim, p, embeds);
      UndoAlone(Step(claim, p, embeds), p, embeds);
    }
  }

  lemma NextAlone(s: State, p: Pid, embeds: bool)
    requires p in s.savers
    ensures RunAlone(s, p, embeds) == if s.savers[p].pc.Done? then s else RunAlone(Step(s, p, embeds), p, embeds)
  {
  }

  /** Run alone, the statements of a save add up to the serial save: on failure the rows are
      exactly as they were, compensation included, and the lock is free again. */
  lemma AloneIsSerial(s: State, p: Pid, embeds: bool, archive: map<MemoryId, Versions>)
    requires p in s.savers && s.savers[p].pc.Start? && s.lock.None?
    ensures var (w', r) := Save(Wall(s.rows, archive), s.savers[p].memory, embeds);
            RunAlone(s, p, embeds) == State(w'.rows, None, s.Goto(p, Done(r)).savers)
  {
    hide RunAlone, HeldLive, LinkTo;
    var m := s.savers[p].memory;
    NextAlone(s, p, embeds);
    var checked := Step(s, p, embeds);
    NextAlone(checked, p, embeds);
    if checked.savers[p].pc.Checked? {
      var second := Step(checked, p, embeds);
      NextAlone(second, p, embeds);
      if second.savers[p].pc.Holding? {
        var third := Step(second, p, embeds);
        if m.id in s.rows {
          ReleaseAlone(third, p, embeds);
        } else {
          ClaimAlone(third, p, embeds);
          assert third.rows - {m.id} == s.rows;
        }
      }
    }
  }

  /** One step of the system: a saver's next statement, or a delete from outside. */
  datatype Event = SaverStep(p: Pid, embeds: bool) | DeleteRow(id: MemoryId)

  predicate CanHappen(s: State, e: Event) {
    e.SaverStep? ==> CanStep(s, e.p, true)
  }

  function After(s: State, e: Event): State
    requires CanHappen(s, e)
  {
    match e
    case SaverStep(p, embeds) => Step(s, p, embeds)
    case DeleteRow(id) => s.(rows := s.rows - {id})
  }

  /** Saver `p` is about to insert its row. */
  predicate Inserts(s: State, p: Pid) {
    && p in s.savers && s.savers[p].memory.id !in s.rows
    && (s.savers[p].pc.Holding? || (s.savers[p].pc.Checked? && !s.savers[p].Linking()))
  }

  lemma OtherStepsAddNoHolder(s: State, e: Event)
    requires CanHappen(s, e) && (e.SaverStep? ==> !Inserts(s, e.p))
    ensures forall id, b | LiveHolder(After(s, e).rows, b, id) :: LiveHolder(s.rows, b, id)
    ensures After(s, e).rows.Keys <= s.rows.Keys
  {
  }

  /** An interleaving: any choice of saver, or of a row to delete, at every step. */
  ghost predicate Interleaving(states: seq<State>, events: seq<Event>) {
    && |states| == |events| + 1
    && forall i | 0 <= i < |events| :: CanHappen(states[i], events[i]) && states[i + 1] == After(states[i], events[i])
  }

  /** Nobody has started, and incoming rows carry no inverse link. */
  predicate Initial(s: State) {
    && s.lock.None?
    && forall p | p in s.savers :: s.savers[p].pc.Start? && s.savers[p].memory.Live()
  }

  // ---------- acyclicity, with deletes ----------

  /** Exactly the lock holder is inside, and the row it is about to link to, if still
      there, is itself unclaimed. */
  predicate SaverInv(rows: Rows, lock: Option<Pid>, p: Pid, saver: Saver) {
    && saver.memory.Live()
    && (saver.InLock() <==> lock == Some(p))
    && (saver.InLock() ==> saver.Linking())
    && (saver.InFlight() && saver.memory.id in rows ==> rows[saver.memory.id].Live())
  }

  ghost predicate LockInv(s: State) {
    forall p | p in s.savers :: SaverInv(s.rows, s.lock, p, s.savers[p])
  }

  lemma LockInvKept(s: State, e: Event)
    requires LockInv(s) && CanHappen(s, e)
    ensures LockInv(After(s, e))
  {
    hide SaverInv, Step;
    var s' := After(s, e);
    forall q | q in s'.savers
      ensures SaverInv(s'.rows, s'.lock, q, s'.savers[q])
    {
      match e
      case SaverStep(p, embeds) => SaverInvKept(s, p, embeds, q);
      case DeleteRow(id) => SaverInvUnderDelete(s, id, q);
    }
  }

  lemma SaverInvUnderDelete(s: State, id: MemoryId, q: Pid)
    requires LockInv(s) && q in s.savers
    ensures SaverInv(s.rows - {id}, s.lock, q, s.savers[q])
  {
    assert SaverInv(s.rows, s.lock, q, s.savers[q]);
  }

  lemma SaverInvKept(s: State, p: Pid, embeds: bool, q: Pid)
    requires LockInv(s) && CanStep(s, p, true)
    ensures Step(s, p, embeds).savers.Keys == s.savers.Keys
    ensures q in s.savers ==>
            SaverInv(Step(s, p, embeds).rows, Step(s, p, embeds).lock, q, Step(s, p, embeds).savers[q])
  {
    hide SaverInv;
    assert SaverInv(s.rows, s.lock, p, s.savers[p]);
    OwnSaverInvKept(s, p, embeds);
    if q in s.savers && q != p {
      assert SaverInv(s.rows, s.lock, q, s.savers[q]);
      OtherSaverInvKept(s, p, embeds, q);
    }
  }

  lemma OwnSaverInvKept(s: State, p: Pid, embeds: bool)
    requires CanStep(s, p, true) && SaverInv(s.rows, s.lock, p, s.savers[p])
    ensures var s' := Step(s, p, embeds); SaverInv(s'.rows, s'.lock, p, s'.savers[p])
  {
  }

  lemma OtherSaverInvKept(s: State, p: Pid, embeds: bool, q: Pid)
    requires CanStep(s, p, true) && q in s.savers && q != p
    requires SaverInv(s.rows, s.lock, p, s.savers[p]) && SaverInv(s.rows, s.lock, q, s.savers[q])
    ensures var s' := Step(s, p, embeds); SaverInv(s'.rows, s'.lock, q, s'.savers[q])
  {
  }

  lemma AcyclicKept(s: State, e: Event)
    requires LockInv(s) && CanHappen(s, e) && Acyclic(LinksOf(s.rows))
    ensures Acyclic(LinksOf(After(s, e).rows))
  {
    var g, g' := LinksOf(s.rows), LinksOf(After(s, e).rows);
    if e.SaverStep? && s.savers[e.p].pc.Inserted? && s.savers[e.p].memory.supersedes != Some(s.savers[e.p].memory.id)
       && Claimable(s.rows, s.savers[e.p].memory.supersedes.value) {
      var m := s.savers[e.p].memory;
      LinkToSinkStaysAcyclic(g, m.supersedes.value, m.id);
      assert g' == g[m.supersedes.value := m.id];
    } else {
      FewerLinksStayAcyclic(g, g');
    }
  }

  /** In every interleaving of any number of saves and deletes, every reachable state's
      supersede graph is acyclic. */
  lemma {:induction false} InterleavingsStayAcyclic(states: seq<State>, events: seq<Event>, i: nat)
    requires Interleaving(states, events) && i < |states|
    requires Initial(states[0]) && Acyclic(LinksOf(states[0].rows))
    ensures LockInv(states[i]) && Acyclic(LinksOf(states[i].rows))
  {
    if i > 0 {
      InterleavingsStayAcyclic(states, events, i - 1);
      LockInvKept(states[i - 1], events[i - 1]);
      AcyclicKept(states[i - 1], events[i - 1]);
    }
  }

  // ---------- saves only: who owns a row, and mirrored links ----------

  /** `x` is superseded by a row that is there, is linked, and names `x` as its target. */
  predicate ForwardOk(rows: Rows, inFlight: set<MemoryId>, x: MemoryId) {
    x in rows && rows[x].supersededBy.Some? ==>
      var y := rows[x].supersededBy.value; y in rows && y !in inFlight && rows[y].supersedes == Some(x)
  }

  /** `y`, unless still in flight, is the recorded successor of the target it names. */
  predicate BackwardOk(rows: Rows, inFlight: set<MemoryId>, y: MemoryId) {
    y in rows && y !in inFlight && rows[y].supersedes.Some? ==>
      var x := rows[y].supersedes.value; x in rows && rows[x].supersededBy == Some(y)
  }

  /** Links come in mirrored pairs, except that a row in flight names its target first. */
  ghost predicate MirroredExcept(rows: Rows, inFlight: set<MemoryId>) {
    forall id: MemoryId :: ForwardOk(rows, inFlight, id) && BackwardOk(rows, inFlight, id)
  }

  /** `y.supersedes == x` exactly when `x.superseded_by == y`, between rows that are there. */
  ghost predicate Mirrored(rows: Rows) {
    && NoDangling(rows)
    && (forall y | y in rows && rows[y].supersedes.Some? :: rows[y].supersedes.value in rows)
    && (forall x, y | x in rows && y in rows :: rows[y].supersedes == Some(x) <==> rows[x].supersededBy == Some(y))
  }

  function InFlightIds(s: State): set<MemoryId> {
    set p | p in s.savers && s.savers[p].InFlight() :: s.savers[p].memory.id
  }

  predicate OwnsItsRow(rows: Rows, saver: Saver) {
    saver.Owns() ==> saver.memory.id in rows && rows[saver.memory.id].supersedes == saver.memory.supersedes
  }

  ghost predicate OwnersInv(s: State) {
    && (forall p | p in s.savers :: OwnsItsRow(s.rows, s.savers[p]))
    && (forall p, q | p in s.savers && q in s.savers :: DistinctOwners(s, p, q))
  }

  predicate DistinctOwners(s: State, p: Pid, q: Pid)
    requires p in s.savers && q in s.savers
  {
    p != q && s.savers[p].Owns() && s.savers[q].Owns() ==> s.savers[p].memory.id != s.savers[q].memory.id
  }

  /** A successful linking save is the recorded successor of its target. */
  predicate ClaimHeld(rows: Rows, saver: Saver) {
    saver.Succeeded() && saver.Linking() ==>
      saver.memory.supersedes.value in rows && rows[saver.memory.supersedes.value].supersededBy == Some(saver.memory.id)
  }

  ghost predicate SavesInv(s: State) {
    && LockInv(s) && OwnersInv(s)
    && forall p | p in s.savers :: ClaimHeld(s.rows, s.savers[p])
  }

  /** With mirrored links as well, when the run starts with them. */
  ghost predicate MirrorInv(s: State) {
    SavesInv(s) && MirroredExcept(s.rows, InFlightIds(s))
  }

  /** At most the lock holder is in flight. */
  lemma InFlightIsHolder(s: State, p: Pid)
    requires LockInv(s) && p in s.savers && s.savers[p].InLock()
    ensures InFlightIds(s) == if s.savers[p].InFlight() then {s.savers[p].memory.id} else {}
  {
    assert forall q | q in s.savers && s.savers[q].InFlight() :: SaverInv(s.rows, s.lock, q, s.savers[q]);
    assert SaverInv(s.rows, s.lock, p, s.savers[p]);
  }

  /** A saver comes to own a row only by inserting under an id that was free. */
  lemma OwnershipStartsFresh(s: State, p: Pid, embeds: bool)
    requires CanStep(s, p, true)
    ensures Step(s, p, embeds).savers[p].Owns() && !s.savers[p].Owns() ==> s.savers[p].memory.id !in s.rows
  {
  }

  /** A step changes which row an id has only by inserting under a free id or by undoing
      the saver's own insert. */
  lemma OtherRowsStay(s: State, p: Pid, embeds: bool, id: MemoryId)
    requires CanStep(s, p, true) && id in s.rows
    requires s.savers[p].pc.Failed? ==> id != s.savers[p].memory.id
    ensures id in Step(s, p, embeds).rows && Step(s, p, embeds).rows[id].supersedes == s.rows[id].supersedes
  {
  }

  lemma OwnersInvKept(s: State, e: Event)
    requires OwnersInv(s) && CanHappen(s, e) && e.SaverStep?
    ensures OwnersInv(After(s, e))
  {
    var s', p := After(s, e), e.p;
    forall q | q in s'.savers ensures OwnsItsRow(s'.rows, s'.savers[q]) {
      assert OwnsItsRow(s.rows, s.savers[q]) && DistinctOwners(s, p, q);
      if s.savers[q].Owns() && (q != p || !s.savers[p].pc.Failed?) {
        OtherRowsStay(s, p, e.embeds, s.savers[q].memory.id);
      }
    }
    forall q, r | q in s'.savers && r in s'.savers ensures DistinctOwners(s', q, r) {
      OwnersStayDistinct(s, p, e.embeds, q, r);
    }
  }

  lemma OwnersStayDistinct(s: State, p: Pid, embeds: bool, q: Pid, r: Pid)
    requires CanStep(s, p, true) && q in s.savers && r in s.savers
    requires OwnsItsRow(s.rows, s.savers[q]) && OwnsItsRow(s.rows, s.savers[r]) && DistinctOwners(s, q, r)
    ensures DistinctOwners(Step(s, p, embeds), q, r)
  {
    OwnershipStartsFresh(s, p, embeds);
  }

  /** Removing the row of a failed linker leaves no trace of it. */
  lemma UndoMirrors(rows: Rows, id: MemoryId)
    requires MirroredExcept(rows, {id}) && (id in rows ==> rows[id].Live())
    ensures MirroredExcept(rows - {id}, {})
  {
    forall x: MemoryId ensures ForwardOk(rows - {id}, {}, x) && BackwardOk(rows - {id}, {}, x) {
      assert ForwardOk(rows, {id}, x) && BackwardOk(rows, {id}, x);
    }
  }

  lemma ClaimMirrors(rows: Rows, m: Memory)
    requires MirroredExcept(rows, {m.id}) && m.id in rows && rows[m.id].supersedes == m.supersedes
    requires m.supersedes.Some? && m.supersedes.value != m.id && Claimable(rows, m.supersedes.value)
    ensures MirroredExcept(LinkTo(rows, m.supersedes.value, m.id), {})
  {
    var rows' := LinkTo(rows, m.supersedes.value, m.id);
    forall x: MemoryId ensures ForwardOk(rows', {}, x) && BackwardOk(rows', {}, x) {
      assert ForwardOk(rows, {m.id}, x) && BackwardOk(rows, {m.id}, x);
    }
  }

  lemma InsertMirrors(rows: Rows, m: Memory, inFlight: set<MemoryId>, inFlight': set<MemoryId>)
    requires MirroredExcept(rows, inFlight) && m.id !in rows && m.Live()
    requires inFlight' == if m.supersedes.Some? then inFlight + {m.id} else inFlight
    ensures MirroredExcept(rows[m.id := m], inFlight')
  {
    var rows' := rows[m.id := m];
    forall x: MemoryId ensures ForwardOk(rows', inFlight', x) && BackwardOk(rows', inFlight', x) {
      assert ForwardOk(rows, inFlight, x) && BackwardOk(rows, inFlight, x);
    }
  }

  lemma MirrorKept(s: State, e: Event)
    requires MirrorInv(s)
    requires CanHappen(s, e) && e.SaverStep?
    ensures MirroredExcept(After(s, e).rows, InFlightIds(After(s, e)))
  {
    var s', p := After(s, e), e.p;
    var saver, saver' := s.savers[p], s'.savers[p];
    assert SaverInv(s.rows, s.lock, p, saver) && OwnsItsRow(s.rows, saver);
    LockInvKept(s, e);
    if saver.InLock() && saver'.InLock() {
      InFlightIsHolder(s, p);
      InFlightIsHolder(s', p);
    } else {
      assert !saver.InFlight() && !saver'.InFlight();
      SameInFlight(s, s', p);
    }
    match saver.pc
    case Checked => if s'.rows != s.rows { InsertMirrors(s.rows, saver.memory, InFlightIds(s), InFlightIds(s')); }
    case Holding => if s'.rows != s.rows { InsertMirrors(s.rows, saver.memory, InFlightIds(s), InFlightIds(s')); }
    case Inserted => if saver'.pc.Releasing? { ClaimMirrors(s.rows, saver.memory); }
    case Failed(_) => UndoMirrors(s.rows, saver.memory.id);
    case _ =>
  }

  lemma SameInFlight(s: State, s': State, p: Pid)
    requires p in s.savers && p in s'.savers && s'.savers == s.savers[p := s'.savers[p]]
    requires !s.savers[p].InFlight() && !s'.savers[p].InFlight()
    ensures InFlightIds(s') == InFlightIds(s)
  {
    assert forall q | q in s.savers && s.savers[q].InFlight() :: s'.savers[q] == s.savers[q];
  }

  lemma ClaimsKept(s: State, e: Event)
    requires SavesInv(s) && CanHappen(s, e) && e.SaverStep?
    ensures forall p | p in After(s, e).savers :: ClaimHeld(After(s, e).rows, After(s, e).savers[p])
  {
    var s', p := After(s, e), e.p;
    assert SaverInv(s.rows, s.lock, p, s.savers[p]) && OwnsItsRow(s.rows, s.savers[p]);
    forall q | q in s'.savers
      ensures ClaimHeld(s'.rows, s'.savers[q])
    {
      assert ClaimHeld(s.rows, s.savers[q]);
      if q != p && s.savers[p].pc.Failed? && s.savers[q].Succeeded() && s.savers[q].Linking() {
        // the undone row is unclaimed, so it is nobody's target
        assert s.savers[q].memory.supersedes.value != s.savers[p].memory.id;
      }
    }
  }

  lemma {:induction false} SavesKeepInv(states: seq<State>, events: seq<Event>, i: nat)
    requires Interleaving(states, events) && i < |states| && Initial(states[0])
    requires forall e | e in events :: e.SaverStep?
    ensures SavesInv(states[i])
  {
    if i > 0 {
      hide SavesInv, Initial;
      SavesKeepInv(states, events, i - 1);
      assert events[i - 1] in events;
      SavesInvKept(states[i - 1], events[i - 1]);
    }
  }

  lemma SavesInvKept(s: State, e: Event)
    requires SavesInv(s) && CanHappen(s, e) && e.SaverStep?
    ensures SavesInv(After(s, e))
  {
    LockInvKept(s, e);
    OwnersInvKept(s, e);
    ClaimsKept(s, e);
  }

  lemma MirrorInvHolds(s: State)
    requires Initial(s) && Mirrored(s.rows)
    ensures MirrorInv(s)
  {
    assert InFlightIds(s) == {};
    forall id: MemoryId ensures ForwardOk(s.rows, {}, id) && BackwardOk(s.rows, {}, id) {}
  }

  lemma {:induction false} SavesKeepMirror(states: seq<State>, events: seq<Event>, i: nat)
    requires Interleaving(states, events) && i < |states|
    requires Initial(states[0]) && Mirrored(states[0].rows)
    requires forall e | e in events :: e.SaverStep?
    ensures MirrorInv(states[i])
  {
    hide SavesInv, Mirrored, MirroredExcept, Initial;
    if i == 0 {
      MirrorInvHolds(states[0]);
    } else {
      SavesKeepMirror(states, events, i - 1);
      assert events[i - 1] in events;
      SavesInvKept(states[i - 1], events[i - 1]);
      MirrorKept(states[i - 1], events[i - 1]);
    }
  }

  /** Whatever the rows were to begin with, at most one save superseding a given target ever
      returns successfully. */
  lemma AtMostOneSuccessor(states: seq<State>, events: seq<Event>, p: Pid, q: Pid)
    requires Interleaving(states, events) && Initial(states[0])
    requires forall e | e in events :: e.SaverStep?
    requires var s := states[|events|];
             && p in s.savers && s.savers[p].Succeeded() && s.savers[p].Linking()
             && q in s.savers && s.savers[q].Succeeded()
             && s.savers[q].memory.supersedes == s.savers[p].memory.supersedes
    ensures p == q
  {
    SavesKeepInv(states, events, |events|);
    var s := states[|events|];
    assert ClaimHeld(s.rows, s.savers[p]) && ClaimHeld(s.rows, s.savers[q]);
    assert DistinctOwners(s, p, q);
  }

  /** No two rows have the same successor. */
  predicate OneTargetEach(rows: Rows) {
    forall x, y |
      x in rows && y in rows && rows[x].supersededBy.Some? && rows[x].supersededBy == rows[y].supersededBy ::
      x == y
  }

  lemma NobodyInFlight(rows: Rows)
    requires MirroredExcept(rows, {})
    ensures Mirrored(rows)
    ensures OneTargetEach(rows)
  {
    forall id | id in rows ensures ForwardOk(rows, {}, id) && BackwardOk(rows, {}, id) {}
  }

  /** Whenever no linker is in flight the two directions of the links agree, two rows never
      share a successor, and every row leads to exactly one live head. */
  lemma QuiescentChainsAreLinear(states: seq<State>, events: seq<Event>)
    requires Interleaving(states, events)
    requires Initial(states[0]) && Mirrored(states[0].rows) && Acyclic(LinksOf(states[0].rows))
    requires forall e | e in events :: e.SaverStep?
    requires InFlightIds(states[|events|]) == {}
    ensures var rows := states[|events|].rows;
            && Mirrored(rows)
            && OneTargetEach(rows)
            && (forall id | id in rows :: exists p :: LeadsTo(rows, id, p))
            && (forall id, p, q | LeadsTo(rows, id, p) && LeadsTo(rows, id, q) :: p == q)
  {
    var rows := states[|events|].rows;
    SavesKeepMirror(states, events, |events|);
    InterleavingsStayAcyclic(states, events, |events|);
    NobodyInFlight(rows);
    forall id | id in rows ensures exists p :: LeadsTo(rows, id, p) {
      var p := ExtendToHead(rows, [id], {});
    }
    forall id, p, q | LeadsTo(rows, id, p) && LeadsTo(rows, id, q) ensures p == q {
      ChainsAreUnique(rows, id, p, q);
    }
  }
}
