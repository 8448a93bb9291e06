/** Stable body identities: over the whole history of a document, revision numbers and
    bodies correspond one to one, and no body that was ever live is lost. */
module DoctrineIdentity {
  import opened Wrappers
  import opened Wall
  import opened Transitions

  // ---------- the invariant of one document ----------

  /** The row's number and body agree with the archive in both directions, and the number a
      reader is told is the one its body is, or will be, archived under. */
  ghost predicate Agrees(vs: Versions, live: Memory) {
    && (forall v | v in vs :: v == live.Number() <==> vs[v].content == live.content)
    && (live.revision.None? ==> Archived(vs, live.content) || MaxVersion(vs) == 0)
  }

  ghost predicate DocumentInv(vs: Versions, live: Option<Memory>) {
    DistinctBodies(vs) && (live.Some? ==> Agrees(vs, live.value))
  }

  ghost predicate Inv(w: Wall, id: MemoryId) {
    DocumentInv(w.VersionsOf(id), w.Recall(id))
  }

  predicate IsLiveAs(live: Option<Memory>, number: nat, body: string) {
    live.Some? && live.value.Number() == number && live.value.content == body
  }

  /** The (number, body) pairs a document can still produce: its archive and its live row. */
  predicate Known(vs: Versions, live: Option<Memory>, number: nat, body: string) {
    ArchivedAs(vs, body, number) || IsLiveAs(live, number, body)
  }

  predicate KnownIn(w: Wall, id: MemoryId, number: nat, body: string) {
    Known(w.VersionsOf(id), w.Recall(id), number, body)
  }

  /** Archived bodies stay archived under their numbers, and the live pair stays known. */
  predicate DocumentKept(vs: Versions, live: Option<Memory>, vs': Versions, live': Option<Memory>) {
    && (forall v | v in vs :: ArchivedAs(vs', vs[v].content, v))
    && (live.Some? ==> Known(vs', live', live.value.Number(), live.value.content))
  }

  predicate Kept(w: Wall, w': Wall, id: MemoryId) {
    DocumentKept(w.VersionsOf(id), w.Recall(id), w'.VersionsOf(id), w'.Recall(id))
  }

  /** Operations that respect the identities of document `id`. Ingests and rollbacks always
      do, and whatever is done to other rows. A save that puts a row under the id must agree
      with the archive there; a delete of the row needs its body archived. */
  ghost predicate IdentitySafe(w: Wall, op: Op, id: MemoryId) {
    match op
    case SaveOp(m, embeds) => m.id == id && SaveRefusal(w.rows, m, embeds).None? ==> Agrees(w.VersionsOf(id), m)
    case DeleteOp(deleted) => deleted == id && id in w.rows ==> Archived(w.VersionsOf(id), w.rows[id].content)
    case _ => true
  }

  // ---------- one step ----------

  /** Archiving the outgoing body keeps the invariant, loses nothing, and leaves the live
      body archived under the live number. */
  lemma ArchivingKeeps(vs: Versions, live: Memory)
    requires DocumentInv(vs, Some(live))
    ensures var (archived, number) := ArchiveOutgoing(vs, live);
            && DocumentInv(archived, Some(live.(revision := Some(number))))
            && number == live.Number()
            && ArchivedAs(archived, live.content, number)
            && (forall v | v in vs :: v in archived && archived[v] == vs[v])
            && (forall v | v in archived :: v in vs || v == number)
  {
    if Archived(vs, live.content) {
      assert VersionHolding(vs, live.content) in vs;
    } else {
      var number := live.revision.GetOr(MaxVersion(vs) + 1);
      assert number !in vs;
    }
  }

  /** The number an incoming body gets matches the archive in both directions. */
  lemma AllocationAgrees(vs: Versions, live: Option<Memory>, content: string)
    requires DocumentInv(vs, live)
    ensures var (archived, number) := (ArchiveIfLive(vs, live), Allocate(vs, live, content));
            && DistinctBodies(archived)
            && (forall v | v in vs :: v in archived && archived[v] == vs[v])
            && (live.Some? ==> ArchivedAs(archived, live.value.content, live.value.Number()))
            && (forall v | v in archived :: v == number <==> archived[v].content == content)
            && (!Archived(archived, content) ==> forall v | v in archived :: v < number)
  {
    if live.Some? {
      ArchivingKeeps(vs, live.value);
    }
    var archived := ArchiveIfLive(vs, live);
    if Archived(vs, content) {
      assert ArchivedAs(archived, content, VersionHolding(vs, content));
    }
  }

  /** Same number and body; only links may differ. */
  predicate SameBody(a: Option<Memory>, b: Option<Memory>) {
    a.Some? == b.Some? && (a.Some? ==> a.value.revision == b.value.revision && a.value.content == b.value.content)
  }

  /** A step that leaves a document's versions, number and body alone. */
  lemma UntouchedKeeps(w: Wall, w': Wall, id: MemoryId)
    requires Inv(w, id) && w'.VersionsOf(id) == w.VersionsOf(id) && SameBody(w.Recall(id), w'.Recall(id))
    ensures Inv(w', id) && Kept(w, w', id)
  {
  }

  /** Replacing the row, or losing it to a failing embedder after archiving its body. */
  lemma ReplacingKeeps(vs: Versions, live: Option<Memory>, doc: DoctrineDoc)
    requires DocumentInv(vs, live)
    ensures var (archived, number) := (ArchiveIfLive(vs, live), Allocate(vs, live, doc.content));
            var flagged, replaced := SetActiveFlags(archived, doc.content), Some(doc.ToMemory(number));
            && DocumentInv(flagged, replaced) && DocumentKept(vs, live, flagged, replaced)
            && DocumentInv(archived, None) && DocumentKept(vs, live, archived, None)
  {
    AllocationAgrees(vs, live, doc.content);
    var archived := ArchiveIfLive(vs, live);
    var flagged := SetActiveFlags(archived, doc.content);
    assert forall v | v in archived :: flagged[v].content == archived[v].content;
  }

  lemma IngestKeeps(w: Wall, doc: DoctrineDoc, answer: Option<MemoryId>, embeds: bool, id: MemoryId)
    requires Inv(w, id) && IsDuplicateAnswer(w.rows, doc.content, answer)
    ensures Inv(Ingest(w, doc, answer, embeds).0, id) && Kept(w, Ingest(w, doc, answer, embeds).0, id)
  {
    hide DocumentInv, DocumentKept, ArchiveIfLive, SetActiveFlags, Allocate;
    var w' := Ingest(w, doc, answer, embeds).0;
    var vs, live := w.VersionsOf(doc.id), w.Recall(doc.id);
    WrittenVersions(w, doc.id, SetActiveFlags(ArchiveIfLive(vs, live), doc.content));
    WrittenVersions(w, doc.id, ArchiveIfLive(vs, live));
    if id == doc.id && Replaces(w, doc, answer) {
      ReplacingKeeps(vs, live, doc);
    } else {
      UntouchedKeeps(w, w', id);
    }
  }

  /** Rewriting the row from an archived version, or stopping after archiving its body. */
  lemma RestoringKeeps(vs: Versions, live: Memory, to: nat)
    requires DocumentInv(vs, Some(live)) && to in vs
    ensures var content := vs[to].content;
            var archived := if live.content != content then ArchiveOutgoing(vs, live).0 else vs;
            var flagged := SetActiveFlags(archived, content);
            var restored := Some(live.(content := content, revision := Some(to)));
            && DocumentInv(flagged, restored) && DocumentKept(vs, Some(live), flagged, restored)
            && DocumentInv(archived, Some(live)) && DocumentKept(vs, Some(live), archived, Some(live))
            && ArchivedAs(flagged, live.content, live.Number())
  {
    ArchivingKeeps(vs, live);
    var content := vs[to].content;
    var archived := if live.content != content then ArchiveOutgoing(vs, live).0 else vs;
    assert forall v | v in archived :: SetActiveFlags(archived, content)[v].content == archived[v].content;
  }

  lemma RollbackKeeps(w: Wall, rolled: MemoryId, to: nat, embeds: bool, id: MemoryId)
    requires Inv(w, id)
    ensures Inv(Rollback(w, rolled, to, embeds).0, id) && Kept(w, Rollback(w, rolled, to, embeds).0, id)
  {
    hide DocumentInv, DocumentKept, ArchiveOutgoing, SetActiveFlags;
    var w' := Rollback(w, rolled, to, embeds).0;
    if id == rolled && to in w.VersionsOf(id) && id in w.rows {
      RestoringKeeps(w.VersionsOf(id), w.rows[id], to);
    } else {
      UntouchedKeeps(w, w', id);
    }
  }

  /** A save that goes through keeps a document's identities exactly when the row it puts
      there agrees with the archive. */
  lemma SaveKeepsIff(w: Wall, m: Memory)
    requires Inv(w, m.id) && SaveRefusal(w.rows, m, true).None?
    ensures var w' := Save(w, m, true).0; Kept(w, w', m.id) && (Inv(w', m.id) <==> Agrees(w.VersionsOf(m.id), m))
  {
  }

  /** A delete loses the row's number and body exactly when the body is not archived. */
  lemma DeleteKeepsIff(w: Wall, id: MemoryId)
    requires Inv(w, id) && id in w.rows
    ensures Inv(Delete(w, id), id) && (Kept(w, Delete(w, id), id) <==> Archived(w.VersionsOf(id), w.rows[id].content))
  {
  }

  lemma StepKeepsIff(w: Wall, op: Op, id: MemoryId)
    requires Inv(w, id) && Enabled(w, op)
    ensures Inv(Apply(w, op), id) && Kept(w, Apply(w, op), id) <==> IdentitySafe(w, op, id)
  {
    hide Inv, Kept, Agrees, Ingest, Rollback;
    match op
    case IngestOp(doc, answer, embeds) => IngestKeeps(w, doc, answer, embeds, id);
    case RollbackOp(rolled, to, embeds) => RollbackKeeps(w, rolled, to, embeds, id);
    case SaveOp(m, embeds) =>
      if m.id == id && SaveRefusal(w.rows, m, embeds).None? {
        SaveKeepsIff(w, m);
      } else {
        UntouchedKeeps(w, Apply(w, op), id);
      }
    case DeleteOp(deleted) =>
      if deleted == id && id in w.rows {
        DeleteKeepsIff(w, id);
      } else {
        UntouchedKeeps(w, Apply(w, op), id);
      }
  }

  lemma KeptReflexive(w: Wall, id: MemoryId)
    ensures Kept(w, w, id)
  {
  }

  lemma KeptTransitive(w: Wall, w': Wall, w'': Wall, id: MemoryId)
    requires Kept(w, w', id) && Kept(w', w'', id)
    ensures Kept(w, w'', id)
  {
  }

  // ---------- whole histories ----------

  /** A run that starts well for document `id` and stays safe for it; what it does to other
      rows is not restricted. */
  ghost predicate SafeRun(walls: seq<Wall>, ops: seq<Op>, id: MemoryId) {
    && Run(walls, ops)
    && Inv(walls[0], id)
    && forall i | 0 <= i < |ops| :: IdentitySafe(walls[i], ops[i], id)
  }

  /** At some point of the run the document was live with this number and body. */
  ghost predicate EverLive(walls: seq<Wall>, id: MemoryId, number: nat, body: string) {
    exists i | 0 <= i < |walls| :: IsLiveAs(walls[i].Recall(id), number, body)
  }

  lemma {:induction false} RunKeeps(walls: seq<Wall>, ops: seq<Op>, id: MemoryId, i: nat, j: nat)
    requires SafeRun(walls, ops, id) && i <= j < |walls|
    ensures Inv(walls[j], id) && Kept(walls[i], walls[j], id)
    decreases j
  {
    hide Inv, Kept, Apply, IdentitySafe;
    KeptReflexive(walls[j], id);
    if j > 0 {
      RunKeeps(walls, ops, id, if i < j then i else j - 1, j - 1);
      StepKeepsIff(walls[j - 1], ops[j - 1], id);
      if i < j {
        KeptTransitive(walls[i], walls[j - 1], walls[j], id);
      }
    }
  }

  /** Nothing that was ever live is lost: it is the current row, or archived under its number. */
  lemma NothingLost(walls: seq<Wall>, ops: seq<Op>, id: MemoryId, number: nat, body: string)
    requires SafeRun(walls, ops, id) && EverLive(walls, id, number, body)
    ensures KnownIn(walls[|ops|], id, number, body)
  {
    var i :| 0 <= i < |walls| && IsLiveAs(walls[i].Recall(id), number, body);
    RunKeeps(walls, ops, id, i, |ops|);
  }

  /** Whatever a document's archive or row showed at two points of a run, numbers and bodies
      determine each other. */
  ghost predicate Bijective(walls: seq<Wall>, id: MemoryId) {
    forall i, j, n: nat, n': nat, b, b' |
      0 <= i < |walls| && 0 <= j < |walls| && KnownIn(walls[i], id, n, b) && KnownIn(walls[j], id, n', b') ::
      n == n' <==> b == b'
  }

  lemma KnownPairsAgree(w: Wall, id: MemoryId, n: nat, b: string, n': nat, b': string)
    requires Inv(w, id) && KnownIn(w, id, n, b) && KnownIn(w, id, n', b')
    ensures n == n' <==> b == b'
  {
  }

  /** Over any safe run, numbers and bodies of one document determine each other. */
  lemma IdentitiesAreABijection(walls: seq<Wall>, ops: seq<Op>, id: MemoryId)
    requires SafeRun(walls, ops, id)
    ensures Bijective(walls, id)
  {
    hide Inv, KnownIn, SafeRun;
    var last := |ops|;
    forall i, j, n: nat, n': nat, b, b' |
      0 <= i < |walls| && 0 <= j < |walls| && KnownIn(walls[i], id, n, b) && KnownIn(walls[j], id, n', b')
      ensures n == n' <==> b == b'
    {
      StaysKnown(walls, ops, id, i, n, b);
      StaysKnown(walls, ops, id, j, n', b');
      KnownPairsAgree(walls[last], id, n, b, n', b');
    }
  }

  lemma StaysKnown(walls: seq<Wall>, ops: seq<Op>, id: MemoryId, i: nat, n: nat, b: string)
    requires SafeRun(walls, ops, id) && i < |walls| && KnownIn(walls[i], id, n, b)
    ensures |walls| == |ops| + 1 && Inv(walls[|ops|], id) && KnownIn(walls[|ops|], id, n, b)
  {
    RunKeeps(walls, ops, id, i, |ops|);
  }

  /** The archive upsert never overwrites a body: what a number was archived with, it keeps. */
  lemma ArchiveIsAppendOnly(walls: seq<Wall>, ops: seq<Op>, id: MemoryId, i: nat, j: nat, n: nat)
    requires SafeRun(walls, ops, id) && i <= j < |walls|
    requires n in walls[i].VersionsOf(id)
    ensures ArchivedAs(walls[j].VersionsOf(id), walls[i].VersionsOf(id)[n].content, n)
  {
    RunKeeps(walls, ops, id, i, j);
  }

  ghost predicate IsNumber(w: Wall, id: MemoryId, n: nat) {
    exists b :: KnownIn(w, id, n, b)
  }

  /** `n` is the first number after all a document has. */
  ghost predicate IsNext(w: Wall, id: MemoryId, n: nat) {
    && (forall k: nat | IsNumber(w, id, k) :: k < n)
    && (n == 1 || (n > 0 && IsNumber(w, id, n - 1)))
  }

  lemma NewNumberIsNext(w: Wall, doc: DoctrineDoc)
    requires Inv(w, doc.id) && !Archived(w.VersionsOf(doc.id), doc.content)
    requires doc.id in w.rows ==> w.rows[doc.id].content != doc.content
    ensures IsNext(w, doc.id, Allocate(w.VersionsOf(doc.id), w.Recall(doc.id), doc.content))
  {
    var vs, live := w.VersionsOf(doc.id), w.Recall(doc.id);
    AllocationAgrees(vs, live, doc.content);
    if live.Some? {
      ArchivingKeeps(vs, live.value);
    }
    var last := Allocate(vs, live, doc.content) - 1;
    if last in vs {
      assert KnownIn(w, doc.id, last, vs[last].content);
    } else if last > 0 {
      assert KnownIn(w, doc.id, last, live.value.content);
    }
  }

  lemma OldNumberAgain(w: Wall, doc: DoctrineDoc)
    requires Inv(w, doc.id)
    requires Archived(w.VersionsOf(doc.id), doc.content) || (doc.id in w.rows && w.rows[doc.id].content == doc.content)
    ensures KnownIn(w, doc.id, Allocate(w.VersionsOf(doc.id), w.Recall(doc.id), doc.content), doc.content)
  {
    AllocationAgrees(w.VersionsOf(doc.id), w.Recall(doc.id), doc.content);
  }

  lemma IngestNumbersByWhatIsKnown(w: Wall, doc: DoctrineDoc, answer: Option<MemoryId>)
    requires Inv(w, doc.id) && IsDuplicateAnswer(w.rows, doc.content, answer) && !Elsewhere(doc, answer)
    ensures var (w', r) := Ingest(w, doc, answer, true);
            && r.Ok? && r.value.0 == doc.id
            && IsLiveAs(w'.Recall(doc.id), r.value.1, doc.content)
            && (KnownIn(w, doc.id, r.value.1, doc.content)
                || (IsNext(w, doc.id, r.value.1) && forall n: nat :: !KnownIn(w, doc.id, n, doc.content)))
  {
    if !Unchanged(w, doc) {
      if Archived(w.VersionsOf(doc.id), doc.content) || (doc.id in w.rows && w.rows[doc.id].content == doc.content) {
        OldNumberAgain(w, doc);
      } else {
        NewNumberIsNext(w, doc);
      }
    }
    hide Allocate, ArchiveIfLive, SetActiveFlags, Inv, HeldLive, IsNext;
  }

  /** After any safe run, an ingest that goes through gives a body seen in the archive or the
      row at any point of it the number it had there, and any other body the number after the
      largest seen. */
  lemma IngestNumbersStably(walls: seq<Wall>, ops: seq<Op>, doc: DoctrineDoc, answer: Option<MemoryId>)
    requires SafeRun(walls, ops, doc.id)
    requires IsDuplicateAnswer(walls[|ops|].rows, doc.content, answer) && !Elsewhere(doc, answer)
    ensures var (w', r) := Ingest(walls[|ops|], doc, answer, true);
            && r.Ok? && r.value.0 == doc.id
            && IsLiveAs(w'.Recall(doc.id), r.value.1, doc.content)
            && (forall i, n: nat | 0 <= i < |walls| && KnownIn(walls[i], doc.id, n, doc.content) :: r.value.1 == n)
            && (KnownIn(walls[|ops|], doc.id, r.value.1, doc.content)
                || (IsNext(walls[|ops|], doc.id, r.value.1)
                    && forall i, n: nat, b | 0 <= i < |walls| && KnownIn(walls[i], doc.id, n, b) :: n < r.value.1))
  {
    hide Inv, KnownIn, SafeRun, Ingest, IsLiveAs;
    SafeRunEnds(walls, ops, doc.id);
    var last := walls[|ops|];
    IngestNumbersByWhatIsKnown(last, doc, answer);
    var number := Ingest(last, doc, answer, true).1.value.1;
    forall i, n: nat | 0 <= i < |walls| && KnownIn(walls[i], doc.id, n, doc.content) ensures number == n {
      StaysKnown(walls, ops, doc.id, i, n, doc.content);
      KnownPairsAgree(last, doc.id, n, doc.content, number, doc.content);
    }
    if !KnownIn(last, doc.id, number, doc.content) {
      forall i, n: nat, b | 0 <= i < |walls| && KnownIn(walls[i], doc.id, n, b) ensures n < number {
        StaysKnown(walls, ops, doc.id, i, n, b);
        assert IsNumber(last, doc.id, n);
      }
    }
  }

  lemma SafeRunEnds(walls: seq<Wall>, ops: seq<Op>, id: MemoryId)
    requires SafeRun(walls, ops, id)
    ensures |walls| == |ops| + 1 && Inv(walls[|ops|], id)
  {
    RunKeeps(walls, ops, id, |ops|, |ops|);
  }

  // ---------- rolling back ----------

  /** A rollback rewrites the row's content and number and nothing else, and archives the
      body it replaces under the number it had. */
  lemma RollbackRewrites(w: Wall, id: MemoryId, to: nat)
    requires Inv(w, id) && id in w.rows && to in w.VersionsOf(id)
    ensures var (w', r) := Rollback(w, id, to, true);
            && r == Ok(id)
            && w'.rows == w.rows[id := w.rows[id].(content := w.VersionsOf(id)[to].content, revision := Some(to))]
            && ArchivedAs(w'.VersionsOf(id), w.rows[id].content, w.rows[id].Number())
            && Inv(w', id)
  {
    RestoringKeeps(w.VersionsOf(id), w.rows[id], to);
  }

  /** Rolling back to any number the document carried before, other than the current one,
      succeeds and brings back exactly that number and body; everything else about the row
      stays. Rolling forward again restores the row, its number now always explicit. */
  lemma RollbackRestores(walls: seq<Wall>, ops: seq<Op>, id: MemoryId, number: nat, body: string)
    requires SafeRun(walls, ops, id) && EverLive(walls, id, number, body)
    requires id in walls[|ops|].rows && walls[|ops|].rows[id].Number() != number
    ensures var w := walls[|ops|];
            var current := w.rows[id].Number();
            var (back, r) := Rollback(w, id, number, true);
            && r == Ok(id)
            && back.rows == w.rows[id := w.rows[id].(content := body, revision := Some(number))]
            && Rollback(back, id, current, true).1 == Ok(id)
            && Rollback(back, id, current, true).0.rows == w.rows[id := w.rows[id].(revision := Some(current))]
  {
    var w := walls[|ops|];
    NothingLost(walls, ops, id, number, body);
    RunKeeps(walls, ops, id, |ops|, |ops|);
    ThereAndBack(w, id, number, body);
  }

  lemma ThereAndBack(w: Wall, id: MemoryId, number: nat, body: string)
    requires Inv(w, id) && id in w.rows && ArchivedAs(w.VersionsOf(id), body, number)
    ensures var (back, r) := Rollback(w, id, number, true);
            var current := w.rows[id].Number();
            && r == Ok(id)
            && back.rows == w.rows[id := w.rows[id].(content := body, revision := Some(number))]
            && Rollback(back, id, current, true).1 == Ok(id)
            && Rollback(back, id, current, true).0.rows == w.rows[id := w.rows[id].(revision := Some(current))]
  {
    hide Rollback, Inv;
    RollbackRewrites(w, id, number);
    RollbackRewrites(Rollback(w, id, number, true).0, id, w.rows[id].Number());
  }

  // ---------- what breaks identities ----------

  /** A run from `w` that begins with `op` and never again saves or deletes document `id`. */
  ghost predicate Continues(walls: seq<Wall>, ops: seq<Op>, w: Wall, op: Op, id: MemoryId) {
    && Run(walls, ops) && walls[0] == w && ops != [] && ops[0] == op
    && forall k | 0 < k < |ops| :: Leaves(ops[k], id)
  }

  predicate Leaves(op: Op, id: MemoryId) {
    (op.SaveOp? ==> op.memory.id != id) && (op.DeleteOp? ==> op.deleted != id)
  }

  /** Exactly the safe operations respect identities: whatever follows a safe one, numbers
      and bodies still determine each other, and after an unsafe one something can follow
      that gives one body two numbers or one number two bodies. */
  lemma OperationIsHarmlessIff(w: Wall, op: Op, id: MemoryId)
    requires Inv(w, id) && Enabled(w, op)
    ensures IdentitySafe(w, op, id) <==> forall walls, ops | Continues(walls, ops, w, op, id) :: Bijective(walls, id)
  {
    hide Inv, Bijective, Apply;
    if IdentitySafe(w, op, id) {
      forall walls, ops | Continues(walls, ops, w, op, id) ensures Bijective(walls, id) {
        forall k | 0 <= k < |ops| ensures IdentitySafe(walls[k], ops[k], id) {
          assert k > 0 ==> Leaves(ops[k], id);
        }
        IdentitiesAreABijection(walls, ops, id);
      }
    } else if op.SaveOp? {
      var walls, ops := AfterUnsafeSave(w, op.memory, op.saveEmbeds);
    } else {
      var walls, ops := AfterUnsafeDelete(w, id);
    }
  }

  /** Two sightings that contradict each other. */
  lemma Contradict(walls: seq<Wall>, id: MemoryId, i: nat, n: nat, b: string, j: nat, n': nat, b': string)
    requires i < |walls| && j < |walls| && KnownIn(walls[i], id, n, b) && KnownIn(walls[j], id, n', b')
    requires n == n' <==> b != b'
    ensures !Bijective(walls, id)
  {
  }

  lemma {:induction false} LongerThanAll(s: set<string>) returns (n: nat)
    ensures forall x | x in s :: |x| < n
    decreases s
  {
    n := 0;
    if s != {} {
      var x :| x in s;
      var m := LongerThanAll(s - {x});
      n := Max(m, |x| + 1);
    }
  }

  function Repeat(n: nat): (s: string)
    ensures |s| == n
  {
    if n == 0 then "" else "x" + Repeat(n - 1)
  }

  /** There is always a body nobody has used. */
  lemma NewBody(rows: Rows, vs: Versions, other: string) returns (b: string)
    ensures !HeldLive(rows, b) && !Archived(vs, b) && b != other
  {
    var held, archived := set id | id in rows :: rows[id].content, set v | v in vs :: vs[v].content;
    var n := LongerThanAll(held + archived + {other});
    b := Repeat(n);
    assert b !in held + archived + {other};
  }

  function Doc(id: MemoryId, body: string): DoctrineDoc {
    DoctrineDoc(id, body, "p", "t", "0")
  }

  lemma RunSnoc(walls: seq<Wall>, ops: seq<Op>, op: Op)
    requires Run(walls, ops) && Enabled(walls[|ops|], op)
    ensures Run(walls + [Apply(walls[|ops|], op)], ops + [op])
  {
    hide Apply, Enabled;
  }

  lemma RunCons(w: Wall, op: Op, walls: seq<Wall>, ops: seq<Op>)
    requires Run(walls, ops) && Enabled(w, op) && walls[0] == Apply(w, op)
    ensures Run([w] + walls, [op] + ops)
  {
    hide Apply, Enabled;
  }

  lemma AfterUnsafeSave(w: Wall, m: Memory, embeds: bool) returns (walls: seq<Wall>, ops: seq<Op>)
    requires Inv(w, m.id) && !IdentitySafe(w, SaveOp(m, embeds), m.id)
    ensures Continues(walls, ops, w, SaveOp(m, embeds), m.id) && !Bijective(walls, m.id)
  {
    hide Bijective, HeldLive;
    var op := SaveOp(m, embeds);
    var w', vs := Apply(w, op), w.VersionsOf(m.id);
    assert KnownIn(w', m.id, m.Number(), m.content);
    if v :| v in vs && !(v == m.Number() <==> vs[v].content == m.content) {
      walls, ops := [w, w'], [op];
      assert KnownIn(w', m.id, v, vs[v].content);
      Contradict(walls, m.id, 1, v, vs[v].content, 1, m.Number(), m.content);
    } else {
      walls, ops := AfterNumberlessSave(w, m, embeds);
    }
  }

  /** A saved row without a revision is later archived past the versions that are there. */
  lemma AfterNumberlessSave(w: Wall, m: Memory, embeds: bool) returns (walls: seq<Wall>, ops: seq<Op>)
    requires SaveRefusal(w.rows, m, embeds).None? && m.revision.None?
    requires !Archived(w.VersionsOf(m.id), m.content) && MaxVersion(w.VersionsOf(m.id)) > 0
    ensures Continues(walls, ops, w, SaveOp(m, embeds), m.id) && !Bijective(walls, m.id)
  {
    hide Ingest, Bijective, HeldLive, Archived;
    var w', vs := Save(w, m, embeds).0, w.VersionsOf(m.id);
    assert w'.VersionsOf(m.id) == vs && w'.Recall(m.id).Some? && w'.rows[m.id].content == m.content;
    var b := NewBody(w'.rows, vs, m.content);
    IngestArchives(w', Doc(m.id, b));
    var w'' := Ingest(w', Doc(m.id, b), None, true).0;
    walls, ops := [w, w', w''], [SaveOp(m, embeds), IngestOp(Doc(m.id, b), None, true)];
    Contradict(walls, m.id, 1, m.Number(), m.content, 2, MaxVersion(vs) + 1, m.content);
  }

  /** Ingesting a new body archives a body that is not archived yet. */
  lemma IngestArchives(w: Wall, doc: DoctrineDoc)
    requires doc.id in w.rows && !HeldLive(w.rows, doc.content)
    requires w.rows[doc.id].content != doc.content && !Archived(w.VersionsOf(doc.id), w.rows[doc.id].content)
    ensures var live := w.rows[doc.id];
            var number := live.revision.GetOr(MaxVersion(w.VersionsOf(doc.id)) + 1);
            KnownIn(Ingest(w, doc, None, true).0, doc.id, number, live.content)
  {
    var vs, live := w.VersionsOf(doc.id), w.Recall(doc.id);
    WrittenVersions(w, doc.id, SetActiveFlags(ArchiveIfLive(vs, live), doc.content));
  }

  /** Deleting the live holders of a body one after the other. */
  lemma {:induction false} Clear(w: Wall, body: string) returns (walls: seq<Wall>, ops: seq<Op>)
    ensures Run(walls, ops) && walls[0] == w
    ensures forall op | op in ops :: op.DeleteOp? && op.deleted in w.rows
    ensures var last := walls[|ops|];
            last.archive == w.archive && last.rows.Keys <= w.rows.Keys && !HeldLive(last.rows, body)
    decreases w.rows.Keys
  {
    walls, ops := [w], [];
    if HeldLive(w.rows, body) {
      var id :| id in w.rows && LiveHolder(w.rows, body, id);
      var w' := Apply(w, DeleteOp(id));
      assert id !in w'.rows.Keys;
      var walls', ops' := Clear(w', body);
      RunCons(w, DeleteOp(id), walls', ops');
      walls, ops := [w] + walls', [DeleteOp(id)] + ops';
    }
  }

  lemma AfterUnsafeDelete(w: Wall, id: MemoryId) returns (walls: seq<Wall>, ops: seq<Op>)
    requires Inv(w, id) && !IdentitySafe(w, DeleteOp(id), id)
    ensures Continues(walls, ops, w, DeleteOp(id), id) && !Bijective(walls, id)
  {
    hide Ingest, Inv, Bijective, HeldLive, Archived;
    var vs, number, body := w.VersionsOf(id), w.rows[id].Number(), w.rows[id].content;
    var walls', ops' := Clear(Delete(w, id), body);
    var cleared := walls'[|ops'|];
    var next := MaxVersion(vs) + 1;
    var returning := body;
    if next == number {
      returning := NewBody(cleared.rows, vs, body);
    }
    NewNumber(cleared, Doc(id, returning));
    RunCons(w, DeleteOp(id), walls', ops');
    var op := IngestOp(Doc(id, returning), None, true);
    RunSnoc([w] + walls', [DeleteOp(id)] + ops', op);
    walls, ops := [w] + walls' + [Apply(cleared, op)], [DeleteOp(id)] + ops' + [op];
    assert forall k | 0 < k < |ops| - 1 :: ops[k] in ops';
    assert KnownIn(walls[0], id, number, body) && KnownIn(walls[|ops|], id, next, returning);
    Contradict(walls, id, 0, number, body, |ops|, next, returning);
  }

  /** Without a row, a body that is not archived gets the number after the largest. */
  lemma NewNumber(w: Wall, doc: DoctrineDoc)
    requires doc.id !in w.rows && !HeldLive(w.rows, doc.content) && !Archived(w.VersionsOf(doc.id), doc.content)
    ensures var number := MaxVersion(w.VersionsOf(doc.id)) + 1;
            && Ingest(w, doc, None, true).1 == Ok((doc.id, number))
            && KnownIn(Ingest(w, doc, None, true).0, doc.id, number, doc.content)
  {
  }

  // ---------- two such inputs ----------

  /** A row whose revision came with a save, and no archive. */
  function SavedAtTwo(): Wall {
    Wall(map["d" := Doc("d", "x").ToMemory(2)], map[])
  }

  /** Deleting it loses the number of "x": re-ingesting "x" gives it number 1, and ingesting
      "y" and then "z" instead gives its number to "z". */
  lemma DeleteForgetsNumber()
    ensures var w := SavedAtTwo();
            var gone := Delete(w, "d");
            var y := Ingest(gone, Doc("d", "y"), None, true).0;
            && Inv(w, "d") && !IdentitySafe(w, DeleteOp("d"), "d")
            && KnownIn(w, "d", 2, "x")
            && Ingest(gone, Doc("d", "x"), None, true).1 == Ok(("d", 1))
            && Ingest(y, Doc("d", "z"), None, true).1 == Ok(("d", 2))
  {
    var gone := Delete(SavedAtTwo(), "d");
    NewNumber(gone, Doc("d", "x"));
    NewNumber(gone, Doc("d", "y"));
    assert gone.VersionsOf("d") == map[] && MaxVersion(map[]) == 0;
    var y := Ingest(gone, Doc("d", "y"), None, true).0;
    assert !HeldLive(y.rows, "z");
    assert ArchiveOutgoing(map[], y.rows["d"]) == (map[1 := Version("y", false)], 1);
  }

  /** An archived document without a row. */
  function ArchivedOnly(): Wall {
    Wall(map[], map["d" := map[1 := Version("a", false)]])
  }

  function Unnumbered(): Memory {
    Doc("d", "b").ToMemory(0).(source := Explicit, revision := None)
  }

  /** A plain save of another body under its id goes through, and number 1 has two bodies. */
  lemma SaveReusesNumber()
    ensures var w, m := ArchivedOnly(), Unnumbered();
            && Inv(w, "d") && !IdentitySafe(w, SaveOp(m, true), "d")
            && Save(w, m, true).1 == Ok("d")
            && KnownIn(Save(w, m, true).0, "d", 1, "a") && KnownIn(Save(w, m, true).0, "d", 1, "b")
            && !Inv(Save(w, m, true).0, "d")
  {
    var w := ArchivedOnly();
    assert w.VersionsOf("d")[1].content == "a";
  }

  /** The same number and body put back are welcome. */
  lemma SaveRestores()
    ensures var w, m := ArchivedOnly(), Unnumbered().(content := "a");
            IdentitySafe(w, SaveOp(m, true), "d") && Save(w, m, true).1 == Ok("d") && Inv(Save(w, m, true).0, "d")
  {
    var w, m := ArchivedOnly(), Unnumbered().(content := "a");
    assert ArchivedAs(w.VersionsOf("d"), "a", 1);
    SaveKeepsIff(w, m);
  }
}
