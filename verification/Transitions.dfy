/** What each store operation does to a wall, as a function of the wall before it.
    `SurrealStore` implements these step by step; everything proved about histories of
    operations is proved about these functions. */
module Transitions {
  import opened Wrappers
  import opened Wall

  /** What the ingest endpoint accepts: the server fills in every other field of the row. */
  datatype DoctrineDoc = DoctrineDoc(id: MemoryId, content: string, project: string, topic: string, createdAt: string) {
    function ToMemory(revision: nat): Memory {
      Memory(id, content, project, topic, Doctrine, 1.0, None, None, Some(revision), createdAt)
    }
  }

  // ---------- plain saves, deletes and links ----------

  predicate Claimable(rows: Rows, target: MemoryId) {
    target in rows && rows[target].supersededBy.None?
  }

  function LinkTo(rows: Rows, target: MemoryId, successor: MemoryId): Rows {
    if target in rows then rows[target := rows[target].(supersededBy := Some(successor))] else rows
  }

  /** Why a save is refused, if it is; `embeds` says whether the embedder accepted the body. */
  function SaveRefusal(rows: Rows, m: Memory, embeds: bool): Option<Error> {
    if HeldLive(rows, m.content) then Some(Duplicate)
    else if !embeds || m.id in rows then Some(StoreFailure)
    else if m.supersedes.None? then None
    else if m.supersedes.value == m.id then Some(Duplicate)
    else if m.supersedes.value !in rows then Some(NotFound)
    else if rows[m.supersedes.value].supersededBy.Some? then Some(Duplicate)
    else None
  }

  /** A save either inserts the row and links its target, or leaves the wall alone. */
  function Save(w: Wall, m: Memory, embeds: bool): (Wall, Result<MemoryId>) {
    match SaveRefusal(w.rows, m, embeds)
    case Some(e) => (w, Err(e))
    case None =>
      var inserted := w.rows[m.id := m];
      (w.(rows := if m.supersedes.None? then inserted else LinkTo(inserted, m.supersedes.value, m.id)), Ok(m.id))
  }

  function Delete(w: Wall, id: MemoryId): Wall {
    w.(rows := w.rows - {id})
  }

  // ---------- doctrine versioning ----------

  /** Archive an outgoing body under the number it went live with, unless it is archived
      already. Returns the archive and the number the body is kept under. */
  ghost function ArchiveOutgoing(vs: Versions, live: Memory): (Versions, nat) {
    if Archived(vs, live.content) then (vs, VersionHolding(vs, live.content))
    else
      var number := live.revision.GetOr(MaxVersion(vs) + 1);
      (vs[number := Version(live.content, false)], number)
  }

  ghost function ArchiveIfLive(vs: Versions, live: Option<Memory>): Versions {
    if live.Some? then ArchiveOutgoing(vs, live.value).0 else vs
  }

  function SetActiveFlags(vs: Versions, liveContent: string): Versions {
    map v | v in vs :: vs[v].(active := vs[v].content == liveContent)
  }

  lemma WrittenVersions(w: Wall, id: MemoryId, vs: Versions)
    ensures forall rows :: Wall(rows, WithVersions(w, id, vs)).VersionsOf(id) == vs
    ensures forall rows, i | i != id :: Wall(rows, WithVersions(w, id, vs)).VersionsOf(i) == w.VersionsOf(i)
  {
  }

  /** Writing a document's versions twice is writing them once. */
  lemma WriteTwice(w: Wall, w': Wall, live: Memory, id: MemoryId, content: string)
    requires w'.archive == WithVersions(w, id, ArchiveOutgoing(w.VersionsOf(id), live).0)
    ensures var flagged := SetActiveFlags(w'.VersionsOf(id), content);
            WithVersions(w', id, flagged) == WithVersions(w, id, flagged)
  {
    var vs := w.VersionsOf(id);
    var archived, number := ArchiveOutgoing(vs, live).0, ArchiveOutgoing(vs, live).1;
    var flagged := SetActiveFlags(archived, content);
    if archived != vs {
      assert flagged[number].content == live.content;
      assert number in vs ==> !ArchivedAs(vs, live.content, number);
      assert flagged != vs;
    }
  }

  function Max(a: nat, b: nat): nat {
    if a >= b then a else b
  }

  /** The archive with one document's versions replaced. */
  function WithVersions(w: Wall, id: MemoryId, vs: Versions): map<MemoryId, Versions> {
    if vs == w.VersionsOf(id) then w.archive else w.archive[id := vs]
  }

  /** The number an incoming body is given: its own if it has been live before, and
      otherwise one above every number seen. */
  ghost function Allocate(vs: Versions, live: Option<Memory>, content: string): nat {
    var out := if live.Some? then ArchiveOutgoing(vs, live.value).1 else 0;
    if live.Some? && live.value.content == content then out
    else if Archived(vs, content) then VersionHolding(vs, content)
    else
      var liveNumber := if live.Some? then live.value.revision.GetOr(0) else 0;
      Max(Max(MaxVersion(vs), liveNumber), out) + 1
  }

  /** The content is live at this id already. */
  predicate Unchanged(w: Wall, doc: DoctrineDoc) {
    LiveHolder(w.rows, doc.content, doc.id)
  }

  /** The content is live under another id, which the ingest then reports as canonical. */
  predicate Elsewhere(doc: DoctrineDoc, answer: Option<MemoryId>) {
    answer.Some? && answer.value != doc.id
  }

  /** The ingest goes on to archive, allocate and replace. */
  predicate Replaces(w: Wall, doc: DoctrineDoc, answer: Option<MemoryId>) {
    !Unchanged(w, doc) && !Elsewhere(doc, answer)
  }

  /** A doctrine ingest; `answer` is what the dedup lookup returned. */
  ghost function Ingest(w: Wall, doc: DoctrineDoc, answer: Option<MemoryId>, embeds: bool)
    : (Wall, Result<(MemoryId, nat)>)
    requires IsDuplicateAnswer(w.rows, doc.content, answer)
  {
    if Unchanged(w, doc) then (w, Ok((doc.id, w.rows[doc.id].Number())))
    else if Elsewhere(doc, answer) then
      var retires := doc.id in w.rows && w.rows[doc.id].Live();
      (w.(rows := if retires then LinkTo(w.rows, doc.id, answer.value) else w.rows),
       Ok((answer.value, w.rows[answer.value].Number())))
    else
      var vs, live := w.VersionsOf(doc.id), w.Recall(doc.id);
      var archived, number := ArchiveIfLive(vs, live), Allocate(vs, live, doc.content);
      if !embeds then (Wall(w.rows - {doc.id}, WithVersions(w, doc.id, archived)), Err(StoreFailure))
      else
        (Wall(w.rows[doc.id := doc.ToMemory(number)], WithVersions(w, doc.id, SetActiveFlags(archived, doc.content))),
         Ok((doc.id, number)))
  }

  /** A rollback of document `id` to archived version `to`. */
  ghost function Rollback(w: Wall, id: MemoryId, to: nat, embeds: bool): (Wall, Result<MemoryId>) {
    var vs := w.VersionsOf(id);
    if to !in vs || id !in w.rows then (w, Err(NotFound))
    else
      var live, content := w.rows[id], vs[to].content;
      var archived := if live.content != content then ArchiveOutgoing(vs, live).0 else vs;
      if !embeds then (w.(archive := WithVersions(w, id, archived)), Err(StoreFailure))
      else
        (Wall(w.rows[id := live.(content := content, revision := Some(to))],
              WithVersions(w, id, SetActiveFlags(archived, content))),
         Ok(id))
  }

  // ---------- histories ----------

  datatype Op =
    | IngestOp(doc: DoctrineDoc, answer: Option<MemoryId>, ingestEmbeds: bool)
    | RollbackOp(id: MemoryId, to: nat, rollbackEmbeds: bool)
    | SaveOp(memory: Memory, saveEmbeds: bool)
    | DeleteOp(deleted: MemoryId)

  ghost predicate Enabled(w: Wall, op: Op) {
    op.IngestOp? ==> IsDuplicateAnswer(w.rows, op.doc.content, op.answer)
  }

  ghost function Apply(w: Wall, op: Op): Wall
    requires Enabled(w, op)
  {
    match op
    case IngestOp(doc, answer, embeds) => Ingest(w, doc, answer, embeds).0
    case RollbackOp(id, to, embeds) => Rollback(w, id, to, embeds).0
    case SaveOp(m, embeds) => Save(w, m, embeds).0
    case DeleteOp(id) => Delete(w, id)
  }

  /** A serial run: each wall is the previous one with the next operation applied. */
  ghost predicate Run(walls: seq<Wall>, ops: seq<Op>) {
    && |walls| == |ops| + 1
    && forall i | 0 <= i < |ops| :: Enabled(walls[i], ops[i]) && walls[i + 1] == Apply(walls[i], ops[i])
  }
}
