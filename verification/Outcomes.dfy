/** What each write answers and what it leaves in the tables, case by case and in terms of the
    tables alone. */
module Outcomes {
  import opened Wrappers
  import opened Wall
  import opened Transitions
  import opened DoctrineIdentity

  // ---------- saves ----------

  /** A live row has this content. */
  predicate LiveBody(rows: Rows, content: string) {
    exists id | id in rows :: rows[id].supersededBy.None? && rows[id].content == content
  }

  /** Which saves go through, and why the others do not: the body is checked first, then the
      embedder and the id, then the target. A refused save leaves the wall as it was; one that
      goes through adds its row as it came and marks its target, and touches nothing else. */
  lemma SaveAnswers(w: Wall, m: Memory, embeds: bool)
    ensures var (w', r) := Save(w, m, embeds);
            var duplicate := LiveBody(w.rows, m.content);
            var failure := !duplicate && (!embeds || m.id in w.rows);
            var entered := !duplicate && !failure;
            var self := entered && m.supersedes == Some(m.id);
            var absent := entered && !self && m.supersedes.Some? && m.supersedes.value !in w.rows;
            var taken := entered && !self && m.supersedes.Some? && !absent
                         && w.rows[m.supersedes.value].supersededBy.Some?;
            && (r == Err(Duplicate) <==> duplicate || self || taken)
            && (r == Err(StoreFailure) <==> failure)
            && (r == Err(NotFound) <==> absent)
            && (r == Ok(m.id) <==> entered && !self && !absent && !taken)
            && (r.Err? ==> w' == w)
            && w'.archive == w.archive
            && (r.Ok? && m.supersedes.None? ==> w'.rows == w.rows[m.id := m])
            && (r.Ok? && m.supersedes.Some? ==>
                var target := m.supersedes.value;
                w'.rows == w.rows[m.id := m][target := w.rows[target].(supersededBy := Some(m.id))])
  {
  }

  // ---------- ingests ----------

  /** The row an ingest writes: the document's own fields, and the server's for the rest. */
  function IngestedRow(doc: DoctrineDoc, number: nat): Memory {
    Memory(id := doc.id, content := doc.content, project := doc.project, topic := doc.topic, source := Doctrine,
           importance := 1.0, supersedes := None, supersededBy := None, revision := Some(number),
           createdAt := doc.createdAt)
  }

  /** An ingest of what is live under the document's id already changes nothing. Otherwise, if
      the lookup found the body live under another id, it answers with that id, and retires the
      document's own row onto it if that is live. Otherwise it writes the document's row, or,
      refused by the embedder, leaves the document without one. */
  lemma IngestAnswers(w: Wall, doc: DoctrineDoc, answer: Option<MemoryId>, embeds: bool)
    requires IsDuplicateAnswer(w.rows, doc.content, answer)
    ensures var (w', r) := Ingest(w, doc, answer, embeds);
            var live := doc.id in w.rows && w.rows[doc.id].supersededBy.None?;
            var same := live && w.rows[doc.id].content == doc.content;
            if same then w' == w && r == Ok((doc.id, w.rows[doc.id].revision.GetOr(1)))
            else if answer.Some? && answer.value != doc.id then
              && r == Ok((answer.value, w.rows[answer.value].revision.GetOr(1)))
              && w'.archive == w.archive
              && w'.rows == (if live then w.rows[doc.id := w.rows[doc.id].(supersededBy := answer)] else w.rows)
            else if embeds then
              r.Ok? && r.value.0 == doc.id && w'.rows == w.rows[doc.id := IngestedRow(doc, r.value.1)]
            else r == Err(StoreFailure) && w'.rows == w.rows - {doc.id}
  {
  }

  /** So whatever an ingest answers, a row live under the document's id afterwards holds exactly
      the ingested body: an obsolete one never stays live. */
  lemma IngestLeavesNothingObsolete(w: Wall, doc: DoctrineDoc, answer: Option<MemoryId>, embeds: bool)
    requires IsDuplicateAnswer(w.rows, doc.content, answer)
    ensures var rows' := Ingest(w, doc, answer, embeds).0.rows;
            doc.id in rows' && rows'[doc.id].supersededBy.None? ==> rows'[doc.id].content == doc.content
  {
    IngestAnswers(w, doc, answer, embeds);
  }

  /** The archive of an ingest: other documents' untouched, and the document's own with the
      outgoing number and body added if its row was due for replacement. */
  lemma IngestArchivesOutgoing(w: Wall, doc: DoctrineDoc, answer: Option<MemoryId>, embeds: bool)
    requires Inv(w, doc.id) && IsDuplicateAnswer(w.rows, doc.content, answer)
    ensures var w' := Ingest(w, doc, answer, embeds).0;
            var due := (answer.None? || answer.value == doc.id)
                       && !(doc.id in w.rows && w.rows[doc.id].supersededBy.None?
                            && w.rows[doc.id].content == doc.content);
            && (forall id | id != doc.id :: w'.VersionsOf(id) == w.VersionsOf(id))
            && forall v: nat, b :: ArchivedAs(w'.VersionsOf(doc.id), b, v) <==>
                 || ArchivedAs(w.VersionsOf(doc.id), b, v)
                 || (due && doc.id in w.rows && v == w.rows[doc.id].revision.GetOr(1) && b == w.rows[doc.id].content)
  {
    var vs, live := w.VersionsOf(doc.id), w.Recall(doc.id);
    WrittenVersions(w, doc.id, SetActiveFlags(ArchiveIfLive(vs, live), doc.content));
    WrittenVersions(w, doc.id, ArchiveIfLive(vs, live));
    FlagsKeepBodies(ArchiveIfLive(vs, live), doc.content);
    if live.Some? {
      ArchivedPairs(vs, live.value);
    }
    hide ArchiveOutgoing, SetActiveFlags, Allocate, Inv, HeldLive;
  }

  lemma FlagsKeepBodies(vs: Versions, content: string)
    ensures forall v: nat, b :: ArchivedAs(SetActiveFlags(vs, content), b, v) <==> ArchivedAs(vs, b, v)
  {
  }

  lemma ArchivedPairs(vs: Versions, live: Memory)
    requires DocumentInv(vs, Some(live))
    ensures forall v: nat, b :: ArchivedAs(ArchiveOutgoing(vs, live).0, b, v) <==>
              ArchivedAs(vs, b, v) || (v == live.revision.GetOr(1) && b == live.content)
  {
    ArchivingKeeps(vs, live);
  }

  // ---------- rollbacks ----------

  /** A rollback succeeds exactly when the version is archived, the row is there and the
      embedder accepts; it reports not found exactly when one of the first two is missing, and
      then changes nothing. It rewrites the row's body and number only; refused by the embedder,
      it leaves all rows alone. */
  lemma RollbackAnswers(w: Wall, id: MemoryId, to: nat, embeds: bool)
    ensures var (w', r) := Rollback(w, id, to, embeds);
            var found := id in w.archive && to in w.archive[id] && id in w.rows;
            && (r == Ok(id) <==> found && embeds)
            && (r == Err(NotFound) <==> !found)
            && (r == Err(StoreFailure) <==> found && !embeds)
            && (!found ==> w' == w)
            && (found && embeds ==>
                w'.rows == w.rows[id := w.rows[id].(content := w.archive[id][to].content, revision := Some(to))])
            && (r.Err? ==> w'.rows == w.rows)
  {
  }

  /** The archive of a rollback: other documents' untouched, and the document's own with the
      outgoing number and body added if another body was asked for. */
  lemma RollbackArchivesOutgoing(w: Wall, id: MemoryId, to: nat, embeds: bool)
    requires Inv(w, id) && id in w.rows && to in w.VersionsOf(id)
    ensures var w' := Rollback(w, id, to, embeds).0;
            && (forall other | other != id :: w'.VersionsOf(other) == w.VersionsOf(other))
            && forall v: nat, b :: ArchivedAs(w'.VersionsOf(id), b, v) <==>
                 || ArchivedAs(w.VersionsOf(id), b, v)
                 || (w.rows[id].content != w.VersionsOf(id)[to].content
                     && v == w.rows[id].revision.GetOr(1) && b == w.rows[id].content)
  {
    var vs, live := w.VersionsOf(id), w.rows[id];
    var archived := if live.content != vs[to].content then ArchiveOutgoing(vs, live).0 else vs;
    WrittenVersions(w, id, SetActiveFlags(archived, vs[to].content));
    WrittenVersions(w, id, archived);
    FlagsKeepBodies(archived, vs[to].content);
    ArchivedPairs(vs, live);
    hide ArchiveOutgoing, SetActiveFlags, Inv;
  }

  // ---------- deletes ----------

  /** A delete takes away the one row and nothing else. */
  lemma DeleteLeaves(w: Wall, id: MemoryId)
    ensures Delete(w, id).archive == w.archive
    ensures forall other :: Delete(w, id).Recall(other) == if other == id then None else w.Recall(other)
  {
  }
}
