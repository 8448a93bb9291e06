/** The store's write operations on one wall, updating its tables in place. */
module SurrealStore {
  import opened Wrappers
  import opened Wall
  import opened Transitions
  import opened Sweep
  import Order

  class SurrealStore {
    var rows: Rows
    var archive: map<MemoryId, Versions>

    ghost predicate Valid()
      reads this
    {
      Keyed(rows) && forall id | id in archive :: DistinctBodies(archive[id])
    }

    ghost function Contents(): (w: Wall)
      reads this
    {
      Wall(rows, archive)
    }

    constructor ()
      ensures Valid() && rows == map[] && archive == map[]
    {
      rows, archive := map[], map[];
    }

    method RecallMemory(id: MemoryId) returns (found: Option<Memory>)
      ensures found == Contents().Recall(id)
    {
      found := if id in rows then Some(rows[id]) else None;
    }

    method CheckDuplicateLive(content: string) returns (answer: Option<MemoryId>)
      ensures IsDuplicateAnswer(rows, content, answer)
    {
      if id :| id in rows && LiveHolder(rows, content, id) {
        answer := Some(id);
      } else {
        answer := None;
      }
    }

    method DeleteMemory(id: MemoryId)
      requires Valid()
      modifies this`rows
      ensures Valid() && Contents() == Delete(old(Contents()), id)
    {
      rows := rows - {id};
    }

    /** The lifecycle sweep, which reports how many rows it removed. */
    method DeleteAgedAutocapture(cutoff: string) returns (deleted: nat)
      requires Valid()
      modifies this`rows
      ensures Valid() && rows == Swept(old(rows), cutoff)
      ensures forall id | id in rows :: id in old(rows) && rows[id] == old(rows)[id]
      ensures forall id | id in old(rows) ::
                var m := old(rows)[id];
                id !in rows <==> m.source == AutoCapture && m.createdAt != "" && Order.Less(m.createdAt, cutoff)
      ensures deleted == |old(rows)| - |rows|
    {
      var aged := set id | id in rows && Aged(rows[id], cutoff);
      var swept := Swept(rows, cutoff);
      assert rows.Keys == swept.Keys + aged;
      deleted := |aged|;
      rows := swept;
    }

    /** The conditional update: only a row that is still unclaimed can be linked. */
    method ClaimTarget(target: MemoryId, successor: MemoryId) returns (claimed: bool)
      requires Valid()
      modifies this`rows
      ensures Valid()
      ensures claimed == Claimable(old(rows), target)
      ensures rows == if claimed then LinkTo(old(rows), target, successor) else old(rows)
    {
      claimed := target in rows && rows[target].supersededBy.None?;
      if claimed {
        rows := rows[target := rows[target].(supersededBy := Some(successor))];
      }
    }

    /** Insert first, claim the target second, and undo the insert when the claim fails. */
    method StoreMemory(m: Memory, embeds: bool) returns (r: Result<MemoryId>)
      requires Valid()
      modifies this`rows
      ensures Valid()
      ensures (Contents(), r) == Save(old(Contents()), m, embeds)
    {
      var existing := CheckDuplicateLive(m.content);
      if existing.Some? {
        return Err(Duplicate);
      }
      if !embeds || m.id in rows {
        return Err(StoreFailure);
      }
      rows := rows[m.id := m];
      if m.supersedes.Some? {
        var target := m.supersedes.value;
        var link: Result<()> := Ok(());
        if target == m.id {
          link := Err(Duplicate);
        } else {
          var claimed := ClaimTarget(target, m.id);
          if !claimed {
            var present := RecallMemory(target);
            link := Err(if present.None? then NotFound else Duplicate);
          }
        }
        if link.Err? {
          DeleteMemory(m.id);
          assert rows == old(rows);
          return Err(link.error);
        }
      }
      return Ok(m.id);
    }

    /** The unconditional link the doctrine dedup path uses to retire a stale row. */
    method MarkSuperseded(target: MemoryId, successor: MemoryId)
      requires Valid()
      modifies this`rows
      ensures Valid() && rows == LinkTo(old(rows), target, successor)
    {
      if target in rows {
        rows := rows[target := rows[target].(supersededBy := Some(successor))];
      }
    }

    method SelectVersions(id: MemoryId) returns (vs: Versions)
      ensures vs == Contents().VersionsOf(id)
    {
      vs := if id in archive then archive[id] else map[];
    }

    method WriteVersions(id: MemoryId, vs: Versions)
      requires Valid() && DistinctBodies(vs)
      modifies this`archive
      ensures Valid() && archive == WithVersions(old(Contents()), id, vs)
    {
      var current := SelectVersions(id);
      if vs != current {
        archive := archive[id := vs];
      }
    }

    method ComputeMaxVersion(vs: Versions) returns (max: nat)
      ensures max == MaxVersion(vs)
    {
      max := 0;
      var left := vs.Keys;
      while left != {}
        invariant left <= vs.Keys
        invariant forall v | v in vs && v !in left :: v <= max
        invariant max in vs || (max == 0 && left == vs.Keys)
        decreases left
      {
        var v :| v in left;
        left := left - {v};
        max := if max in vs && max >= v then max else v;
      }
      assert vs.Keys == {} ==> vs == map[];
      assert IsMaxVersion(vs, max) && IsMaxVersion(vs, MaxVersion(vs));
    }

    method FindVersion(vs: Versions, content: string) returns (found: Option<nat>)
      requires DistinctBodies(vs)
      ensures found == if Archived(vs, content) then Some(VersionHolding(vs, content)) else None
    {
      if v :| v in vs && ArchivedAs(vs, content, v) {
        found := Some(v);
      } else {
        found := None;
      }
    }

    method ArchiveOutgoingBody(id: MemoryId, live: Option<Memory>) returns (out: Option<nat>)
      requires Valid()
      modifies this`archive
      ensures Valid()
      ensures live.None? ==> out.None? && archive == old(archive)
      ensures live.Some? ==>
        var (vs, number) := ArchiveOutgoing(old(Contents()).VersionsOf(id), live.value);
        out == Some(number) && archive == WithVersions(old(Contents()), id, vs)
    {
      if live.None? {
        return None;
      }
      var vs := SelectVersions(id);
      var prior := FindVersion(vs, live.value.content);
      if prior.Some? {
        return prior;
      }
      var max := ComputeMaxVersion(vs);
      var number := live.value.revision.GetOr(max + 1);
      WriteVersions(id, vs[number := Version(live.value.content, false)]);
      return Some(number);
    }

    method UpdateActiveFlags(id: MemoryId, liveContent: string)
      requires Valid()
      modifies this`archive
      ensures Valid()
      ensures archive == WithVersions(old(Contents()), id, SetActiveFlags(old(Contents()).VersionsOf(id), liveContent))
    {
      var vs := SelectVersions(id);
      WriteVersions(id, SetActiveFlags(vs, liveContent));
    }

    /** The allocation half of an ingest: archive the outgoing body and number the new one. */
    method AllocateRevision(doc: DoctrineDoc, live: Option<Memory>) returns (number: nat)
      requires Valid() && live == Contents().Recall(doc.id)
      modifies this`archive
      ensures Valid()
      ensures var vs := old(Contents()).VersionsOf(doc.id);
              number == Allocate(vs, live, doc.content) &&
              archive == WithVersions(old(Contents()), doc.id, ArchiveIfLive(vs, live))
    {
      var vs := SelectVersions(doc.id);
      var max := ComputeMaxVersion(vs);
      var out := ArchiveOutgoingBody(doc.id, live);
      var prior := FindVersion(vs, doc.content);
      if live.Some? && live.value.content == doc.content {
        number := out.GetOr(max + 1);
      } else if prior.Some? {
        number := prior.value;
      } else {
        var liveNumber := if live.Some? then live.value.revision.GetOr(0) else 0;
        number := Max(Max(max, liveNumber), out.GetOr(0)) + 1;
      }
    }

    /** The commit half: replace the row through the ordinary save, which checks for a live
        duplicate and a taken key all over again. */
    method ReplaceLive(doc: DoctrineDoc, number: nat, embeds: bool) returns (stored: Result<MemoryId>)
      requires Valid()
      requires !HeldLive(rows, doc.content)
      modifies this
      ensures Valid()
      ensures stored == if embeds then Ok(doc.id) else Err(StoreFailure)
      ensures embeds ==>
        rows == old(rows)[doc.id := doc.ToMemory(number)] &&
        archive == WithVersions(old(Contents()), doc.id,
                                SetActiveFlags(old(Contents()).VersionsOf(doc.id), doc.content))
      ensures !embeds ==> rows == old(rows) - {doc.id} && archive == old(archive)
    {
      DeleteMemory(doc.id);
      assert forall id | id in rows :: !LiveHolder(old(rows), doc.content, id);
      stored := StoreMemory(doc.ToMemory(number), embeds);
      if stored.Ok? {
        UpdateActiveFlags(doc.id, doc.content);
      }
    }

    /** Dedup, archive the outgoing body, allocate the incoming number, replace the row,
        recompute the flags. `answer` is what the dedup lookup saw. */
    method CommitDoctrineIngest(doc: DoctrineDoc, embeds: bool)
      returns (r: Result<(MemoryId, nat)>, ghost answer: Option<MemoryId>)
      requires Valid()
      modifies this
      ensures Valid()
      ensures IsDuplicateAnswer(old(rows), doc.content, answer)
      ensures (Contents(), r) == Ingest(old(Contents()), doc, answer, embeds)
    {
      var live := RecallMemory(doc.id);
      var existing := CheckDuplicateLive(doc.content);
      answer := existing;
      if live.Some? && live.value.content == doc.content && live.value.supersededBy.None? {
        return Ok((doc.id, live.value.revision.GetOr(1))), answer;
      }
      if existing.Some? && existing.value != doc.id {
        var canonical := RecallMemory(existing.value);
        if live.Some? && live.value.supersededBy.None? && live.value.content != doc.content {
          MarkSuperseded(doc.id, existing.value);
        }
        return Ok((existing.value, canonical.value.revision.GetOr(1))), answer;
      }
      var number := AllocateRevision(doc, live);
      ghost var archived := Contents();
      var stored := ReplaceLive(doc, number, embeds);
      r := if stored.Err? then Err(stored.error) else Ok((doc.id, number));
      if stored.Ok? && live.Some? {
        WriteTwice(old(Contents()), archived, live.value, doc.id, doc.content);
      }
    }

    method ActivateDoctrineVersion(id: MemoryId, to: nat, embeds: bool) returns (r: Result<MemoryId>)
      requires Valid()
      modifies this
      ensures Valid()
      ensures (Contents(), r) == Rollback(old(Contents()), id, to, embeds)
    {
      var vs := SelectVersions(id);
      if to !in vs || id !in rows {
        return Err(NotFound);
      }
      var live, content := rows[id], vs[to].content;
      if live.content != content {
        var _ := ArchiveOutgoingBody(id, Some(live));
        WriteTwice(old(Contents()), Contents(), live, id, content);
      }
      if !embeds {
        return Err(StoreFailure);
      }
      rows := rows[id := live.(content := content, revision := Some(to))];
      UpdateActiveFlags(id, content);
      return Ok(id);
    }
  }
}
