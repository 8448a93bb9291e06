/** The graph of `superseded_by` links: acyclic over any serial mix of operations, and,
    while no row is removed, leading from every row to exactly one live row. */
module SupersedeGraph {
  import opened Wrappers
  import opened Wall
  import opened Transitions

  // ---------- paths and cycles ----------

  /** `superseded_by` as a partial function on ids; targets may be missing rows. */
  type Links = map<MemoryId, MemoryId>

  function LinksOf(rows: Rows): Links {
    map id | id in rows && rows[id].supersededBy.Some? :: rows[id].supersededBy.value
  }

  ghost predicate IsPath(g: Links, p: seq<MemoryId>) {
    |p| > 0 && forall i | 0 <= i < |p| - 1 :: p[i] in g && g[p[i]] == p[i + 1]
  }

  ghost predicate IsCycle(g: Links, p: seq<MemoryId>) {
    |p| > 1 && IsPath(g, p) && p[0] == p[|p| - 1]
  }

  ghost predicate Acyclic(g: Links) {
    forall p :: !IsCycle(g, p)
  }

  /** Following links from `u` arrives at `v`, possibly at once. */
  ghost predicate Reaches(g: Links, u: MemoryId, v: MemoryId) {
    exists p :: IsPath(g, p) && p[0] == u && p[|p| - 1] == v
  }

  lemma FewerLinksStayAcyclic(g: Links, g': Links)
    requires Acyclic(g) && forall u | u in g' :: u in g && g[u] == g'[u]
    ensures Acyclic(g')
  {
    forall p ensures !IsCycle(g', p) {
      assert IsCycle(g', p) ==> IsCycle(g, p);
    }
  }

  /** Linking to a row that is itself unclaimed closes no cycle. */
  lemma LinkToSinkStaysAcyclic(g: Links, u: MemoryId, v: MemoryId)
    requires Acyclic(g) && v !in g && u != v
    ensures Acyclic(g[u := v])
  {
    var g' := g[u := v];
    forall p ensures !IsCycle(g', p) {
      if IsCycle(g', p) {
        forall i | 0 <= i < |p| - 1
          ensures p[i] in g && g[p[i]] == p[i + 1]
        {
          assert p[i + 1] in g' by {
            if i + 1 == |p| - 1 {
              assert p[i + 1] == p[0];
            }
          }
        }
        assert IsCycle(g, p);
      }
    }
  }

  /** The part of a path up to its first visit of `u`. */
  lemma {:induction false} UpToFirst(g: Links, p: seq<MemoryId>, u: MemoryId) returns (q: seq<MemoryId>)
    requires IsPath(g, p) && p[|p| - 1] == u
    ensures IsPath(g, q) && q[0] == p[0] && q[|q| - 1] == u
    ensures u !in q[..|q| - 1]
    decreases |p|
  {
    if u in p[..|p| - 1] {
      var k :| 0 <= k < |p| - 1 && p[k] == u;
      q := UpToFirst(g, p[..k + 1], u);
    } else {
      q := p;
    }
  }

  /** A path that never leaves `u` does not use a link out of `u`. */
  lemma PathAvoiding(g: Links, u: MemoryId, v: MemoryId, p: seq<MemoryId>)
    requires IsPath(g[u := v], p) && u !in p[..|p| - 1]
    ensures IsPath(g, p)
  {
    forall i | 0 <= i < |p| - 1
      ensures p[i] in g && g[p[i]] == p[i + 1]
    {
      assert p[i] in p[..|p| - 1];
    }
  }

  /** A path back to `u` after the link out of `u` shortens to one that does without it. */
  lemma ReachesWithout(g: Links, u: MemoryId, v: MemoryId, p: seq<MemoryId>)
    requires IsPath(g[u := v], p) && p[|p| - 1] == u
    ensures Reaches(g, p[0], u)
  {
    var q := UpToFirst(g[u := v], p, u);
    PathAvoiding(g, u, v, q);
  }

  /** Going round a cycle from just after one of its links. */
  lemma RotateCycle(g: Links, p: seq<MemoryId>, i: nat) returns (q: seq<MemoryId>)
    requires IsCycle(g, p) && i < |p| - 1
    ensures IsPath(g, q) && q[0] == p[i + 1] && q[|q| - 1] == p[i]
  {
    q := p[i + 1..] + p[1..i + 1];
    var turn := |p| - 1 - i;
    assert q[|q| - 1] == p[i] by {
      assert i == 0 ==> p[i] == p[|p| - 1];
    }
    forall k | 0 <= k < |q| - 1
      ensures q[k] in g && g[q[k]] == q[k + 1]
    {
      var at := if k < turn then i + 1 + k else k - turn + 1;
      assert q[k] == p[at];
      if k == turn - 1 {
        assert q[k] == p[0] && q[k + 1] == p[1];
      } else {
        assert q[k + 1] == p[at + 1];
      }
    }
  }

  /** In general writing a link, over an old one or not, closes a cycle exactly when the
      new target already leads back to the row. */
  lemma LinkStaysAcyclicIff(g: Links, u: MemoryId, v: MemoryId)
    requires Acyclic(g)
    ensures Acyclic(g[u := v]) <==> !Reaches(g, v, u)
  {
    var g' := g[u := v];
    if Reaches(g, v, u) {
      var p :| IsPath(g, p) && p[0] == v && p[|p| - 1] == u;
      var q := UpToFirst(g, p, u);
      assert forall i | 0 <= i < |q| - 1 :: q[i] in q[..|q| - 1];
      assert IsCycle(g', q + [v]);
    } else {
      forall p ensures !IsCycle(g', p) {
        if IsCycle(g', p) {
          if i :| 0 <= i < |p| - 1 && p[i] == u {
            var back := RotateCycle(g', p, i);
            ReachesWithout(g, u, v, back);
          } else {
            PathAvoiding(g, u, v, p);
            assert IsCycle(g, p);
          }
        }
      }
    }
  }

  lemma ReachesAlong(g: Links, p: seq<MemoryId>, i: nat)
    requires IsPath(g, p) && i < |p|
    ensures Reaches(g, p[0], p[i])
  {
    assert IsPath(g, p[..i + 1]);
  }

  /** A row with a fresh link reaches whatever its target reached before ... */
  lemma FreshLinkReaches(g: Links, u: MemoryId, v: MemoryId, t: MemoryId)
    requires !Reaches(g, v, u) && Reaches(g, v, t)
    ensures Reaches(g[u := v], u, t)
  {
    var p :| IsPath(g, p) && p[0] == v && p[|p| - 1] == t;
    forall i | 0 <= i < |p| ensures p[i] != u {
      ReachesAlong(g, p, i);
    }
    var q := [u] + p;
    assert forall i | 0 < i < |q| :: q[i] == p[i - 1];
    assert IsPath(g[u := v], q);
  }

  /** ... and nothing else. */
  lemma FreshLinkReachesOnly(g: Links, u: MemoryId, v: MemoryId, t: MemoryId)
    requires u != t && !Reaches(g, v, u) && Reaches(g[u := v], u, t)
    ensures Reaches(g, v, t)
  {
    var p :| IsPath(g[u := v], p) && p[0] == u && p[|p| - 1] == t;
    var tail := p[1..];
    assert IsPath(g[u := v], tail) && tail[0] == v;
    if k :| 0 <= k < |tail| - 1 && tail[k] == u {
      ReachesWithout(g, u, v, tail[..k + 1]);
    } else {
      PathAvoiding(g, u, v, tail);
    }
  }

  // ---------- serial runs ----------

  /** `superseded_by` is written by the server only. */
  predicate ServerOwnsLink(op: Op) {
    op.SaveOp? ==> op.memory.supersededBy.None?
  }

  /** What a save does to the links. */
  lemma SaveLinks(w: Wall, m: Memory, embeds: bool)
    requires SaveRefusal(w.rows, m, embeds).None?
    ensures var g := LinksOf(w.rows);
            var own := if m.supersededBy.Some? then g[m.id := m.supersededBy.value] else g;
            LinksOf(Save(w, m, embeds).0.rows) == if m.supersedes.Some? then own[m.supersedes.value := m.id] else own
  {
  }

  lemma SaveKeepsAcyclic(w: Wall, m: Memory, embeds: bool)
    requires Acyclic(LinksOf(w.rows)) && m.supersededBy.None?
    ensures Acyclic(LinksOf(Save(w, m, embeds).0.rows))
  {
    if SaveRefusal(w.rows, m, embeds).None? {
      SaveLinks(w, m, embeds);
      if m.supersedes.Some? {
        LinkToSinkStaysAcyclic(LinksOf(w.rows), m.supersedes.value, m.id);
      }
    }
  }

  lemma IngestKeepsAcyclic(w: Wall, doc: DoctrineDoc, answer: Option<MemoryId>, embeds: bool)
    requires Acyclic(LinksOf(w.rows)) && IsDuplicateAnswer(w.rows, doc.content, answer)
    ensures Acyclic(LinksOf(Ingest(w, doc, answer, embeds).0.rows))
  {
    var g, g' := LinksOf(w.rows), LinksOf(Ingest(w, doc, answer, embeds).0.rows);
    if !Unchanged(w, doc) && Elsewhere(doc, answer) && doc.id in w.rows && w.rows[doc.id].Live() {
      LinkToSinkStaysAcyclic(g, doc.id, answer.value);
      assert g' == g[doc.id := answer.value];
    } else {
      FewerLinksStayAcyclic(g, g');
    }
  }

  /** Saves, ingests, retirements, un-retirements, rollbacks and deletes, with or without
      dangling links, all keep the graph acyclic. */
  lemma StepKeepsAcyclic(w: Wall, op: Op)
    requires Acyclic(LinksOf(w.rows)) && Enabled(w, op) && ServerOwnsLink(op)
    ensures Acyclic(LinksOf(Apply(w, op).rows))
  {
    match op
    case SaveOp(m, embeds) => SaveKeepsAcyclic(w, m, embeds);
    case IngestOp(doc, answer, embeds) => IngestKeepsAcyclic(w, doc, answer, embeds);
    case RollbackOp(id, to, embeds) =>
      FewerLinksStayAcyclic(LinksOf(w.rows), LinksOf(Rollback(w, id, to, embeds).0.rows));
    case DeleteOp(id) => FewerLinksStayAcyclic(LinksOf(w.rows), LinksOf(Delete(w, id).rows));
  }

  lemma {:induction false} SerialRunsStayAcyclic(walls: seq<Wall>, ops: seq<Op>, i: nat)
    requires Run(walls, ops) && Acyclic(LinksOf(walls[0].rows)) && i < |walls|
    requires forall op | op in ops :: ServerOwnsLink(op)
    ensures Acyclic(LinksOf(walls[i].rows))
  {
    if i > 0 {
      SerialRunsStayAcyclic(walls, ops, i - 1);
      assert ops[i - 1] in ops;
      StepKeepsAcyclic(walls[i - 1], ops[i - 1]);
    }
  }

  /** A save copies whatever `superseded_by` arrives with it. The graph then stays acyclic
      exactly when the incoming link leads neither to the new id nor to the save's target. */
  lemma SaveWithIncomingLinkIff(w: Wall, m: Memory)
    requires Acyclic(LinksOf(w.rows)) && SaveRefusal(w.rows, m, true).None? && m.supersededBy.Some?
    ensures Acyclic(LinksOf(Save(w, m, true).0.rows)) <==>
            var g := LinksOf(w.rows);
            !Reaches(g, m.supersededBy.value, m.id)
            && (m.supersedes.Some? ==> !Reaches(g, m.supersededBy.value, m.supersedes.value))
  {
    var g, v := LinksOf(w.rows), m.supersededBy.value;
    var g' := g[m.id := v];
    SaveLinks(w, m, true);
    LinkStaysAcyclicIff(g, m.id, v);
    if m.supersedes.Some? {
      var target := m.supersedes.value;
      TwoLinksIff(g, m.id, v, target);
    }
  }

  /** Linking a fresh `u` to `v` and then an unclaimed `t` to `u`. */
  lemma TwoLinksIff(g: Links, u: MemoryId, v: MemoryId, t: MemoryId)
    requires Acyclic(g) && t !in g && u != t
    ensures Acyclic(g[u := v][t := u]) <==> !Reaches(g, v, u) && !Reaches(g, v, t)
  {
    var g' := g[u := v];
    LinkStaysAcyclicIff(g, u, v);
    if Acyclic(g') {
      LinkStaysAcyclicIff(g', t, u);
      if Reaches(g, v, t) {
        FreshLinkReaches(g, u, v, t);
      } else if Reaches(g', u, t) {
        FreshLinkReachesOnly(g, u, v, t);
      }
    } else if Acyclic(g'[t := u]) {
      FewerLinksStayAcyclic(g'[t := u], g');
    }
  }

  /** Brings in no link that leads to the new row or to the row it claims. */
  ghost predicate LinkSafe(w: Wall, op: Op) {
    op.SaveOp? && SaveRefusal(w.rows, op.memory, op.saveEmbeds).None? && op.memory.supersededBy.Some? ==>
      var g, m := LinksOf(w.rows), op.memory;
      && !Reaches(g, m.supersededBy.value, m.id)
      && (m.supersedes.Some? ==> !Reaches(g, m.supersededBy.value, m.supersedes.value))
  }

  lemma StepKeepsAcyclicIff(w: Wall, op: Op)
    requires Acyclic(LinksOf(w.rows)) && Enabled(w, op)
    ensures Acyclic(LinksOf(Apply(w, op).rows)) <==> LinkSafe(w, op)
  {
    hide Acyclic, Reaches, LinksOf, Ingest, Rollback;
    if op.SaveOp? && SaveRefusal(w.rows, op.memory, op.saveEmbeds).None? && op.memory.supersededBy.Some? {
      SaveWithIncomingLinkIff(w, op.memory);
    } else if op.SaveOp? && SaveRefusal(w.rows, op.memory, op.saveEmbeds).Some? {
      assert Apply(w, op) == w;
    } else {
      StepKeepsAcyclic(w, op);
    }
  }

  /** Whatever links clients send, a serial run stays acyclic throughout exactly when each of
      its saves is safe in this sense; ingests, rollbacks and deletes always are. */
  lemma {:induction false} RunKeepsAcyclicIff(walls: seq<Wall>, ops: seq<Op>)
    requires Run(walls, ops) && Acyclic(LinksOf(walls[0].rows))
    ensures (forall i | 0 <= i < |walls| :: Acyclic(LinksOf(walls[i].rows)))
            <==> (forall i | 0 <= i < |ops| :: LinkSafe(walls[i], ops[i]))
    decreases |ops|
  {
    hide Acyclic, LinksOf, LinkSafe, Apply, Enabled;
    if ops != [] {
      var n := |ops| - 1;
      var walls', ops' := walls[..n + 1], ops[..n];
      RunKeepsAcyclicIff(walls', ops');
      assert forall i | 0 <= i < |walls| :: i < |walls'| ==> walls[i] == walls'[i];
      assert forall i | 0 <= i < n :: LinkSafe(walls[i], ops[i]) == LinkSafe(walls'[i], ops'[i]);
      if Acyclic(LinksOf(walls[n].rows)) {
        StepKeepsAcyclicIff(walls[n], ops[n]);
        assert walls[n + 1] == Apply(walls[n], ops[n]);
      }
    }
  }

  // ---------- chains and their heads ----------

  /** Every link points at a row that is there. */
  predicate NoDangling(rows: Rows) {
    forall id | id in rows && rows[id].supersededBy.Some? :: rows[id].supersededBy.value in rows
  }

  /** Removes no row: no delete of a row that is there, and no ingest the embedder cuts short
      when it was replacing one. */
  predicate Preserving(w: Wall, op: Op) {
    match op
    case DeleteOp(id) => id !in w.rows
    case IngestOp(doc, answer, embeds) => embeds || doc.id !in w.rows || !Replaces(w, doc, answer)
    case _ => true
  }

  lemma StepRemovesNoRowIff(w: Wall, op: Op)
    requires Enabled(w, op)
    ensures w.rows.Keys <= Apply(w, op).rows.Keys <==> Preserving(w, op)
  {
    var rows' := Apply(w, op).rows;
    if op.DeleteOp? && op.deleted in w.rows {
      assert op.deleted !in rows'.Keys;
    } else if op.IngestOp? && !Preserving(w, op) {
      assert op.doc.id !in rows'.Keys;
    }
  }

  lemma StepNeverDangles(w: Wall, op: Op)
    requires NoDangling(w.rows) && Enabled(w, op) && ServerOwnsLink(op) && Preserving(w, op)
    ensures NoDangling(Apply(w, op).rows) && w.rows.Keys <= Apply(w, op).rows.Keys
  {
    StepRemovesNoRowIff(w, op);
    var rows' := Apply(w, op).rows;
    assert forall id | id in w.rows :: id in rows';
  }

  lemma {:induction false} RunsRemovingNoRowNeverDangle(walls: seq<Wall>, ops: seq<Op>, i: nat)
    requires Run(walls, ops) && NoDangling(walls[0].rows) && i < |walls|
    requires forall k | 0 <= k < |ops| :: ServerOwnsLink(ops[k]) && Preserving(walls[k], ops[k])
    ensures NoDangling(walls[i].rows) && walls[0].rows.Keys <= walls[i].rows.Keys
  {
    if i > 0 {
      RunsRemovingNoRowNeverDangle(walls, ops, i - 1);
      StepNeverDangles(walls[i - 1], ops[i - 1]);
    }
  }

  ghost predicate LeadsTo(rows: Rows, id: MemoryId, p: seq<MemoryId>) {
    IsPath(LinksOf(rows), p) && p[0] == id && p[|p| - 1] in rows && rows[p[|p| - 1]].Live()
  }

  /** Extend a path until it ends in a live row; acyclicity means every row it visits is
      new, so it ends. */
  lemma {:induction false} ExtendToHead(rows: Rows, p: seq<MemoryId>, visited: set<MemoryId>) returns (q: seq<MemoryId>)
    requires Acyclic(LinksOf(rows)) && NoDangling(rows)
    requires IsPath(LinksOf(rows), p) && p[|p| - 1] in rows
    requires forall u :: u in visited <==> u in p[..|p| - 1]
    requires visited <= rows.Keys
    ensures LeadsTo(rows, p[0], q)
    decreases rows.Keys - visited
  {
    var last := p[|p| - 1];
    if rows[last].Live() {
      q := p;
    } else {
      if last in visited {
        var k :| 0 <= k < |p| - 1 && p[k] == last;
        assert IsCycle(LinksOf(rows), p[k..]);
        assert false;
      }
      var p' := p + [rows[last].supersededBy.value];
      assert p'[..|p'| - 1] == p == p[..|p| - 1] + [last];
      q := ExtendToHead(rows, p', visited + {last});
    }
  }

  /** A chain is determined by where it starts and by ending in a live row. */
  lemma ChainsAreUnique(rows: Rows, id: MemoryId, p: seq<MemoryId>, q: seq<MemoryId>)
    requires LeadsTo(rows, id, p) && LeadsTo(rows, id, q)
    ensures p == q
    decreases |p|
  {
    var g := LinksOf(rows);
    assert |p| > 1 <==> id in g;
    assert |q| > 1 <==> id in g;
    if id in g {
      assert p[0] in g && g[p[0]] == p[1] == q[1];
      ChainsAreUnique(rows, p[1], p[1..], q[1..]);
      assert p == [p[0]] + p[1..] && q == [q[0]] + q[1..];
    }
  }

  /** Correction never hides a whole chain: while no row is removed, following `superseded_by` from
      any row ends in exactly one live row. */
  lemma EveryRowHasOneLiveHead(walls: seq<Wall>, ops: seq<Op>, id: MemoryId)
    requires Run(walls, ops) && Acyclic(LinksOf(walls[0].rows)) && NoDangling(walls[0].rows)
    requires forall k | 0 <= k < |ops| :: ServerOwnsLink(ops[k]) && Preserving(walls[k], ops[k])
    requires id in walls[|ops|].rows
    ensures var rows := walls[|ops|].rows;
            exists head ::
              && head in rows && rows[head].Live() && Reaches(LinksOf(rows), id, head)
              && forall other ::
                other in rows && rows[other].Live() && Reaches(LinksOf(rows), id, other) ==> other == head
  {
    var rows := walls[|ops|].rows;
    SerialRunsStayAcyclic(walls, ops, |ops|);
    RunsRemovingNoRowNeverDangle(walls, ops, |ops|);
    var p := ExtendToHead(rows, [id], {});
    var head := p[|p| - 1];
    forall other | other in rows && rows[other].Live() && Reaches(LinksOf(rows), id, other)
      ensures other == head
    {
      var q :| IsPath(LinksOf(rows), q) && q[0] == id && q[|q| - 1] == other;
      ChainsAreUnique(rows, id, p, q);
    }
  }
}
