/** The data one wall (namespace) of the store holds: the `memories` rows and the
    `doctrine_versions` archive. A wall is fixed throughout, so a row is keyed by its
    memory id and an archived body by its document id and version number. */
module Wall {
  import opened Wrappers

  type MemoryId = string

  datatype Error = Duplicate | NotFound | StoreFailure

  datatype Result<+T> = Ok(value: T) | Err(error: Error)

  datatype MemorySource = Explicit | AutoCapture | Mined | Doctrine

  datatype Memory = Memory(
    id: MemoryId,
    content: string,
    project: string,
    topic: string,
    source: MemorySource,
    importance: real,
    supersedes: Option<MemoryId>,
    supersededBy: Option<MemoryId>,
    revision: Option<nat>,
    createdAt: string
  ) {
    /** A row takes part in reads and in dedup until it is superseded. */
    predicate Live() {
      supersededBy.None?
    }

    /** The revision number a reader is told this row carries. */
    function Number(): nat {
      revision.GetOr(1)
    }
  }

  datatype Version = Version(content: string, active: bool)

  /** The archived bodies of one document, by version number. */
  type Versions = map<nat, Version>

  type Rows = map<MemoryId, Memory>

  datatype Wall = Wall(rows: Rows, archive: map<MemoryId, Versions>) {
    function Recall(id: MemoryId): Option<Memory> {
      if id in rows then Some(rows[id]) else None
    }

    function VersionsOf(id: MemoryId): Versions {
      if id in archive then archive[id] else map[]
    }
  }

  /** Some live row holds this content. */
  predicate LiveHolder(rows: Rows, content: string, id: MemoryId) {
    id in rows && rows[id].Live() && rows[id].content == content
  }

  predicate HeldLive(rows: Rows, content: string) {
    exists id | id in rows :: LiveHolder(rows, content, id)
  }

  /** What a `LIMIT 1` lookup for live rows with this content may answer. When several
      rows qualify the database is free to return any of them. */
  predicate IsDuplicateAnswer(rows: Rows, content: string, answer: Option<MemoryId>) {
    match answer
    case None => !HeldLive(rows, content)
    case Some(id) => LiveHolder(rows, content, id)
  }

  /** No two archived versions of a document carry the same body. */
  predicate DistinctBodies(vs: Versions) {
    forall u, v | u in vs && v in vs :: vs[u].content == vs[v].content ==> u == v
  }

  predicate ArchivedAs(vs: Versions, content: string, v: nat) {
    v in vs && vs[v].content == content
  }

  predicate Archived(vs: Versions, content: string) {
    exists v | v in vs :: ArchivedAs(vs, content, v)
  }

  /** The version an archived body is kept under. */
  ghost function VersionHolding(vs: Versions, content: string): (v: nat)
    requires Archived(vs, content)
    ensures ArchivedAs(vs, content, v)
  {
    var v :| ArchivedAs(vs, content, v);
    v
  }

  ghost predicate IsMaxVersion(vs: Versions, m: nat) {
    (forall v | v in vs :: v <= m) && (m in vs || (m == 0 && vs == map[]))
  }

  /** The largest archived version number, or 0 when nothing is archived. */
  ghost function MaxVersion(vs: Versions): (m: nat)
    ensures IsMaxVersion(vs, m)
    decreases |vs|
  {
    if vs == map[] then 0
    else
      var v :| v in vs;
      var rest := vs - {v};
      assert v !in rest && |rest.Keys| < |vs.Keys| by {
        assert rest.Keys == vs.Keys - {v};
      }
      var m := MaxVersion(rest);
      assert forall u | u in vs :: u == v || u in rest;
      if v >= m then v else m
  }

  /** Every row is stored under its own id. */
  predicate Keyed(rows: Rows) {
    forall id | id in rows :: rows[id].id == id
  }
}
