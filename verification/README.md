# A model of Ijima's store, search and mining core

Ijima keeps memories in walls (namespaces) of a SurrealDB store, corrects them by superseding
links, versions doctrine documents, and serves them by search and wake-up. This project models
the parts of it whose behaviour spans several operations, and proves what they guarantee.
`dafny verify dfyconfig.toml` checks everything.

| file | models |
|---|---|
| `Wrappers.dfy`, `Wall.dfy`, `Transitions.dfy` | shared types; one wall's rows and doctrine archive, and every write as a function of the wall before it |
| `SurrealStore.dfy` | the write operations step by step, each proved to compute its transition |
| `Outcomes.dfy` | what each write answers and leaves, in terms of the tables alone |
| `DoctrineIdentity.dfy`, `DoctrineOutcomes.dfy` | stable body identities over whole runs; totality, idempotence, uniqueness, active flags |
| `SupersedeGraph.dfy` | acyclicity and live heads over serial runs |
| `ConcurrentSaves.dfy` | any number of interleaved saves with an explicit lock |
| `ConcurrentDoctrine.dfy`, `DoctrineAlone.dfy`, `Races.dfy` | doctrine ingests and rollbacks interleaved with them; what the two locks are for and what they leave open |
| `Glob.dfy` | the greedy glob matcher against a recursive meaning |
| `SearchMerge.dfy`, `Wakeup.dfy` | visible-scope search and wake-up composition against one-shot specifications |
| `Keys.dfy`, `Ledger.dfy` | record keys and the retrieval ledger |
| `Palace.dfy`, `Order.dfy`, `Sweep.dfy` | aggregation, string order, the lifecycle sweep |
| `Clauses.dfy`, `Decisions.dfy`, `Casing.dfy` | the rule tier's decision scanner |

Code that updates fields or loops over local variables is a method or a class here; its contract
ties it to a function or predicate, and the properties are lemmas about those.

## What the model assumes

- SHA-256 is injective on bodies, so content hashes are compared as contents.
- Each database statement is atomic. A `LIMIT 1` lookup may answer any qualifying row; the
  theorems hold for every answer.
- One wall is fixed, so rows are keyed by id and versions by (id, number). `Keys.dfy` shows that
  the formatted keys allow this within a wall, and across walls exactly when no wall name extends
  another by the separator (`MemoryKeysAreFaithfulIff`, `VersionKeysAreFaithfulIff`).
- Whether the embedder accepts a body is a parameter (`embeds`) of each operation that embeds.
- An incoming row's `superseded_by` is empty where a theorem says so (`ServerOwnsLink`,
  `Initial`); `RunKeepsAcyclicIff` says exactly what happens otherwise.
- In serial runs each operation completes before the next starts; `ConcurrentDoctrine.dfy` has
  doctrine ingests, rollbacks and saves overlap statement by statement.
- The two queries of a wake-up see the same rows. Similarities and importances are totally
  ordered (reals, no NaN).
- Identity theorems are about one document and runs that are `IdentitySafe` for it: a save that
  puts a row under its id must agree with the archive there, and a delete of its row needs the
  body archived. `OperationIsHarmlessIff` shows that nothing less will do. What happens to other
  rows is not restricted.
- Miner texts are UTF-8, taken as bytes.

## Where the code and its documentation differ

The model follows the code.

- `ijima-core/src/store.rs:68-70` promises exactly one active version after any ingest. After an
  ingest of a new body there is none (`IngestActivates`); the comment at
  `ijima-server/src/backend_surreal.rs:237-240` agrees with the code.
- `ijima-core/src/memory.rs:71-75` says the inverse link is written atomically with the insert.
  They are two statements; the pair is mirrored except while a save is in flight
  (`SavesKeepMirror`).
- `ijima-server/src/backend_surreal.rs:1546-1549` promises that retiring onto a canonical row
  destroys nothing, and it does not. On the replacing path the row is deleted before the body is
  embedded and stored again, so a refusing embedder loses it (`IngestDestroysRowIff`), and so does a
  save in between (`LossHasCause`, `SaveCostsIngestItsRow`); its body stays archived
  (`IngestKeeps`).
- `ijima-miner/src/rules.rs:82` calls the mark the end of the emitted clause's span. It falls
  short of it by the white space before the clause (`MarkIsSpanEndIff`, `OverlapCanBeEmitted`).
- `ijima-server/src/backend_surreal.rs:1032-1035` relies on stamps of one width.
  `ComparesNumericallyIff` says exactly when other widths compare correctly.
- `ijima-server/src/doctrine.rs:176-179` promises the classes of Python's fnmatch. There a `]` first in
  a class is a member; here it closes the class (`EmptyClasses`).
- `ijima-core/src/store.rs:214-221` promises stable body identities without naming the operations
  that break them: `OperationIsHarmlessIff` says exactly which, `DeleteForgetsNumber` and
  `SaveReusesNumber` show one of each.
- `ijima-server/src/backend_surreal.rs:875-879` has concurrent saves unable to claim each other into
  a cycle, which holds (`InterleavingsStayAcyclic`); together with a doctrine ingest they can
  (`RetireRacesClaimIntoCycle`, `ScheduleStaysAcyclicIff`).
- `ijima-server/src/backend_surreal.rs:896-901` says concurrent successors cannot both win. Among saves
  they cannot (`AtMostOneSuccessor`); with a rollback in flight they can
  (`RollbackAllowsSecondSuccessor`, `ScheduleKeepsSingleIff`).
- `ijima-server/src/backend_surreal.rs:820-832` puts the wall's name into each key so that ids do not
  collide across walls. They can: `NamesCollideIff` says for which names.
- A rollback does no content dedup and does not un-retire its row (`RollbackKeepsUniqueIff`,
  `RollbackRewrites`).

## Model

| member | source | states |
|---|---|---|
| `SurrealStore.SurrealStore.constructor` | ijima-server/src/backend_surreal.rs:90-97 | A store opened in memory has no rows and no archive; `Valid` (rows stored under their own ids, archived bodies distinct) holds and every other method keeps it. |
| `SurrealStore.SurrealStore.CheckDuplicateLive` | ijima-server/src/backend_surreal.rs:985-1009 | Answers nothing exactly when no live row holds the body, and otherwise any one live row that does (the query is a `LIMIT 1`). |
| `SurrealStore.SurrealStore.DeleteAgedAutocapture` | ijima-server/src/backend_surreal.rs:1031-1050 | Removes exactly the auto-captured rows with a stamp before the cutoff in string order, leaves the others as they were, and reports how many rows went. |
| `SurrealStore.SurrealStore.ClaimTarget` | ijima-server/src/backend_surreal.rs:897-925 | The conditional link succeeds exactly on a row that is present and unclaimed, and otherwise changes nothing. |
| `SurrealStore.SurrealStore.StoreMemory` | ijima-server/src/backend_surreal.rs:839-962 | Insert, conditional claim and compensating delete add up to all or nothing: on any refusal (live duplicate, embedder, taken id, self, absent or claimed target) the wall is exactly as before. |
| `SurrealStore.SurrealStore.ComputeMaxVersion` | ijima-server/src/backend_surreal.rs:1585 | The largest archived number, or 0: an upper bound that is attained. |
| `SurrealStore.SurrealStore.ArchiveOutgoingBody` | ijima-server/src/backend_surreal.rs:173-226 | An archived body answers the number it has; otherwise it is archived under the live revision, or max+1 without one; no live row, no change. |
| `SurrealStore.SurrealStore.AllocateRevision` | ijima-server/src/backend_surreal.rs:1568-1612 | Archive the outgoing body, then number the incoming one, exactly as the transition `Allocate` says. |
| `SurrealStore.SurrealStore.ReplaceLive` | ijima-server/src/backend_surreal.rs:1614-1622 | Given no live duplicate, delete-then-store cannot hit either rejection of the save; with a failing embedder the row is gone. |
| `SurrealStore.SurrealStore.CommitDoctrineIngest` | ijima-server/src/backend_surreal.rs:1524-1624 | The step-by-step ingest computes the transition `Ingest`, for whatever answer the dedup lookup gave. |
| `SurrealStore.SurrealStore.ActivateDoctrineVersion` | ijima-server/src/backend_surreal.rs:1625-1673 | The step-by-step rollback computes the transition `Rollback`, both not-found cases and a failing embedder included. |
| `Outcomes.SaveAnswers` | ijima-server/src/backend_surreal.rs:839-962 | Which saves go through and which error the others get, in the order the source checks; a refused save leaves the wall as it was, one that goes through adds its row as it came, marks its target and touches nothing else. |
| `Outcomes.IngestAnswers` | ijima-server/src/backend_surreal.rs:1532-1624 | Case by case: an ingest of what is live under its id changes nothing; one whose body is live under another id answers that id and retires its own live row onto it; otherwise it writes the row with the server's fields, or, refused, leaves none. |
| `Outcomes.IngestLeavesNothingObsolete` | ijima-server/src/backend_surreal.rs:1550-1566 | Whatever an ingest answers, a row live under its id afterwards holds exactly the ingested body. |
| `Outcomes.IngestArchivesOutgoing` | ijima-server/src/backend_surreal.rs:1587-1590 | An ingest adds exactly the outgoing number and body of a row due for replacement to the archive, and leaves other documents' archives alone. |
| `Outcomes.RollbackAnswers` | ijima-server/src/backend_surreal.rs:1631-1672 | A rollback succeeds exactly when version and row are there and the embedder accepts, reports not found exactly when one is missing, and then changes nothing. |
| `Outcomes.RollbackArchivesOutgoing` | ijima-server/src/backend_surreal.rs:1644-1652 | A rollback adds exactly the outgoing number and body to the archive if another body was asked for. |
| `Outcomes.DeleteLeaves` | ijima-server/src/backend_surreal.rs:1020-1029 | A delete takes away the one row and nothing else. |
| `DoctrineIdentity.ArchivingKeeps` | ijima-server/src/backend_surreal.rs:173-226 | Archiving the outgoing body keeps the document invariant, never overwrites an archived body, and leaves the live body archived under the live number. |
| `DoctrineIdentity.AllocationAgrees` | ijima-server/src/backend_surreal.rs:1583-1612 | A number carries the incoming body in the archive exactly when it is the allocated number; a body not archived gets a number above everything archived. |
| `DoctrineIdentity.IngestKeeps` | ijima-server/src/backend_surreal.rs:1524-1624 | Ingest keeps the identity invariant and loses no (number, body) pair, on every branch and even when the embedder fails. |
| `DoctrineIdentity.RollbackKeeps` | ijima-server/src/backend_surreal.rs:1625-1673 | The same for rollback. |
| `DoctrineIdentity.SaveKeepsIff` | ijima-server/src/backend_surreal.rs:839-962 | A plain save that goes through keeps everything known, and keeps the identity invariant exactly when its row agrees with the archive of its id. |
| `DoctrineIdentity.DeleteKeepsIff` | ijima-server/src/backend_surreal.rs:1020-1029 | A delete loses the row's number and body exactly when the body is not archived. |
| `DoctrineIdentity.StepKeepsIff` | ijima-server/src/backend_surreal.rs:839-1673 | Any operation keeps one document's invariant and everything known about it exactly when it is `IdentitySafe` for that document; only saves and deletes of its own id can fail to be. |
| `DoctrineIdentity.RunKeeps` | ijima-server/src/backend_surreal.rs:173-254 | Over every serial run safe for a document, whatever is done to other rows, its invariant holds at each point and what was known at one point is known later. |
| `DoctrineIdentity.NothingLost` | ijima-server/src/backend_surreal.rs:192-225 | Whatever number and body ever went live is the current row or archived under that number. |
| `DoctrineIdentity.IdentitiesAreABijection` | ijima-core/src/store.rs:214-221 | Over any such run, the revision numbers and bodies a document was ever live or archived with determine each other. |
| `DoctrineIdentity.ArchiveIsAppendOnly` | ijima-server/src/backend_surreal.rs:215-224 | A number once archived keeps its body for the rest of the run: the upsert never overwrites. |
| `DoctrineIdentity.IngestNumbersStably` | ijima-server/src/backend_surreal.rs:1596-1612 | After any safe run, an ingested body seen in the row or the archive at any point of it gets the number it had; a new one gets the number after the largest seen, 1 if there is none. |
| `DoctrineIdentity.RollbackRewrites` | ijima-server/src/backend_surreal.rs:1653-1672 | A rollback rewrites the row's content and revision and nothing else (a retired row stays retired), and archives what it replaces. |
| `DoctrineIdentity.RollbackRestores` | ijima-server/src/backend_surreal.rs:1631-1672 | After any run, rolling back to any earlier number brings back exactly that body; rolling forward again restores all rows, a number that was implicit now explicit. |
| `DoctrineIdentity.OperationIsHarmlessIff` | ijima-core/src/store.rs:214-221 | An operation is `IdentitySafe` exactly when, in every continuation that leaves the row to ingests and rollbacks, numbers and bodies still determine each other: after an unsafe save or delete some continuation gives one body two numbers or one number two bodies. |
| `DoctrineIdentity.DeleteForgetsNumber` | ijima-server/src/backend_surreal.rs:1602-1611 | A row saved with revision 2 and then deleted: re-ingesting its body gives it number 1, and two other bodies ingested in turn give its number 2 to the second. |
| `DoctrineIdentity.SaveReusesNumber` | ijima-server/src/api.rs:451-482 | A plain save under the id of an archived document without a row succeeds and gives number 1 a second body. |
| `DoctrineIdentity.SaveRestores` | ijima-server/src/api.rs:451-482 | Saving the archived body back under its number is safe. |
| `DoctrineOutcomes.IngestIsTotal` | ijima-server/src/backend_surreal.rs:1538-1623 | With a working embedder an ingest always succeeds, never shrinks the set of rows, and returns a live row holding exactly the body at the returned number. |
| `DoctrineOutcomes.IngestDestroysRowIff` | ijima-server/src/backend_surreal.rs:1614-1616 | An ingest loses a row exactly when the embedder refuses the body of a present document due for replacement. |
| `DoctrineOutcomes.SaveKeepsUnique` | ijima-server/src/backend_surreal.rs:845-850 | A save keeps "at most one live row per body". |
| `DoctrineOutcomes.IngestKeepsUnique` | ijima-server/src/backend_surreal.rs:1532-1566 | So does an ingest, retirement and un-retirement included. |
| `DoctrineOutcomes.RollbackKeepsUniqueIff` | ijima-server/src/backend_surreal.rs:1653-1668 | A rollback does exactly when the row is retired or no other live row holds the restored body. |
| `DoctrineOutcomes.StepKeepsUniqueIff` | ijima-server/src/backend_surreal.rs:839-1673 | Any operation keeps live content unique exactly when it is not such a rollback. |
| `DoctrineOutcomes.RunKeepsUniqueIff` | ijima-server/src/backend_surreal.rs:845-850 | A serial run has unique live content throughout exactly when each of its rollbacks is safe. |
| `DoctrineOutcomes.RollbackCanDuplicate` | ijima-server/src/backend_surreal.rs:1653-1668 | Two documents whose bodies crossed: a rollback leaves two live rows with one body. |
| `DoctrineOutcomes.IngestIsIdempotent` | ijima-server/src/backend_surreal.rs:1538-1566 | Repeating an ingest returns the same id and number and changes nothing, in the same-id, canonical-other-id and restored-row cases alike. |
| `DoctrineOutcomes.StepKeepsFlagsIff` | ijima-server/src/backend_surreal.rs:231-254 | Any operation keeps a document's flags truthful (a version is active exactly when its body is the current row's) exactly when it is `FlagsSafe`: removing the row, by a delete or a refused replacing ingest, needs its body unarchived; so does a save putting a row there; a refused rollback needs it archived. |
| `DoctrineOutcomes.RunKeepsFlagsIff` | ijima-server/src/backend_surreal.rs:231-254 | A serial run keeps a document's flags truthful throughout exactly when each of its operations is safe; operations on other rows always are. |
| `DoctrineOutcomes.ActiveIsCurrent` | ijima-core/src/store.rs:68-70 | At every point of a run safe for a document in both senses the set of active versions is the current number if that body is archived, and empty otherwise: never two. |
| `DoctrineOutcomes.RollbackCutShortIff` | ijima-server/src/backend_surreal.rs:1650-1662 | A rollback stopped by the embedder leaves the flags truthful exactly when it had nothing to archive. |
| `DoctrineOutcomes.RollbackActivates` | ijima-server/src/backend_surreal.rs:1669-1671 | Right after a rollback exactly the requested version is active. |
| `DoctrineOutcomes.IngestActivates` | ijima-server/src/backend_surreal.rs:1617-1622 | Right after a replacing ingest the returned number is the one active version if the body is a returning one; for a new body none is active. |
| `SupersedeGraph.LinkToSinkStaysAcyclic` | ijima-server/src/backend_surreal.rs:897-925 | Linking any row to one that is itself unclaimed closes no cycle. |
| `SupersedeGraph.LinkStaysAcyclicIff` | ijima-server/src/backend_surreal.rs:1496-1522 | Writing any link, over an old one or not, closes a cycle exactly when the new target already leads back. |
| `SupersedeGraph.SaveKeepsAcyclic` | ijima-server/src/backend_surreal.rs:891-949 | A save keeps the graph acyclic. |
| `SupersedeGraph.IngestKeepsAcyclic` | ijima-server/src/backend_surreal.rs:1550-1566 | So does an ingest, on every branch. |
| `SupersedeGraph.StepKeepsAcyclic` | ijima-server/src/backend_surreal.rs:839-1673 | So does every operation of the serial mix, with dangling links present or not. |
| `SupersedeGraph.SerialRunsStayAcyclic` | ijima-server/src/backend_surreal.rs:839-1673 | Every state of every serial run of saves, ingests, rollbacks and deletes is acyclic. |
| `SupersedeGraph.SaveWithIncomingLinkIff` | ijima-core/src/memory.rs:78-81 | If a save arrives with its own `superseded_by`, the graph stays acyclic exactly when that link leads neither to the new id nor to the save's target. |
| `SupersedeGraph.StepKeepsAcyclicIff` | ijima-core/src/memory.rs:78-81 | Whatever links clients send, an operation keeps the graph acyclic exactly when it is not a save whose own link leads to its new row or its target. |
| `SupersedeGraph.RunKeepsAcyclicIff` | ijima-core/src/memory.rs:78-81 | A serial run is acyclic throughout exactly when each of its saves is safe in this sense. |
| `SupersedeGraph.StepRemovesNoRowIff` | ijima-server/src/backend_surreal.rs:1614-1616 | An operation removes no row exactly when it is `Preserving`: not a delete of a present row, nor a refused ingest that was replacing one. |
| `SupersedeGraph.RunsRemovingNoRowNeverDangle` | ijima-server/src/backend_surreal.rs:1614-1616 | In runs that remove no row every link points at a present row. |
| `SupersedeGraph.ChainsAreUnique` | ijima-server/src/backend_surreal.rs:891-949 | A chain is determined by its start and by ending in a live row. |
| `SupersedeGraph.EveryRowHasOneLiveHead` | ijima-server/src/backend_surreal.rs:839-1673 | In such runs following `superseded_by` from any row ends in exactly one live row. |
| `ConcurrentSaves.AloneIsSerial` | ijima-server/src/backend_surreal.rs:839-962 | Run without interruption, the atomic statements of a save compute the serial `Save`: same rows, same result, lock free. |
| `ConcurrentSaves.LockInvKept` | ijima-server/src/backend_surreal.rs:880-884 | In every interleaving exactly the lock holder is inside, and the row it is about to link to is itself unclaimed. |
| `ConcurrentSaves.AcyclicKept` | ijima-server/src/backend_surreal.rs:880-961 | Each atomic step keeps the graph acyclic. |
| `ConcurrentSaves.InterleavingsStayAcyclic` | ijima-server/src/backend_surreal.rs:880-961 | Every reachable state of any number of interleaved saves and deletes is acyclic. |
| `ConcurrentSaves.SavesKeepInv` | ijima-server/src/backend_surreal.rs:885-961 | In interleavings of saves, every saver's row stays its own and every successful claim stays recorded. |
| `ConcurrentSaves.AtMostOneSuccessor` | ijima-server/src/backend_surreal.rs:891-949 | At most one save superseding a given target ever returns successfully. |
| `ConcurrentSaves.SavesKeepMirror` | ijima-server/src/backend_surreal.rs:885-961 | `supersedes` and `superseded_by` mirror each other except for the one row in flight. |
| `ConcurrentSaves.QuiescentChainsAreLinear` | ijima-server/src/backend_surreal.rs:885-961 | Whenever no linker is in flight, `y.supersedes = x` exactly when `x.superseded_by = y`, two rows never share a successor, and each row leads to one live head. |
| `Races.WithoutLockMutualSavesCycle` | ijima-server/src/backend_surreal.rs:875-884 | Without the lock two saves naming each other claim each other into a cycle. |
| `ConcurrentDoctrine.ClaimKeepsAcyclicIff` | ijima-server/src/backend_surreal.rs:897-925 | A claim keeps the graph acyclic exactly when the claiming row is unlinked or its link does not lead to the target. |
| `ConcurrentDoctrine.RetireKeepsAcyclicIff` | ijima-server/src/backend_surreal.rs:1496-1522 | A retire link keeps the graph acyclic exactly when the canonical row does not by then lead back. |
| `ConcurrentDoctrine.RewriteKeepsAcyclicIff` | ijima-server/src/backend_surreal.rs:1660-1668 | Writing back a row read earlier keeps the graph acyclic exactly when the row was live or its successor does not by then lead back to it. |
| `ConcurrentDoctrine.MoveKeepsAcyclicIff` | ijima-server/src/backend_surreal.rs:839-1673 | These conditions together, for any statement of any save, ingest or rollback and for deletes. |
| `ConcurrentDoctrine.ScheduleStaysAcyclicIff` | ijima-server/src/backend_surreal.rs:839-1673 | Any number of saves, deletes, ingests and rollbacks, interleaved statement by statement, stay acyclic throughout exactly when no retirement, rollback or claim closes a cycle in this sense. |
| `DoctrineAlone.IngestAloneIsSerial` | ijima-server/src/backend_surreal.rs:1524-1624 | Run without interruption, the statements of an ingest compute the serial ingest: same rows, same answer, lock free. |
| `DoctrineAlone.RollbackAloneIsSerial` | ijima-server/src/backend_surreal.rs:1625-1673 | And those of a rollback the serial rollback. |
| `ConcurrentDoctrine.MoveKeepsClosedIff` | ijima-server/src/backend_surreal.rs:891-949 | A move keeps every successfully superseded target unclaimable exactly when it does not reopen one: by a save or ingest under the id of a row deleted since, or a rollback that read the row before it was claimed. |
| `ConcurrentDoctrine.MoveKeepsSingleIff` | ijima-server/src/backend_surreal.rs:891-949 | A move keeps at most one successful successor per target exactly when it is not a claim of a target that has one. |
| `ConcurrentDoctrine.ScheduleKeepsSingleIff` | ijima-server/src/backend_surreal.rs:891-949 | A schedule has at most one successful successor per target throughout exactly when no claim is a second one, and a second one comes only after a move that reopened a target. |
| `ConcurrentDoctrine.LosesRowIff` | ijima-server/src/backend_surreal.rs:1614-1616 | Past its delete an ingest is refused exactly when a live row holds its body or the embedder refuses, or when its id is taken at the insert; otherwise it ends with its body live under its id. |
| `ConcurrentDoctrine.LossHasCause` | ijima-server/src/backend_surreal.rs:1614-1616 | If no other live row held the body at the delete and the embedder accepts, an ingest that still gives up was overtaken by a save of its body or under its id. |
| `Races.RetireRacesClaimIntoCycle` | ijima-server/src/backend_surreal.rs:1550-1564 | A schedule from a fresh start in which an ingest decides to retire a row, a save claims the canonical one for it, and the retire link then closes a cycle. |
| `Races.RetiredInFlightClaimsIntoCycle` | ijima-server/src/backend_surreal.rs:885-916 | The other order: the row is retired while its save is in flight, and the claim closes the cycle. |
| `Races.RollbackAllowsSecondSuccessor` | ijima-server/src/backend_surreal.rs:1642-1668 | A schedule in which a rollback writes a row back as it was before a save claimed it, and a second save supersedes it as well. |
| `Races.SaveCostsIngestItsRow` | ijima-server/src/backend_surreal.rs:1614-1616 | A schedule in which a save of the same body comes between an ingest's delete and its insert: the ingest is refused and its document has no row. |
| `Races.InsertKeepsUniqueIff` | ijima-server/src/backend_surreal.rs:885-890 | An insert keeps live content unique exactly when no live row holds the body at that moment. |
| `Races.InterleavingKeepsUniqueIff` | ijima-server/src/backend_surreal.rs:845-890 | An interleaving of saves and deletes keeps live content unique throughout exactly when none of its inserts happens while a live row holds the body. |
| `Races.TwinSavesDuplicate` | ijima-server/src/backend_surreal.rs:845-890 | Two interleaved saves of one body both succeed: the dedup check is outside the insert. |
| `Glob.ClassLen` | ijima-server/src/doctrine.rs:239-251 | The length up to the first `]` after an optional `!`, or nothing when unterminated. |
| `Glob.ClassMatches` | ijima-server/src/doctrine.rs:255-276 | Accepts exactly the members of the class (ranges and single characters), or exactly the others when negated. |
| `Glob.EmptyClasses` | ijima-server/src/doctrine.rs:239-276 | A `]` right after `[` or `[!` closes the class: `[]` matches no character and `[!]` any one. |
| `Glob.RangeTaken` | ijima-server/src/doctrine.rs:263-267 | A range takes what lies between its ends, and the members after it what they take. |
| `Glob.SingleTaken` | ijima-server/src/doctrine.rs:268-273 | A member that no range begins with takes itself, and the members after it what they take. |
| `Glob.ClassTakes` | ijima-server/src/doctrine.rs:255-276 | A class takes what its members take, or after a `!` everything else. |
| `Glob.MatchesPlain` | ijima-server/src/doctrine.rs:187-219 | What the empty pattern, a literal, `?` and `*` match. |
| `Glob.MatchesClass` | ijima-server/src/doctrine.rs:200-206 | A terminated class matches one character its members take. |
| `Glob.MatchesNegatedClass` | ijima-server/src/doctrine.rs:200-206 | A negated one matches one character they do not take. |
| `Glob.MatchesUnterminated` | ijima-server/src/doctrine.rs:207-212 | A bracket that is never closed matches itself. |
| `Glob.MatchesRange` | ijima-server/src/doctrine.rs:263-267 | `[lo-hi]` matches one character between its ends, `[!lo-hi]` one outside. |
| `Glob.ClassesAtWork` | ijima-server/src/doctrine.rs:512-517 | The four class patterns the repository checks. |
| `Glob.TryToken` | ijima-server/src/doctrine.rs:187-221 | One token accepts a character and tells where the pattern continues. |
| `Glob.LastStarSuffices` | ijima-server/src/doctrine.rs:189-195 | When another star is reached, no other choice for the star before it need be remembered. |
| `Glob.AtMismatch` | ijima-server/src/doctrine.rs:222-228 | Backtracking to the last star with one more character keeps what the loop knows. |
| `Glob.FnMatch` | ijima-server/src/doctrine.rs:181-234 | For every pattern and text the loop returns true exactly when the recursive meaning `Matches` accepts the whole text, and it terminates. |
| `SearchMerge.SortIsStable` | ijima-server/src/api.rs:686-690 | The sort permutes, orders by descending similarity and keeps equal similarities in order. |
| `SearchMerge.StableSortIsUnique` | ijima-server/src/api.rs:686-690 | Any list with these properties is that sort, so nothing else is assumed of it. |
| `SearchMerge.MergeIntoMerged` | ijima-server/src/api.rs:679-695 | Merging into an already truncated merge loses nothing against merging everything. |
| `SearchMerge.WallTopSuffices` | ijima-server/src/api.rs:619-630 | A wall's hits beyond its first `limit` never reach the merged list. |
| `SearchMerge.TopIsBest` | ijima-server/src/api.rs:661-678 | Every returned hit is the most similar of its id and, among equals, the first; its wall is the winning one. |
| `SearchMerge.TopIsComplete` | ijima-server/src/api.rs:661-678 | A hit left out has its id represented at least as well, or is no better than anything in a full list. |
| `SearchMerge.MergeSearchHitsWithWalls` | ijima-server/src/api.rs:679-695 | The sort-retain-truncate of two lists is the top of their concatenation. |
| `SearchMerge.SearchVisible` | ijima-server/src/api.rs:616-630 | Folding over per-wall top lists equals one sort of all full wall lists. Over the walls: every hit returned is in one of them; every hit of each is represented at least as well or no better than anything in a full list; of equally similar occurrences of an id the one in the earliest wall is returned. |
| `SearchMerge.FlattenHolds` | ijima-server/src/api.rs:616-630 | The list that is sorted holds exactly the hits of all walls. |
| `Wakeup.Compose` | ijima-server/src/api.rs:1053-1075 | The two loops and the truncation compute: all recent rows, then the top rows not among them, cut to 20; the stratum tags are right. |
| `Wakeup.WakeupServes` | ijima-server/src/api.rs:1041-1075 | For a wall of n live rows, min(20, n) distinct live rows: the min(8, n) freshest, then the longest fitting prefix of the whole importance order over the rest, though only its top 20 was fetched. |
| `Wakeup.NothingBetterIsLeftOut` | ijima-server/src/backend_surreal.rs:1052-1086 | No row left out of the recency stratum is fresher than one in it; none left out altogether ranks before one in the fill. |
| `Wakeup.RecencyIsNumeric` | ijima-server/src/backend_surreal.rs:1072-1086 | Where stamps have one width, a listing by recency goes from the numerically latest down, rows without a stamp last. |
| `Order.LessIsTotal` | ijima-server/src/backend_surreal.rs:1078 | String order is total (with its asymmetry and transitivity), which the sorted queries and maps rely on. |
| `Keys.NumeralIsInjective` | ijima-server/src/api.rs:204 | Decimal and hexadecimal numerals determine their number. |
| `Keys.GluedAlikeIff` | ijima-server/src/backend_surreal.rs:825-835 | Two names glued to two ids by a separator give one text exactly when the pairs are equal or one shifts a part of the other's id, up to a separator, into its name. |
| `Keys.NamesCollideIff` | ijima-server/src/backend_surreal.rs:825-835 | Two names admit different pairs with one text exactly when one extends the other by the separator. |
| `Keys.MemoryKeysCollideIff` | ijima-server/src/backend_surreal.rs:825-827 | Exactly when two memories share a key, with the colon as separator. |
| `Keys.VersionKeysCollideIff` | ijima-server/src/backend_surreal.rs:833-835 | Exactly when two archived versions share a key: equal numbers, and documents that are equal or shift at an underscore. |
| `Keys.MemoryKeysAreFaithfulIff` | ijima-server/src/backend_surreal.rs:825-827 | Over any set of walls memory keys determine wall and id, whatever the ids, exactly when no wall name extends another by a colon. |
| `Keys.VersionKeysAreFaithfulIff` | ijima-server/src/backend_surreal.rs:833-835 | Version keys do exactly when no wall name extends another by an underscore. |
| `Keys.KeysAreFaithfulWithinAWall` | ijima-server/src/backend_surreal.rs:825-835 | Within one wall memory keys and version keys determine their parts, whatever ids contain. |
| `Keys.KeysCanCollideAcrossWalls` | ijima-server/src/backend_surreal.rs:825-835 | Two colliding memory keys, and two colliding version keys of import walls. |
| `Ledger.KeyDetermines` | ijima-server/src/backend_surreal.rs:1099-1107 | Equal ledger keys have equal retrieval id, kind and rank, although wall and memory id may contain underscores. |
| `Ledger.SearchEvents` | ijima-server/src/api.rs:641-659 | One event per hit, with the search's retrieval id, the hit's memory and wall, and its rank. |
| `Ledger.BrowseEvents` | ijima-server/src/api.rs:1762-1777 | One event per memory listed, with its rank. |
| `Ledger.WakeupIsOneRetrieval` | ijima-server/src/api.rs:1081-1110 | The two lists of a wake-up both count ranks from 0, yet no two events agree on kind and rank. |
| `Ledger.WakeupEvents` | ijima-server/src/api.rs:1081-1110 | One event per memory of either list, ranked within its list, the kind telling doctrine, recency stratum and lexicographic fill apart. |
| `Ledger.RetrievalLedger.NewRetrievalId` | ijima-server/src/api.rs:196-204 | Each id is numbered differently from every id issued before it. |
| `Ledger.RetrievalLedger.AppendRetrievalEvents` | ijima-server/src/backend_surreal.rs:1088-1126 | Every event is attempted, a taken key keeps its record, and the first error is reported after the loop. |
| `Ledger.AppendingKeepsFirst` | ijima-server/src/backend_surreal.rs:1088-1126 | Appending keeps earlier records, records the first event of each new key, and fails exactly when a key was taken or came twice. |
| `Ledger.ToldApartIsRecorded` | ijima-server/src/backend_surreal.rs:1088-1126 | Onto any earlier records of other retrievals, events told apart by request, kind and rank are all recorded, each under its own key, without error. |
| `Ledger.LedgerGrowsByWhatIsServed` | ijima-server/src/backend_surreal.rs:1089-1097 | However the requests of one process overlap, with ids as `NewRetrievalId` issues them, onto any records whose retrieval ids are not among them: every event is recorded under its own key and the ledger grows by the number of memories served. |
| `Palace.ProjectTopicCounts` | ijima-server/src/backend_surreal.rs:300-323 | Exactly the cells that occur, with how often. |
| `Palace.SortedKeys` | ijima-server/src/backend_surreal.rs:1352-1354 | The ascending, complete key order a sorted map hands out. |
| `Palace.TunnelsOfTopic` | ijima-server/src/backend_surreal.rs:1360-1375 | The nested loops emit exactly the tunnels of the topic, each once. |
| `Palace.PalaceGraph` | ijima-server/src/backend_surreal.rs:1348-1381 | Exactly one tunnel per topic and unordered pair of distinct projects with rows on it, in order, with true counts; exactly the projects that occur. |
| `Palace.RoomCountsAddUp` | ijima-server/src/backend_surreal.rs:1290-1304 | Listed once each in any order, the rooms' counts sum to the number of rows. |
| `Palace.TaxonOf` | ijima-server/src/backend_surreal.rs:1325-1338 | A taxon lists exactly its project's rooms, each once, with true counts, and totals the project's rows. |
| `Palace.Taxonomy` | ijima-server/src/backend_surreal.rs:1312-1346 | Exactly the projects that occur have a taxon, one each, and the totals sum to the number of rows. |
| `Sweep.EqualLengthsCompareNumerically` | ijima-server/src/backend_surreal.rs:1032-1035 | On equally long decimal stamps string order is numeric order. |
| `Sweep.ComparesNumericallyIff` | ijima-server/src/backend_surreal.rs:1032-1044 | Without leading zeros, string order decides age correctly both ways round exactly when the lengths agree or the shorter stamp does not exceed the start of the longer. |
| `Sweep.SweepsByAge` | ijima-server/src/backend_surreal.rs:1036-1046 | A row whose stamp is as long as the cutoff is removed exactly when it is auto-captured, stamped and numerically older, and is otherwise unchanged. |
| `Sweep.LengthsCanDisagree` | ijima-server/src/backend_surreal.rs:1032-1044 | A ten-digit stamp sorts before a nine-digit one. |
| `Clauses.ClauseMeaning` | ijima-miner/src/rules.rs:93-98 | A clause is a stretch of its sentence with only Unicode white space before it, only white space, commas and white space after it, and white space neither beginning nor ending it; it ends in a comma only if white space parts that comma from those dropped. |
| `Clauses.NoClauseIff` | ijima-miner/src/rules.rs:93-98 | There is no clause exactly when the sentence is white space, then commas, then white space. |
| `Clauses.SpacesAreWhiteSpace` | ijima-miner/src/rules.rs:96 | Exactly the code points with Unicode's White_Space property are trimmed, at either end. |
| `Decisions.FindFrom` | ijima-miner/src/rules.rs:61 | The first occurrence at or after a position, or none. |
| `Decisions.PhrasesAreUnbordered` | ijima-miner/src/rules.rs:35-50 | None of the decision phrases overlaps itself. |
| `Decisions.PhrasesAreListed` | ijima-miner/src/rules.rs:35-50 | All fourteen phrases are looked for. |
| `Casing.TriggersMeaning` | ijima-miner/src/rules.rs:56-79 | A trigger is a phrase in any casing, not right after a letter, digit or underscore, with a clause after it. |
| `Casing.AnyCasingIsCollected` | ijima-miner/src/rules.rs:56-79 | Such a phrase is collected. |
| `Casing.TriggersAlike` | ijima-miner/src/rules.rs:56-79 | Texts that differ in ASCII case only have triggers at the same positions, with clauses from the same places that differ in case only. |
| `Casing.EmittedIff` | ijima-miner/src/rules.rs:78-91 | A hit is emitted exactly when no emitted hit that began earlier reaches past where its clause starts. |
| `Casing.CaseDoesNotMatter` | ijima-miner/src/rules.rs:55-91 | On such texts the scan emits as many clauses from the same places, differing in case only; on one text what it emits is determined. |
| `Casing.CapitalTriggers` | ijima-miner/src/rules.rs:207-209 | "Let's go with X" triggers at its start with clause "X". |
| `Decisions.PhraseHits` | ijima-miner/src/rules.rs:60-76 | One phrase's loop collects exactly its left-bounded occurrences with a non-empty clause, in order, although it skips past each occurrence. |
| `Decisions.CollectHits` | ijima-miner/src/rules.rs:57-77 | All phrases together: exactly the triggers of any of them. |
| `Decisions.SortSorts` | ijima-miner/src/rules.rs:80 | The hits in order of trigger start, none lost or added. |
| `Decisions.EmitHits` | ijima-miner/src/rules.rs:78-91 | Each emitted clause starts at or past every earlier start plus trimmed length, and every dropped hit starts before the mark of an emitted one that began no later. |
| `Decisions.ExtractDecisions` | ijima-miner/src/rules.rs:55-91 | All of this for every text, and clause starts increase. |
| `Decisions.MarkIsSpanEndIff` | ijima-miner/src/rules.rs:78-88 | The mark is the end of the clause's span exactly when no white space precedes the clause. |
| `Decisions.EmissionOverlapsIff` | ijima-miner/src/rules.rs:78-91 | For every text, some emitted clause begins inside the span of an earlier one exactly when some hit begins between the mark and the span's end of an emitted one. |
| `Decisions.NoPhraseInsideAnother` | ijima-miner/src/rules.rs:35-50 | No phrase occurs at the start of a word so as to end before another that began no later. |
| `Decisions.OverlapCanBeEmitted` | ijima-miner/src/rules.rs:78-88 | On one text, whatever the scan collects and emits is two clauses, the second inside the span of the first. |

## Left out

- HTTP routing, authentication, capabilities, rate limits, serialization and the command line: plumbing.
- Embeddings, cosine similarity, the redaction filter and the LLM mining tier: numeric or external.
- `superseded_at`, `archived_at` and other clock stamps, evidence, citations, harness, session and origin of a row: carried along, never decided on.
- Failures of single database statements other than the ones modelled (taken key, refused embedding); the result of a compensating delete is ignored by the code as well.
- Integer widths: revision numbers, versions, ranks and the request counter are unbounded, so `u32` and `u64` overflow is not modelled.
- Knowledge-graph triples, sessions, diaries, the mining queue, export and statistics: one-step operations.
- `mark_doctrine_active`, which recomputes the same flags as every transition does.
- `browse_memories` beyond its ledger events: the filtered listing query is not modelled.
- Building the sorted, deduplicated list of visible walls before the merge loop; any list of walls is allowed.
- Display order and truncation of rooms and taxons; their contents and totals are modelled.
- SurrealStore.SurrealStore.DeleteAgedAutocapture: one wall's share of the sweep, which the code runs over all walls in one statement.
- SurrealStore.SurrealStore.CommitDoctrineIngest: takes the row the ingest endpoint builds (`ijima-server/src/api.rs:924-951`), not an arbitrary row with its own links or revision.
- Ledger.LedgerGrowsByWhatIsServed: that retrieval ids differ across restarts is a hypothesis about the clock.
- Identifiers of mined memories and the other rule-tier extractions: hashing and string splitting only.
