# Valory: a verified model of its protocols and algorithms

Valory grows a student's course as a layered knowledge tree, with language-model agents that write
and review the nodes and people who approve each layer. Around that core it keeps a tamper-evident
audit log, normalizes AsciiDoc sources, copies admin-made draft trees into courses, limits what the
model calls may cost, caches secrets, verifies logins with one-time codes, and grades homework.

This project models those parts in Dafny and proves what they are for. Tables are maps and
sequences, each SQL statement is one atomic step, and whatever comes from outside (the language model, the
reviewing agent, the clock, random numbers, the mail server) is an arbitrary parameter. Concurrent
operations are state machines whose runs are arbitrary lists of steps; a step that is not enabled
changes nothing. Loops, row updates and stateful objects of the program are methods and classes
here, each proved against a specification function, and the properties are lemmas about those
functions. Every lemma carries `{:induction false}`: where a proof is by induction, the induction
is written out.

Beside the theorems about whole runs stand small lemmas that fix, in terms of their own, what a single
statement or step does to each part of the state (`LayeredRuns.StatusesExactly`,
`TwoFactor.RowsGoExactly`, `Normalizer.FindFenceExact` and the like), so that a definition cannot drift
away from the program unnoticed.

`dafny verify dfyconfig.toml` checks everything.

| file | what it is about |
|---|---|
| `prelude.dfy` | values shared by the other files |
| `audit_chain.dfy` | the hash chain: what is hashed, the two verifiers, tamper evidence |
| `audit_log.dfy` | concurrent appends under the advisory lock, paged streaming |
| `normalizer.dfy` | the AsciiDoc scanner, its fences, and the dollar-math conversion |
| `course_tree.dfy` | the rows of one course tree and the layer operations |
| `layered_runs.dfy` | every interleaving of those operations |
| `layer_pool.dfy` | the five-worker pool that generates and reviews a layer |
| `poller.dfy` | the poller that starts runners, and its in-flight guard |
| `review_loop.dfy` | the review and correction loop of the flat course |
| `draft_copy.dfy` | copying a draft into a course, and assigning it to students |
| `draft_tree.dfy` | how draft rows come about, and when a draft can be copied |
| `throttled_client.dfy` | token cap, retries and delays |
| `secret_cache.dfy` | the secret provider and its cache |
| `two_factor.dfy` | the pending two-factor row |
| `chat_turns.dfy` | merging chat messages into alternating turns |
| `grading.dfy` | late penalties, waiver badges, course average |

## Where code and documentation differ

The model follows the code.

- An unmatched backtick run is appended as a piece of its own (`internal/content/normalize.go:185-190`), which breaks the convention that odd segments are code. `Normalizer.ParityExact` says exactly for which texts the convention holds, `Normalizer.NormalizedAsIntended` exactly when that matters, and `Normalizer.EarlyUnmatchedBreaksConversion` names a text for which it does.
- The draft copy explains its order by the approvals between layers (`internal/admin/assignment_repository.go:309-313`), but a generate request may insert a node of any type, with any parent in the draft or with none (`internal/admin/draft_handler.go:631-680`). What makes parents come first is that each is before its child by creation time or, in a tie, by id; and a second node without a parent makes the copy fail. `DraftTree.DraftCopiesExactly` gives the exact condition for any creation times, `DraftTree.TiesBreakTheCopy` and `DraftCopy.ParentlessNodeFails` the inputs that fail.
- Invalidating a secret drops the cache entry, but a Get that has already read the old value stores it afterwards (`internal/admin/secrets.go:112-117`). `SecretCache.InvalidateExactly` says exactly when an invalidation takes effect, `SecretCache.OldValueServed` is a run in which it does not.
- The audit log is meant to verify (`internal/audit/audit.go:154-180`), but an append hashes its own clock and its own payload text, while the row gets its time from the column default and its payload passes through `jsonb` (`internal/audit/repository.go:50-67`, `migrations/002_user_security_audit.sql:36-46`), which in general gives back another text. `AuditLog.CommittedLogVerifies` and `AuditLog.VerifiesWhenStoredAsHashed` say exactly when a row is accepted, `AuditLog.ConfigChangeFails` names an append that is not.
- A student named twice in one assignment request is not refused beforehand (`internal/admin/assignment_handler.go:247-255`), and then the second answer depends on the first: `DraftCopy.AssignmentsAreIndependent`, `DraftCopy.SameStudentTwice`.
- A request for a single node may name any type below any node of the course (`internal/agent/node_handler.go:287-440`), and the database constrains no layers: `LayeredRuns.LayeredExactly`, `LayeredRuns.ContentBelowRoot`.
- A wrong code is answered even when the transaction that counts it does not commit (`internal/auth/twofactor.go:304-345`), so the cap of five holds if and only if no commit fails: `TwoFactor.CapExactly`, with the runs of `TwoFactor.GuessesReached` and `TwoFactor.LostGuessesUnbounded`.
- The comment on the node review loop speaks of failing a node at the iteration limit (`internal/agent/layered_runner.go:488-496`); the code escalates and leaves it awaiting review, and that is what `LayerPool` does.
- The node chat is merged for strict alternation (`internal/agent/node_chair.go:415-418`), but the request for a node is appended unmerged (`internal/agent/node_chair.go:407-413`). `ChatTurns.NodeRequestAlternates` says when the result alternates.
- The guard of the poller is there to keep a course from being dispatched twice (`internal/agent/runner.go:411-417`). It does among the runners it records, but a seeding runner is started outside it (`internal/agent/runner.go:257-282`) and generates a layer as well: `Poller.OverlapExactly`, `Poller.SeededCourseGetsTwo`. And a course listed while its runner is at work is dispatched again once the runner has ended, settled or not (`Poller.SettledCourseStartedAgain`).
- `SetNodePayload` and `failNode` write whatever the status was, so an approved node need not stay approved, and the expand step never compares its argument with the course's current layer. Nothing here claims otherwise.

## Model

| member | source | states |
|---|---|---|
| AuditChain.TamperEvidence | internal/audit/audit.go:154-180 | Two logs that both verify and end in the same entry hash agree on every hashed field of every row, or the comparison returns two different hash inputs with one digest, or a preimage of the genesis value. The digest function is arbitrary apart from its length. |
| AuditChain.HashInputInjective | internal/audit/audit.go:85-97 | The concatenation without separators is uniquely decodable for a 64-character previous hash, a UTC time ending in its only Z (section 5.6 of RFC 3339), a 36-character UUID (section 3 of RFC 4122), an action without - or {, and a payload that starts with {. |
| AuditChain.DecodeHashInput | internal/audit/audit.go:85-97 | A decoder written independently of the encoder recovers previous hash, time, actor, action, optional target and payload: decoding undoes the concatenation. |
| AuditChain.EditDetected | internal/audit/audit.go:170-180 | Editing a hashed field of one row in place makes that very row the first broken one, unless the edit is itself a digest collision. |
| AuditChain.UnhashedColumnsIgnored | internal/audit/audit.go:154-180 | Ids, target types and stored previous hashes can differ without changing the verdict: the verifiers look only at hashed fields and entry hashes. |
| AuditChain.PrefixValid | internal/audit/audit.go:170-180 | Cutting rows off the end of a valid log leaves a valid log. |
| AuditChain.AppendValid | internal/audit/audit.go:232-245 | A row whose entry hash is computed from the head keeps the chain valid. |
| AuditChain.VerifyChain | internal/audit/audit.go:170-180 | The batch verifier answers valid exactly when every link is right, and otherwise names the id of the first broken row. |
| AuditChain.VerdictUnique | internal/audit/audit.go:170-224 | A verdict is determined by the rows, so the batch and the incremental verifier cannot disagree. |
| AuditChain.ChainVerifier.Push | internal/audit/audit.go:204-214 | Pushing keeps the verifier state equal to what the batch definition says of the rows pushed so far, and extends them by one. |
| AuditChain.ChainVerifier.Done | internal/audit/audit.go:219-224 | The incremental verdict is the batch verdict on all rows pushed. |
| AuditLog.CommittedLogVerifies | internal/audit/repository.go:27-67 | For every interleaving of transactions that lock, read the head, insert any number of entries, commit or roll back: the ids of the committed table increase and its stored previous hashes are right, and a verifier accepts a row if and only if the time and payload text stored for it have the digest of what was hashed; the log verifies if and only if that holds of every row. |
| AuditLog.VerifiesWhenStoredAsHashed | migrations/002_user_security_audit.sql:36-46 | For well-formed rows that digest condition means: time and payload text are stored exactly as they were hashed, or the two hash inputs are a collision that can be computed from the row. |
| AuditLog.OneAppendFails | internal/audit/repository.go:50-67 | One append whose time or payload text is stored differently from what was hashed, on the empty table: the verdict is broken at id 1, or there is a collision. |
| AuditLog.ConfigChangeFails | internal/admin/config_handler.go:319-376 | The same at a named payload: one changed configuration key, which the database gives back with a space after the colon. |
| AuditLog.AppendOnly | internal/audit/repository.go:27-67 | No step changes or removes a committed row. |
| AuditLog.AuditRepository.Append | internal/audit/repository.go:27-67 | An append needs the advisory lock; it then adds one row that carries the administrator, action, target type, target and payload of the entry and the time of the call, hashed from the newest row the transaction can see, its own uncommitted ones included, and stored with the time and text the database chooses; it is exactly the three atomic steps of the state machine. |
| AuditLog.AuditRepository.Commit | internal/audit/repository.go:27-67 | Committing publishes the pending rows in order and releases the lock; other transactions keep their rows, their position and their lock. |
| AuditLog.AuditRepository.Rollback | internal/audit/repository.go:27-67 | Rolling back drops the pending rows and releases the lock; the table and other transactions are as before. |
| AuditLog.RowsAfterIsSuffix | internal/audit/repository.go:126-175 | In a table with increasing ids, the rows after the last delivered id are exactly the undelivered rest. |
| AuditLog.StreamAll | internal/audit/repository.go:126-175 | The paged walk ends, for every page size, even while rows are being committed between pages, and delivers the table as last read: each row once, in order. |
| AuditLog.VerifyLog | internal/audit/handler.go:92-112 | Streaming into the incremental verifier gives the verdict for the table as last read. |
| AuditLog.VerifyBothWays | internal/audit/audit.go:170-224 | On a table at rest both verifiers run, their two answers are equal, and they are the verdict on the table. |
| Normalizer.FindClosingFence | internal/content/normalize.go:207-237 | Although it skips past each failed occurrence, the search returns the least line start at or after the given position whose line is the fence and trailing blanks, and -1 exactly when there is none. |
| Normalizer.ClosingFenceTest | internal/content/normalize.go:207-237 | A closing fence line starts at a position exactly when the fence text occurs there, at the start of a line, with only blanks behind it. |
| Normalizer.SplitCodeRegions | internal/content/normalize.go:108-200 | The scanner terminates on every text, returns the texts of the specified regions, and their concatenation is the source. |
| Normalizer.FindFenceExact | internal/content/normalize.go:16-26 | The search for an opening fence returns the least line, at the start of the searched text or after a newline, of four or more equal hyphens or dots and then only blanks, to its end; and nothing exactly when there is none. |
| Normalizer.BlockIsCode | internal/content/normalize.go:133-171 | The first block with no backtick before it is a code segment, from the line that opens it through the least later line that repeats its text and the newline right behind that. |
| Normalizer.OpenBlockIsCode | internal/content/normalize.go:153-160 | A block that never closes is code to the end of the text. |
| Normalizer.SpanIsCode | internal/content/normalize.go:172-195 | The first backtick run with no block before it is code up to the end of the first later occurrence of the same run. |
| Normalizer.LoneRunIsUnmatched | internal/content/normalize.go:182-190 | A run that does not occur again is passed over together with the text before it. |
| Normalizer.RestIsOutside | internal/content/normalize.go:127-131 | Without backticks and blocks the whole rest is outside code. |
| Normalizer.CodeInRegions | internal/content/normalize.go:108-200 | What the scanner finds to be code is a code segment, and the rest is scanned as a text of its own. |
| Normalizer.RegionsLossless | internal/content/normalize.go:108-200 | For every text and position the regions concatenate to the rest of the text. |
| Normalizer.ParityExact | internal/content/normalize.go:108-200 | Even segments are outside and odd ones code if and only if no unmatched backtick run is followed by more text. |
| Normalizer.OutsideHasNoBacktick | internal/content/normalize.go:108-200 | No backtick is left outside code except in an unmatched run. |
| Normalizer.NormalizeDollarMath | internal/content/normalize.go:67-92 | The conversion loop renders every even segment and copies every odd one. |
| Normalizer.CodeIsCopied | internal/content/normalize.go:67-92 | Code that the scanner finds at an even turn is copied byte for byte, the text before it converted, and the rest treated as if it stood alone. |
| Normalizer.NormalizedAsIntended | internal/content/normalize.go:67-92 | The output is the intended one, code byte for byte and everything else converted, if and only if no segment whose position and kind disagree contains a formula; the same holds piece by piece; and so it always is when no unmatched backtick run is followed by more text. |
| Normalizer.FewDollarsNormalize | internal/content/normalize.go:67-92 | It is enough for that that no such segment has more than one dollar. |
| Normalizer.NoDollarsOutsideCode | internal/content/normalize.go:67-92 | A text with no dollar at the even positions comes out unchanged. |
| Normalizer.LoneBacktickShields | internal/content/normalize.go:185-190 | After a lone backtick the parity is off and the whole rest is left unconverted. |
| Normalizer.EarlyUnmatchedBreaksConversion | internal/content/normalize.go:185-190 | The text of a backtick followed by $a$ comes out unchanged, where the intended output has the formula converted: the two outputs differ. |
| Normalizer.ConvertedExactly | internal/content/normalize.go:244-267 | For every text with any number of inline and display formulas, touching or not: each inline formula becomes a macro with its body, each display a block around its trimmed body, and the text around them stays, if and only if behind an inline formula that touches the next formula there is no display and no further such formula. The display pass alone is right under the same condition. |
| Normalizer.FormulasConverted | internal/content/normalize.go:244-267 | In particular whenever all formulas are kept apart by text. |
| Normalizer.ConversionExact | internal/content/normalize.go:244-267 | The conversion changes a text if and only if it contains a display or an inline formula. |
| Normalizer.StrayDollarUnchanged | internal/content/normalize.go:244-267 | A text with at most one dollar contains no formula and is unchanged. |
| Normalizer.TouchingInlines | internal/content/normalize.go:244-267 | Two inline formulas that touch are both converted, although two dollars stand in the middle. |
| Normalizer.ThreeTouchingInlines | internal/content/normalize.go:244-267 | Of three that touch, the one in the middle is taken for a display and the outer dollars stay. |
| Normalizer.FirstPass | internal/content/normalize.go:245-256 | Under that condition the display pass replaces all displays and leaves every inline formula alone, whatever the replacement. |
| Normalizer.NoDollarUnchanged | internal/content/normalize.go:244-267 | A text without dollars is not changed by the conversion. |
| Normalizer.TrimExact | internal/content/normalize.go:250-253 | Trimming a display takes off exactly the white space on its two sides. |
| Normalizer.InlineSpelledOut | internal/content/normalize.go:258-264 | $a$ becomes stem:[a], letter by letter. |
| Normalizer.DisplaySpelledOut | internal/content/normalize.go:245-256 | $$a$$ becomes the stem block, letter by letter. |
| Normalizer.InjectIdempotent | internal/content/normalize.go:276-281 | Afterwards the stem header is there, the text is kept below it, and a second injection adds nothing. |
| Normalizer.InjectsExactly | internal/content/normalize.go:276-281 | A text is left alone exactly when some line begins with :stem:, any white space and latexmath; otherwise the header line comes in front. |
| CourseTree.LayeredRunner.TransitionNodeStatus | internal/agent/tree_repository.go:243-260 | The compare-and-set succeeds exactly when the node has the expected status; payload, place and all other nodes stay. |
| CourseTree.LayeredRunner.SetNodePayload | internal/agent/tree_repository.go:268-282 | The completion write sets payload and awaiting_review whatever the status was; the node keeps its place, and all other nodes stay. |
| CourseTree.LayeredRunner.FailNode | internal/agent/layered_runner.go:631-664 | The failure write sets failed whatever the status was; payload, place and all other nodes stay. |
| CourseTree.LayerAggregate | internal/agent/tree_repository.go:290-332 | Folding the grouped rows gives the numbers of approved and of failed nodes and of all others. |
| CourseTree.LayerSettleCounts | internal/agent/tree_repository.go:344-394 | Folding the grouped rows gives the nodes in flight, the nodes with content, and whether a nonempty layer failed altogether. |
| CourseTree.SettledSplit | internal/agent/tree_repository.go:344-394 | When nothing is in flight and nothing has content, all nodes of the layer have failed. |
| CourseTree.LayeredRunner.SeedTree | internal/agent/layered_runner.go:903-1017 | Afterwards there is a root, a node in the place of the syllabus below it, and a node in the place of each section goal; a root or syllabus that seeding inserts is approved, one that was there keeps its status and everything else, as does every other older row; section goals it inserts are pending, and nothing more is added. |
| CourseTree.LayeredRunner.ExpandToNextLayer | internal/agent/layered_runner.go:793-887 | Expansion is refused exactly for the last layer and for a layer that is not settled with an approved node; otherwise every approved node has all its children, one each or, for concepts, the configured number and three when none is configured; only fresh pending children are added, and the current layer becomes the next one. |
| CourseTree.LayeredRunner.SettleLayer | internal/agent/layered_runner.go:707-777 | The course moves on to approval exactly when nothing of the layer is in flight and something has content; all failed and empty layers are told apart, and nodes are not touched. |
| CourseTree.LayeredRunner.ResetStaleGeneratingNodes | internal/agent/layered_runner.go:176-199 | Exactly the nodes generating for more than ten minutes become pending again, no node is stale afterwards, and no payload or place changes. |
| CourseTree.ExpandAgainAddsNothing | internal/agent/layered_runner.go:793-887 | Repeating an expansion with the same approved nodes and count adds nothing. |
| CourseTree.LayersInOrder | internal/agent/layered_runner.go:41-105 | The layers form one chain from the root to the content. |
| CourseTree.InsertsExactly | migrations/022_tree_generation.sql:132-173 | An insert takes effect exactly when the constraints of the table leave room for it. |
| CourseTree.RejectedExactly | internal/agent/node_handler.go:614-638 | Feedback reaches exactly the nodes under review, and the reset of a layer exactly its rejected nodes. |
| LayeredRuns.EveryRunKeepsTheBasics | internal/agent/layered_runner.go:793-1017 | Over every interleaving of seed, expand, single-node requests, claim, payload write, failure, approval, feedback and resets, from any tree the constraints admit: at most one root, no sibling position used twice, every other node below an existing node, the nodes of the start in their places, and concepts and contents neither given at the start nor requested singly only below nodes that had been approved. |
| LayeredRuns.LayeredExactly | internal/agent/node_handler.go:287-440 | Every node lies exactly one layer below its parent if and only if that was so at the start and every accepted single-node request named the layer below the parent it gave. |
| LayeredRuns.ContentBelowRoot | internal/agent/node_handler.go:287-440 | A single-node request for a content below the root breaks the layers. |
| LayeredRuns.GoalBelowPendingSyllabus | internal/agent/layered_runner.go:793-1017 | A run from the empty table in which the root is expanded during the seed: the first section goal hangs below a syllabus that was never approved. |
| LayeredRuns.EveryRunKeepsTheTree | internal/agent/layered_runner.go:793-1017 | From a layered tree within bounds, the empty one included, and with single-node requests in the right layer: it stays layered, and with s sections and c concepts it has at most 2 + s + 2sc nodes. |
| LayeredRuns.StepKeepsInv | internal/agent/node_handler.go:614-638 | Every single step keeps the tree invariants from which these follow, unconditional writes included, as far as the step itself permits. |
| LayeredRuns.EverMeansEarlier | internal/agent/node_handler.go:796-813 | A node remembered as approved really was approved at an earlier point of the run, whatever tree the run starts from. |
| LayeredRuns.TreeSize | internal/agent/layered_runner.go:837-870 | The bound on the number of nodes follows from unique siblings and bounded orderings, layer by layer. |
| LayeredRuns.ClaimsAreSeparated | internal/agent/tree_repository.go:243-260 | Between two successful claims of one node lies a payload write, a failure or a stale reset of that node. |
| LayeredRuns.LeavingGenerating | internal/agent/layered_runner.go:176-199 | The only ways out of generating are a payload write, a failure and a stale reset. |
| LayeredRuns.EnteringGenerating | internal/agent/layered_runner.go:369-378 | The only way into generating is a winning compare-and-set. |
| LayeredRuns.StatusesExactly | internal/agent/tree_repository.go:243-282 | The status and the payload of every node after any step. |
| LayeredRuns.CallsExactly | internal/agent/layered_runner.go:793-1017 | Calls begin by being started, with five sections when none is configured, and end by being aborted or by their own last statement. |
| LayeredRuns.SeedCompletes | internal/agent/layered_runner.go:985-1003 | From any state, a seed that is left to itself fills the place of every section and ends. |
| LayeredRuns.ExpandCompletes | internal/agent/layered_runner.go:850-880 | And an expansion all the places below all the nodes it has listed. |
| LayeredRuns.ExactlyOneWins | internal/agent/node_handler.go:1032-1054 | Of any number of claimers that read the same status exactly one wins. |
| LayerPool.EveryScheduleSettles | internal/agent/layered_runner.go:214-298 | For every schedule of the five workers each eligible node is claimed exactly once and ends awaiting_review or failed, other nodes stay as they are, and the layer goes on to approval unless it is empty or all failed, reported as failed exactly when it is nonempty and all failed. |
| LayerPool.ReviewsBounded | internal/agent/layered_runner.go:504-623 | With the counter shared by all workers and by earlier layers of the run, at most m-1 regenerations, those that break included (less what was used up before), and at most one review more per node, with never more than five workers busy. |
| LayerPool.ContentEndings | internal/agent/layered_runner.go:504-623 | When neither the model nor the reviewing agent breaks, each content node ends approved by that agent, escalated, or failed on the budget. |
| LayerPool.EndingsExplained | internal/agent/layered_runner.go:504-623 | For every schedule, a worker has passed review if and only if its last answer was the approval of the reviewing agent; budget failures, broken generations and broken reviews likewise; and an escalated worker was disapproved of last, with the counter at the limit. |
| LayerPool.EscalatesExactly | internal/agent/layered_runner.go:553-564 | An increment is followed by escalation exactly when it brings the counter to the limit, and by a regeneration otherwise. |
| LayerPool.DisapprovalsRegenerate | internal/agent/layered_runner.go:527-623 | Every disapproval leads to one regeneration, good, broken or refused by the budget, unless the worker is still on the way to it or is escalated. |
| LayerPool.CountersExact | internal/agent/layered_runner.go:504-623 | The counters of a run are the numbers of reviews, of counted disapprovals and of regenerations. |
| LayerPool.DispatchedInOrder | internal/agent/layered_runner.go:255-297 | Nodes are taken up in the order of the list. |
| LayerPool.WaitingMeans | internal/agent/layered_runner.go:255-297 | A node is dispatched exactly when the one before it has been and fewer than five are busy. |
| LayerPool.ClaimsExactly | internal/agent/layered_runner.go:369-386 | A worker claims its node exactly when it still has the status that was read, and otherwise changes nothing. |
| LayerPool.EveryScheduleEnds | internal/agent/layered_runner.go:214-298 | No schedule makes more than 5n + 3(m-1) + 1 moves. |
| LayerPool.NoDeadlock | internal/agent/layered_runner.go:255-297 | Until the layer is settled some move is possible. |
| LayerPool.WorkKeepsInv | internal/agent/layered_runner.go:351-486 | Each worker action keeps the correspondence between the phase of a worker and the status of its node. |
| LayerPool.SettleOf | internal/agent/layered_runner.go:707-777 | What the settle check concludes, read off the final statuses. |
| LayerPool.SettleChecksAgree | internal/agent/layered_runner.go:707-777 | The check of the pool model and the settle operation on the table conclude the same. |
| Poller.OnePolledRunnerPerCourse | internal/agent/runner.go:408-428 | In every run a course has at most one runner started by the poller's guarded tick, and a listed course gets one exactly when it has none of these. Seeding runners are not covered by the guard. |
| Poller.OverlapExactly | internal/agent/runner.go:257-282 | Counting seeding runners too, no course ever has two runners at once if and only if no course is dispatched while it is being seeded, or seeded while it has a runner. |
| Poller.SeededCourseGetsTwo | internal/agent/layered_runner.go:1005-1023 | A run from the start in which it does: a course is approved, its seeding runner sets it to generating, the tick lists it and starts a second runner beside the first. |
| Poller.DispatchedIsDue | internal/agent/runner.go:379-428 | A course a runner is started for is still generating or to be regenerated, unless its status was written after the listing. |
| Poller.ListsExactly | internal/agent/runner.go:379-402 | A listing holds at most twenty courses, none twice, each generating or to be regenerated, and every such listing is possible. |
| Poller.SeedsExactly | internal/agent/runner.go:257-282 | A course is seeded exactly when its syllabus is approved. |
| Poller.ListedInOrder | internal/agent/runner.go:408-428 | The listed courses are worked off in order, one after the other. |
| Poller.ListedCourseStartedAgain | internal/agent/runner.go:411-428 | Whenever a course is listed while its runner is at work, the runner can end, leave it waiting for approval, and be started again all the same. |
| Poller.SettledCourseStartedAgain | internal/agent/runner.go:411-428 | Such a run from the start, which ends with a runner in flight for a course that waits for approval. |
| ReviewLoop.EffectiveMax | internal/agent/runner.go:653-660 | The limit is always positive, and is the configured one when that is. |
| ReviewLoop.AgentRun.IncrementIteration | internal/agent/repository.go:104-120 | The stored counter goes up by one and the new value is returned, or nothing changes. |
| ReviewLoop.AgentRun.RunReviewLoop | internal/agent/runner.go:651-697 | The review loop refines its specification: which content is reviewed when, how the counter moves, and how it ends. |
| ReviewLoop.AgentRun.GenerateAllSections | internal/agent/runner.go:581-643 | Sections are generated in order until the first error. |
| ReviewLoop.SectionOutcome | internal/agent/runner.go:651-697 | Absent errors a section passes with the first approval among the reviews the counter still allows, and is escalated exactly when there is none. |
| ReviewLoop.SectionExplained | internal/agent/runner.go:651-697 | Whatever fails: every review but the last was a disapproval, counted below the limit and answered by a new content; the last one ends the section, passed exactly when approved, escalated exactly when disapproved and counted at the limit, and stopped otherwise, by an error of the reviewing agent, the counter or the professor; and the counters follow. |
| ReviewLoop.SectionBounds | internal/agent/runner.go:651-697 | Whatever fails, a section uses no more regenerations than the shared counter allows, and one review more at most. |
| ReviewLoop.RunBounds | internal/agent/runner.go:581-697 | A run with limit m and n sections makes at most m-1 regenerations and n+m-1 reviews, and reviews every content exactly once, in order of writing. |
| ReviewLoop.RunStops | internal/agent/runner.go:581-643 | The first section that stops or is not generated is the last one. |
| ReviewLoop.EverySectionEnds | internal/agent/runner.go:581-697 | Absent errors each of the n sections ends passed or escalated, escalation means the limit was reached, and there are n reviews and one for each regeneration. |
| DraftCopy.AssignmentRepository.CopyDraftNodesToCourse | internal/admin/assignment_repository.go:308-382 | The copy loop with its id map and early returns refines the specification of the copy. |
| DraftCopy.AssignmentRepository.InsertCourseNode | migrations/022_tree_generation.sql:132-173 | The insert succeeds exactly when the constraints of course_nodes allow it. |
| DraftCopy.CopyIsIsomorphic | internal/admin/assignment_repository.go:346-379 | A copy that succeeds gives each draft node its own new id, and the course is isomorphic to the draft: types, orderings, parent relation both ways, every nonempty payload unchanged and an empty one as {}, all pending, nothing else. |
| DraftCopy.CopyOutcome | internal/admin/assignment_repository.go:308-382 | The outcome is decided by the first node that is an orphan or that the constraints refuse: ordering error, insert error, or success exactly when there is none. |
| DraftCopy.ParentsFirstSuffices | internal/admin/assignment_repository.go:346-360 | Among lists the constraints do not refuse, the copy succeeds exactly for parents-first lists and fails on the ordering check exactly when some parent does not occur earlier. |
| DraftCopy.ParentlessNodeFails | migrations/022_tree_generation.sql:146-150 | Parents first alone is not enough: a second node without a parent makes the copy fail. |
| DraftCopy.AssignmentService.AssignOneStudentDraft | internal/admin/assignment_service.go:224-279 | Course and nodes appear together on success; any failure leaves the courses as they were. |
| DraftCopy.AssignmentService.AssignStudents | internal/admin/assignment_service.go:122-153 | The loop sorts the answers into created and failed, each student once and in order. |
| DraftCopy.KindsPartition | internal/admin/assignment_service.go:122-153 | The two lists hold every answer once, the created ones and the refusals. |
| DraftCopy.KindsKeepOrder | internal/admin/assignment_service.go:122-153 | And each in the order of the request. |
| DraftCopy.AssignmentsAreAllOrNothing | internal/admin/assignment_service.go:122-153 | In a request for any list of students, repeated ones included: a failure leaves nothing behind, a course is there exactly when its answer says so and is a full copy, and older courses are untouched. |
| DraftCopy.AnswersInTurn | internal/admin/assignment_service.go:224-279 | Each answer is the one the student would get alone, read off the draft and the courses there were, except that a student served earlier in the request is refused as having an active course. |
| DraftCopy.AssignmentsAreIndependent | internal/admin/assignment_handler.go:247-255 | Told before the call, from the request, the draft and the courses: a student is refused as having an active course if an earlier entry for the same student alone would have been given one, everyone else gets the answer they would get alone; so all answers are those if and only if there is no such repetition. |
| DraftCopy.SameStudentTwice | migrations/003_course.sql:39-41 | At one student named twice: the second answer is a refusal, although alone it would be a course. |
| DraftCopy.CopyCanBeRun | internal/admin/assignment_repository.go:308-382 | A copied tree is one the constraints admit, so all runs on it are covered by the theorems on runs. |
| DraftTree.DraftCopiesExactly | internal/admin/assignment_repository.go:308-382 | For every run of create, generate and expand steps with any creation times, equal ones included: the listing has parents first if and only if every parent is before its child by creation time or, in a tie, by id; and the copy succeeds if and only if that holds and every node but the root has a parent. |
| DraftTree.EveryDraftCopies | internal/admin/draft_handler.go:631-708 | In particular, with strictly increasing creation times every run yields a parents-first list, and its copy succeeds if and only if every node but the root has a parent. |
| DraftTree.ParentsAreAlwaysGiven | internal/admin/draft_handler.go:650-680 | Only a generate request without a parent can produce a node without one. |
| DraftTree.ListingIsInsertionOrder | internal/admin/assignment_repository.go:314-321 | With increasing creation times the copy order is the order of insertion. |
| DraftTree.TiesBreakTheCopy | internal/admin/assignment_repository.go:310-321 | A draft with equal creation times whose copy fails: the id tie-break puts a child before its parent. |
| DraftTree.DraftRepository.CreateDraftNode | internal/admin/draft_repository.go:429-458 | The row is appended exactly when the table accepts it. |
| DraftTree.DraftRepository.ExpandLayer | internal/admin/draft_handler.go:1394-1444 | The handler refuses the last layer and a layer not fully approved, and otherwise appends the children the table accepts, counting them. |
| DraftTree.ReadyMeansApproved | internal/admin/draft_repository.go:642-672 | The gate on the three counts opens exactly when the layer has a node and all its nodes are approved. |
| DraftTree.ExpansionFills | internal/admin/draft_handler.go:1431-1446 | After an expansion the i-th node of the layer has a child in place i. |
| DraftTree.ExpansionAppends | internal/admin/draft_handler.go:1431-1446 | An expansion only appends, and only pending children of the layer's nodes, in the next layer. |
| DraftTree.ExpansionTimes | internal/admin/draft_handler.go:1431-1446 | Its children are created one after the other, after its start. |
| DraftTree.ExpansionsExactly | internal/admin/draft_handler.go:1394-1430 | Where an expansion stands and what moves it on: the gate, the listing of the whole layer, the next layer. |
| DraftTree.RowsExactly | internal/admin/draft_handler.go:631-708 | What every request does to the rows of a draft. |
| ThrottledClient.DelayIsExact | internal/agent/client.go:127-146 | In 64-bit nanoseconds nothing overflows: the delay is the smaller of 2^attempt and 60 seconds and the jitter bound is positive. |
| ThrottledClient.DelayNeverShrinks | internal/agent/client.go:127-146 | Delays never get shorter from one attempt to the next. |
| ThrottledClient.Retry | internal/agent/client.go:113-163 | At most retryLimit calls; exhaustion exactly when every attempt was turned away and slept through (or the limit is not positive); otherwise the last call's answer decides; the time slept is one second, doubled up to a minute, with its jitter for each call that was turned away and slept through, and below 75 seconds times the limit. |
| ThrottledClient.Client.Messages | internal/agent/client.go:70-184 | The cap refuses before any call; tokens are added exactly for an answered call and to that row alone. |
| ThrottledClient.UsageBounded | internal/agent/client.go:172-184 | With at most K calls of a row in flight and at most T tokens a call, recorded usage never exceeds cap - 1 + K*T, for course rows and draft rows, in any interleaving. |
| ThrottledClient.BoundIsTight | internal/agent/node_chair.go:56-70 | The bound is reached by K calls that all check before any records. |
| ThrottledClient.SpentAdmitsNone | internal/agent/node_chair.go:131-143 | Once the cap is reached no call is let through; only those in flight still add. |
| ThrottledClient.CountersMove | internal/agent/client.go:70-184 | A call enters by a check that finds its row below the cap, and leaves by recording its tokens or by giving up; nothing else moves the two counters of a row. |
| SecretCache.BoundedStaleness | internal/admin/secrets.go:105-118 | Under any interleaving a Get returns a value the source held at some moment within the thirty seconds before the call or during it, and not after its return. |
| SecretCache.InvalidateTakesEffect | internal/admin/secrets_handler.go:233-240 | When no read of an outdated value with time to live left is pending at an Invalidate, every Get that starts afterwards, in every continuation, returns a value current at that moment or later. |
| SecretCache.PendingReadSurvives | internal/admin/secrets.go:112-117 | Such a pending read is stored after the Invalidate, and the next Get is served its value, which was not current at the Invalidate or since. |
| SecretCache.InvalidateExactly | internal/admin/secrets.go:105-128 | So an Invalidate takes effect if and only if no such read is pending. |
| SecretCache.OldValueServed | internal/admin/secrets.go:112-117 | A run from the start in which it does not: read, commit of a new value, Invalidate, store, and the next Get is served the old value. |
| SecretCache.SecretProvider.Get | internal/admin/secrets.go:105-118 | An undisturbed Get answers from an entry that has not expired; else with the stored value, or the environment when there is none or it cannot be decrypted, or the empty text, and stores it with the expiry counted from its start. |
| SecretCache.GetInOrder | internal/admin/secrets.go:105-118 | The statements of a Get come in their order, and nothing else moves it on. |
| SecretCache.MomentsExact | internal/admin/secrets.go:105-128 | The clock and the source move by ticks and commits alone. |
| SecretCache.CommitIsSeen | internal/admin/secrets.go:151-185 | Every read after a commit sees the new row, or the environment when the row is gone or cannot be decrypted; other names are not affected. |
| SecretCache.SecretProvider.Invalidate | internal/admin/secrets.go:124-128 | The entry of that name is dropped, so the next Get misses at any time; entries of other names are hit as before. |
| TwoFactor.EveryRowIsBounded | internal/auth/twofactor.go:226-381 | Over every interleaving of verify, resend, re-login and reset: a row yields at most one session, not after its expiry, and at most five wrong-code verdicts whose transaction commits; its resends are at most ten and k of them take at least (k-1) minutes; while it lives it has fewer than five failures and no session. |
| TwoFactor.CodesDecide | internal/auth/twofactor.go:298-358 | Over all runs: a session enters a row's ledger exactly when a verification ends in time with the code of the row it has read; a wrong code is counted, or lost with a failed commit, exactly when the code differs and the row is still there. |
| TwoFactor.RemovedMeanwhile | internal/auth/twofactor.go:298-358 | When the row has been removed meanwhile, a right code in time still gives the session, and a wrong one is an internal error. |
| TwoFactor.SeenWasThere | internal/auth/twofactor.go:257-296 | The row a verification has read was in the table at an earlier moment. |
| TwoFactor.RowLockExactly | internal/auth/twofactor.go:257-296 | The lock of a row is taken when it is free and the row is there, and kept with that row until the verification ends. |
| TwoFactor.UserLockExactly | internal/auth/twofactor.go:430-462 | The lock of a user is taken by a resend when it is free, and kept with the row it has read until the resend ends. |
| TwoFactor.RowsGoExactly | internal/auth/twofactor.go:298-506 | A row comes by its insertion alone, good for ten minutes, and goes exactly by a removal, a right code, a fifth failure, or an answer that comes too late. |
| TwoFactor.GuessesBounded | internal/auth/twofactor.go:304-345 | Counting the wrong-code answers whose transaction did not commit as well: at most five when every commit succeeds, and at most one more for each that fails. |
| TwoFactor.GuessesReached | internal/auth/twofactor.go:304-345 | For every k there is a run with k failed commits in which a row answers 5 + k wrong codes: the bound is reached. |
| TwoFactor.CapExactly | internal/auth/twofactor.go:304-345 | Over all runs and rows with at most k failed commits, n bounds the wrong codes answered if and only if n is at least 5 + k; so the cap of five holds if and only if k is 0. |
| TwoFactor.LostGuessesUnbounded | internal/auth/twofactor.go:304-345 | For every n there is a run in which one row answers n wrong codes, all with failed commits, and is still there with no failure recorded. |
| TwoFactor.RowsOnlyAge | internal/auth/twofactor.go:401-538 | No step extends a row's expiry or takes back failures; only a verification adds one, only a resend changes the code. |
| TwoFactor.ResendGoesOut | internal/auth/twofactor.go:472-506 | A resend comes a minute or more after the last and is not the eleventh: within ten minutes the daily window never restarts. |
| TwoFactor.VerifyKeepsInv | internal/auth/twofactor.go:257-360 | A verification keeps row, lock and counts consistent although removals and resends can come between its read and its write. |
| TwoFactor.ResendKeepsInv | internal/auth/twofactor.go:430-510 | So does a resend, which holds another lock than verifications. |
| TwoFactor.PendingTable.VerifyOTP | internal/auth/twofactor.go:298-358 | Undisturbed: invalid exactly for an unknown or expired row; otherwise a session exactly when the submitted code equals that of the row, too many attempts or a wrong code with the attempts left exactly when it differs; the row stays, with one failure more, only for a wrong code, and other rows are untouched. |
| TwoFactor.PendingTable.ResendOTP | internal/auth/twofactor.go:462-506 | Undisturbed: expiry, then the minute since the last resend, then ten in a window of a day; a resend writes the new code, the time and the count, and every other outcome but expiry leaves the row as it is. |
| TwoFactor.PendingTable.CreatePending | internal/auth/repository.go:243-283 | The user's older rows and long expired ones go, other rows stay, and a fresh row is there. |
| ChatTurns.BuildMessages | internal/agent/chair.go:575-601 | The merging loop yields exactly one turn for each maximal run of messages of one side. |
| ChatTurns.TurnsAlternate | internal/agent/chair.go:575-601 | Roles strictly alternate and the first is that of the first message. |
| ChatTurns.NothingIsLost | internal/agent/chair.go:575-601 | Joining the turns by newlines gives the joined history: no message is lost, repeated or moved. |
| ChatTurns.TurnsExtend | internal/agent/chair.go:583-594 | One more message is merged into the last turn when the sides agree and starts a turn otherwise. |
| ChatTurns.IntakeAnchored | internal/agent/chair.go:607-616 | For every history the intake call is nonempty, alternates and starts with a user turn, and only a missing opening is added. |
| ChatTurns.ContinueAnchored | internal/agent/chair.go:624-632 | The continued conversation alternates and, unless empty, starts with a user turn. |
| ChatTurns.SyllabusAnchored | internal/agent/chair.go:643-661 | The syllabus call is nonempty, alternates, and starts and ends with a user turn; the history is kept in between. |
| ChatTurns.NodeRequestAlternates | internal/agent/node_chair.go:407-413 | The request for a node alternates if and only if the node chat is empty or ends with the assistant. |
| ChatTurns.BuildNodeMessages | internal/agent/node_chair.go:407-453 | The node chat is merged by the same rule, and the request is appended unmerged. |
| ChatTurns.BuildMessagesForIntake | internal/agent/chair.go:607-616 | The turns sent for intake are nonempty, alternate and start with a user turn. |
| ChatTurns.BuildMessagesForSyllabus | internal/agent/chair.go:643-661 | The turns sent for the syllabus are nonempty, alternate, and start and end with a user turn. |
| Grading.LateDaysCount | internal/grade/service.go:97-101 | A late day is counted as soon as it has begun, and not before. |
| Grading.PenaltyBounds | internal/grade/service.go:110-118 | The penalty lies between nothing and the raw score and takes all of it exactly when rate times days reaches one. |
| Grading.FinalInRange | internal/grade/service.go:110-147 | The final score lies between 0 and the raw score, equals it in time or with a waiver, and is 0 exactly when the penalty has eaten it up. |
| Grading.FinalExact | internal/grade/service.go:97-147 | A late submission loses the rate, 5% when none is configured, for each day begun, until nothing is left. |
| Grading.LaterIsNoBetter | internal/grade/service.go:97-118 | Without a waiver the final score never rises with lateness. |
| Grading.WaiversAreSpentOnce | internal/grade/service.go:120-140 | Over any interleaving of grading calls, awards and other redemptions, a penalty is zeroed only by the student's own waiver, redeemed for that submission, and no waiver zeroes two. |
| Grading.CallsExact | internal/grade/service.go:120-140 | Every request is a call of its own, over without a search exactly when there is nothing to deduct. |
| Grading.CallSteps | internal/grade/service.go:120-140 | A search ends unwaived or with a free waiver of the student's, and the penalty is waived exactly when that badge is still unredeemed at the redemption. |
| Grading.BadgeSteps | internal/badge/repository.go:145-257 | A badge row comes by its award and is redeemed for good by the first redemption. |
| Grading.GradeService.ComputeAndStoreGrade | internal/grade/service.go:80-172 | Undisturbed: a waiver is used exactly when there is a penalty and a free waiver; the stored grade follows. |
| Grading.GradeService.FindUnredeemedWaiverBadge | internal/grade/service.go:271-282 | The search finds a free waiver exactly when the student holds one. |
| Grading.GradeService.RedeemBadge | internal/badge/repository.go:233-257 | A badge is redeemed exactly when it is held and unredeemed, for that submission and for good; reward and value stay, and so does every other badge. |
| Grading.GradeService.AwardBadge | internal/badge/repository.go:145-177 | A badge is awarded at most once to a student. |
| Grading.AverageWithin | internal/grade/repository.go:219-238 | With positive weights the course average lies between the least and the greatest final score. |
| Grading.AssignDueDates | internal/agent/chair.go:286-312 | One homework for each section in order, equal weights, due dates a week apart; no sections is an error. |
| Grading.AssignedWeightsGiveMean | internal/agent/chair.go:286-298 | With the assigned weights the average is the plain mean of the final scores graded so far, and all weights together make one. |
| Grading.AverageIgnoresOrder | internal/grade/repository.go:219-238 | The average does not depend on the order of the rows. |
| Grading.CourseScoreInRange | internal/grade/service.go:181-213 | After improvements the course score is not below the average and not above 100. |
| Grading.GradeService.ImprovedScore | internal/grade/service.go:195-210 | The loop adds the unredeemed improvement badges and caps the sum. |
| Grading.ImprovementOfOne | internal/grade/service.go:195-210 | A badge adds its value exactly when it is an unredeemed improvement. |
| Grading.ImprovementJoins | internal/grade/service.go:195-210 | The badges of two lists add up. |
| Grading.ImprovementCapped | internal/grade/service.go:195-213 | An improvement that is worth something is added, up to 100. |

Helper lemmas and specification functions without a row serve the members above.

## Left out

Stated weaker or under an assumption:

- AuditLog.AuditRepository.Append: what the database stores in place of the hashed time and payload text is arbitrary; its clock and the formatting of `jsonb` are not modelled beyond that.
- AuditLog.CommittedLogVerifies: waiting for the lock is a step that does nothing until the lock is free; deadlock and fairness of the database are not modelled.
- AuditChain.HashInputInjective: holds for the field formats it lists; redaction and canonical JSON encoding of payloads are not modelled, a payload is a text.
- LayeredRuns.EveryRunKeepsTheBasics: that a section goal's parent had been approved is not claimed, because it is false: `LayeredRuns.GoalBelowPendingSyllabus`. Of a single-node request only the insert is a step of its own, its claim being one of the claims.
- LayerPool.EveryScheduleSettles: assumes that connections succeed and that nobody else touches the layer, as the protocol does; a cancelled context, which stops dispatching, is not modelled.
- Normalizer.ConvertedExactly: formulas are not empty, inline ones are on one line, and there are no other dollars; other texts are covered by the definition of the conversion and by `Normalizer.ConversionExact`. White space that is trimmed is the ASCII one.
- Normalizer.SplitCodeRegions: strings are sequences of characters, not of bytes; all characters the scanner looks for are single bytes, so cuts fall in the same places.
- ReviewLoop.EverySectionEnds: events, notifications and the text of the feedback are not modelled.
- DraftTree.DraftCopiesExactly: deleting a whole draft is not a step.
- DraftCopy.AssignmentService.AssignOneStudentDraft: whether the student is active, and whether the commit succeeds, are answers of the database; courses that are archived or completed meanwhile are not modelled.
- ThrottledClient.Retry: cancellation is an answer of the outside; the part of a delay slept before a cancellation is not counted.
- ThrottledClient.UsageBounded: token counts are unbounded integers; the two bounds K and T are enforced by the steps.
- SecretCache.BoundedStaleness: database reads succeed; a failing read falls back to the environment, whose value would then be cached.
- TwoFactor.EveryRowIsBounded: wrong-code answers whose transaction does not commit are counted apart; `TwoFactor.GuessesBounded` and `TwoFactor.CapExactly` are about them.
- Grading.FinalInRange: reals instead of floating point; the configured rate is not negative.

Not modelled:

- HTTP routing, authentication of requests, JSON, event streams, cookies, migrations, row-level security.
- Prompts and answers of the model and of search, mail delivery, rendering, image handling, encryption and password hashing, the internals of SHA-256.
- The order in which the poller lists courses, and what it does when there are more than twenty; flat courses, which are started outside the guard as seeding runners are.
- Poller: the run record that stops a course from being seeded again is not kept; a course can be seeded whenever its syllabus is approved.
- The estimate behind the per-layer token budget: its check is an arbitrary answer in the worker pool.
- Keyset listings of courses, assignments and drafts; withdrawing, resuming and publishing courses; configuration, oversight and notifications, which are reads and single guarded updates.
