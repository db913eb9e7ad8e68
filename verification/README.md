# A verified model of the memory kernel

The repository keeps long-term memory for a coding agent: an event-sourced mutation ledger with
snapshots, a planner that decides what may be forgotten, an authenticated conversation log with a
protocol of candidates and decisions on top of it, summaries that can be rolled back, retrieval with
hard filters, and the bounding of the model's own context.  This project models those parts in Dafny
and proves what they promise, over every input and over whole runs.

How the modules fit together:

- `Mutations`, `MutationLedger`, `MutationRuns`: the ledger on values, the ledger object, and runs in
  which clients read, submit, retry, compact and reopen; `MutationOutcomes`: when a mutation commits, why
  it is refused, and what it leaves behind.  `Continuity`, `RetentionRuns`, `ContinuityRecall`: the capacity
  planner, runs that apply only admitted plans, and the selection of what a new session sees;
  `RetentionOrder` and `RecallOutcomes`: who leaves and what is selected, over nothing but the records.
- `TailScan`, `HmacChain`, `ConversationLedger`: the backward line scan, the chain of authenticated
  envelopes, and the log files as text; `LedgerOutcomes`: each refusal of the log.  `ConversationMemory`,
  `ConversationRuns`, `ConversationProcesses`: the check that reads everything back, runs of the operations
  that write it, and interleavings of processes that resolve a candidate before they decide it;
  `ConversationOutcomes`: what the check asks for and what each operation needs.
- `ContextCompaction`, `CompactionGuarantees`, `CompactionPairing`: bounding a message history;
  `CompactionInputs`: its answer in terms of the history alone; `LostBlock` is a history that it cuts short.
  `Checkpoints`, `Formation`, `FormationOutcomes`: the checkpoint forest and the incremental batches.
- `GraphExpansion`, `Retrieval`, `RetrievalScores`: the bounded breadth-first search, the filters, the
  decision to use memory and the fused score; `PassedOver` is a retrieval from the store's answers to the
  decision.  `ShadowFamilies`, `ShadowJournal`, `ShadowRuns`, `ShadowOutcomes`: the shadow journal.
  `VerificationMatrix`, `EmbeddingCache`, `MemoryControl`: the smaller cores.
- `CanonicalJson`, `CanonicalFormat`, `JsonPrefix`, `Ordering`, `Text`, `Traces`: canonical JSON printed and
  parsed (section 7 of RFC 8259 for strings), sorting, white space, and runs of state machines.

Where the source changes state step by step the model does too: objects are classes, loops are loops,
and each method is proved against a specification whose properties are then proved as lemmas.
HMAC-SHA-256 (section 2 of RFC 2104) and SHA-256 are functions about which nothing is assumed; a
result that needs them free of collisions says on which texts.  The modules named after outcomes, orders,
inputs, scores and formats describe results over the inputs alone, without the functions that compute them.

## What the proofs found

- A log file that ends inside a line is spoilt by the next append, although the append succeeds:
  `ConversationLedger.AppendExactly` says exactly when an append leaves a readable log,
  `ConversationLedger.UnfinishedLogIsSpoilt` is a log of one row that it spoils.
- Reopening a mutation ledger from an older snapshot starts revision numbers over.  A client whose
  view the snapshot does not cover can then commit on a state it never read: the exact condition is
  `MutationRuns.ViewsSoundExactly`, a run in which it happens `MutationRuns.LossyReopenRun`.
- Where compactions fall does not matter to the commits, the state and the views if and only if no
  reopening loses a commit (`MutationRuns.CompactionTransparent`); two runs that differ only in the
  placement of a compaction and end with different logs are `MutationRuns.PlacementShows`.  Both these
  runs need a change that the schemas admit; `MutationRuns.SomeChangeIsAdmissible` is one.  What
  compaction does change is the answer to a retry: a conflict instead of a replay
  (`MutationRuns.RetryAfterCompaction`, `MutationRuns.RetryOfCommitted`).
- The selector for a new session is documented to consider core facts before durable ones, but a
  durable fact precedes a core one if and only if it alone is pinned
  (`ContinuityRecall.CoreFirstUnlessPinned`), and then it can take the core fact's place
  (`ContinuityRecall.PinnedDurableDisplacesCore`).
- Nor does the selector ask for unique identifiers, without which a core fact can be dropped without a
  report (`ContinuityRecall.SharedIdHidesADrop`).  As long as there is room for every text, that never
  happens, whatever the number of items, if and only if every core fact is ranked before all other
  eligible records with its identifier (`ContinuityRecall.CompleteExactly`).  When texts do not all fit
  there is no such clean condition: a later namesake that is shorter can get in where a core fact did
  not (`ContinuityRecall.ShorterNamesakeHidesADrop`), depending on the lengths of all texts before it.
  Facts without an earlier or shorter namesake are safe under every budget
  (`ContinuityRecall.NoCoreDroppedSilently`).
- The last resort of context compaction, a summary cut down once more, can never succeed: the room for
  it counts 64 characters for the message besides its text, which takes 68 with its two empty lists
  (`CompactionGuarantees.NoLastResort`).  Blocks that the final loop drops are in neither the summary
  nor the result: exactly when that happens is part of `CompactionGuarantees.Shape`, and
  `LostBlock.ChosenBlockIsLost` is a history whose latest message is lost, with the summary the code writes.
- Two processes that resolve the same pending candidate before either decides both record a decision,
  since the lock covers only the append; the check then fails for good
  (`ConversationProcesses.RaceRun`, `ConversationRuns.RaceIsReported`).  However processes interleave,
  this is the only way it can fail (`ConversationProcesses.InterleavingsVerifyExactly`).
- In a family of several values the shadow journal makes an assertion active that is older than a
  request to forget (`ShadowRuns.ForgottenAndActive`); in a family of one value it does not
  (`ShadowRuns.LateCandidates`).
- When a question asks for a chain, the best-ranked card can be passed over, exactly if the graph
  neither starts from it nor reaches it with a score of at least 0.25 (`Retrieval.UseHasItems`);
  `PassedOver.BestIsPassedOverInARun` is a retrieval in which it is.
- Two harmful failures suppress a memory for good only as long as nothing else dilutes them: two harmless
  failures, without any success, bring a memory with the score 0.9 back above the threshold, while one
  does not for any score that retrieval gives, at most 0.9125
  (`MemoryControl.MissesDiluteHarm`; the exact condition is `MemoryControl.SuppressedExactly`).

## Model

| member | source | states |
|---|---|---|
| MutationRuns.EveryRunFolds | src/memory_core/mutations.py:303-446 | In every run of reads, submissions, retries, compactions and reopenings the state is the fold of the committed mutations from nothing, the revision is their number, they form one gap-free chain of bases, and the latest snapshot reads back as the state it covers |
| MutationRuns.RunKeepsInv | src/memory_core/mutations.py:333-446 | The same for any snapshot codec that round-trips, together with what the ledger still holds of the log and what the snapshot's lineage names |
| MutationRuns.StateIsLastWrite | src/memory_core/mutations.py:394-415 | A key is in the state exactly if some commit is about it; its value is the one of the last value-bearing commit, all else comes from the last commit |
| MutationRuns.StateFitsSchemas | src/memory_core/mutations.py:357-392 | In every run active facts carry a value their schema accepts and no fact has more authority than the schema of its last mutation allows |
| MutationRuns.NoneTwiceNoRivals | src/memory_core/mutations.py:102-103 | No mutation commits twice, even after compaction forgets its identifier, and of rivals on one base at most one commits |
| MutationRuns.CommitsOnWhatWasRead | src/memory_core/mutations.py:333-355 | Serialisability: under any interleaving a submitted mutation that commits is applied to exactly the state its author read, as long as no reopening loses what somebody has read |
| MutationRuns.ViewsSoundExactly | src/memory_core/mutations.py:303-355 | Over whole runs every client's view is the ledger's state at the revision it read, at every moment, if and only if at every reopening the latest snapshot covers all views |
| MutationRuns.ReopenKeepsCoveredViews | src/memory_core/mutations.py:303-323 | Reopening from the latest snapshot leaves every client's view sound if and only if the snapshot covers all views |
| MutationRuns.LossyReopenMisleads | src/memory_core/mutations.py:303-323 | Once other commits have brought the ledger back to the revision of a view that a reopening lost, the author of that view can commit on a state it never read |
| MutationRuns.LossyReopenRun | src/memory_core/mutations.py:303-355 | Such a run from an empty ledger in five steps, for every mutation the schemas admit: commit, read, reopen, another commit, and a submission that commits on a state its author never read |
| MutationRuns.CompactionTransparent | src/memory_core/mutations.py:303-323 | If identifiers bind their base revision, a run with compactions and reopenings has at every moment the commits, state, revision and views of the run without them, if and only if no reopening loses a commit |
| MutationRuns.PlacementShows | src/memory_core/mutations.py:303-446 | With a reopening that loses a commit the placement shows: compacting before the second change leaves one commit, compacting after it leaves both |
| MutationRuns.SomeChangeIsAdmissible | src/memory_core/mutations.py:333-392 | There are schemas and a change they admit, as these two runs ask for |
| MutationRuns.RetryOfCommitted | src/memory_core/mutations.py:334-355 | At every moment of every run the retry of a committed mutation does not commit again: the report is a replay as long as its identifier is remembered, which it is until a compaction covers it, and otherwise a conflict |
| MutationRuns.RetryAfterCompaction | src/memory_core/mutations.py:334-355 | A compaction turns the answer to a retry from a replay into a conflict |
| MutationRuns.SnapshotIdDeterminesHistory | src/memory_core/mutations.py:213-245 | Equal snapshot identifiers mean equal lineages through all parents, unless the digest collides on a text hashed on the way |
| MutationRuns.EqualSnapshotsEqualHistory | src/memory_core/mutations.py:433-443 | Two ledgers whose latest snapshots share an identifier have committed the same mutation identifiers up to there |
| Mutations.StateRoundTrip | src/memory_core/mutations.py:247-270 | `materialize` undoes `create` for every state whose keys match their facts |
| Mutations.InsertionOrderForgotten | src/memory_core/mutations.py:224-232 | The snapshot's JSON is the same whatever the order in which the facts were inserted |
| Mutations.StateJsonInjective | src/memory_core/mutations.py:224-232 | States with the same snapshot JSON are equal |
| Mutations.CreatedIdsBind | src/memory_core/mutations.py:127-157 | Mutations made by `create` share an identifier only if they are the same mutation, or the digest collides on their two payloads |
| Mutations.InvalidSourceBindings | src/memory_core/mutations.py:448-459 | The identifiers reported are exactly those of facts citing an event revision that is not the current one, sorted and each once |
| MutationOutcomes.OutdatedExactly | src/memory_core/mutations.py:448-459 | An identifier is reported exactly if a fact with it cites an event that is gone or has another digest now |
| MutationOutcomes.ReadsBackExactly | src/memory_core/mutations.py:247-270 | A snapshot is readable exactly if every row is; it then holds the keys that its rows are about, each as the last such row says |
| MutationOutcomes.LegacyRowIsDurable | src/memory_core/mutations.py:267-267 | A row without a retention class, otherwise as it is written, reads back as durable |
| MutationLedger.Open | src/memory_core/mutations.py:303-323 | A ledger opens unless the stream is blank, schemas repeat, or the snapshot is foreign or unreadable, and then holds the snapshot's state and revision |
| MutationLedger.OpensExactly | src/memory_core/mutations.py:303-323 | A ledger opens if and only if the stream has a name, no two schemas agree in identifier, version and predicate, and the snapshot, if any, is its own and readable |
| MutationLedger.TableExactly | src/memory_core/mutations.py:312-316 | Unless two schemas agree the table finds each under its identifier, version and predicate, and nothing else |
| MutationLedger.MutationLedger.Append | src/memory_core/mutations.py:333-431 | The report and the whole new state of an append, with the exact condition of each of the seven answers; a commit enters the fact with the status of its operation, and every other answer changes nothing |
| MutationOutcomes.AnswersExactly | src/memory_core/mutations.py:333-431 | A valid mutation commits if and only if its identifier is new, its base is the present revision, its schema is on the table, its authority is within the schema's, and an asserted value has a kind that the value type takes; each other answer has its exact condition, and a rejection names the first check that fails |
| MutationOutcomes.EntersExactly | src/memory_core/mutations.py:394-415 | A commit enters one fact under its key: active after an assertion, disputed after a dispute, withdrawn after a withdrawal, with the new value or else the former one; nothing else changes, and without a commit nothing does |
| MutationRuns.CommitsExactly | src/memory_core/mutations.py:333-431 | In any run an offer or a submission adds the mutation to the log if it is new, in turn and acceptable, and nothing otherwise |
| MutationLedger.MutationLedger.Compact | src/memory_core/mutations.py:433-446 | Compaction always succeeds: its round-trip guard never fires |
| Continuity.PlanLongTermRetention | src/memory_core/continuity.py:82-220 | The planner's loops compute the plan that `RetentionRuns` characterises, with the refusals that come first |
| Continuity.FindProtected | src/memory_core/continuity.py:223-261 | The loops over records and anchors protect exactly the guarded records and the preferred survivor of each anchor |
| RetentionOrder.ProtectedExactly | src/memory_core/continuity.py:223-261 | Who is protected: a valid record of a protected class or pinned, and for each protected anchor the one valid holder that comes first by class, importance, confidence, last use, recording and identifier |
| RetentionOrder.PlansExactly | src/memory_core/continuity.py:82-132 | What is refused before anything is weighed, with the exact condition of each refusal |
| RetentionOrder.DecidesByTheCheapest | src/memory_core/continuity.py:134-220 | The decision over sets of records: given up exactly if there is too little room without all who may leave; otherwise the fewest of the cheapest that make room leave, unless one of them is episodic; then the cheapest episodic ones are named, as many as are needed and at most a batch |
| RetentionOrder.TheCheaperLeaves | src/memory_core/continuity.py:142-163 | Of two valid records, one retired by an admitted plan and the other kept though it might have left, the first has the lower utility, or the same and the smaller identifier |
| RetentionOrder.TheCheaperAreCompacted | src/memory_core/continuity.py:171-211 | The same order holds between the episodic records that a plan names for compaction and those it does not |
| RetentionRuns.DecisionExact | src/memory_core/continuity.py:134-220 | The plan admits if and only if the shortest fitting prefix of candidates exists and holds no episodic record; when it reports exhaustion and when it asks for compaction |
| RetentionRuns.RetiresExactly | src/memory_core/continuity.py:140-163 | The retirements of an admitting plan are exactly the invalid records and the shortest fitting prefix of the candidates |
| RetentionRuns.AdmittedFits | src/memory_core/continuity.py:165-170 | After an admitted plan the set has the projected size and length, both within capacity, with unique identifiers |
| RetentionRuns.WhoLeaves | src/memory_core/continuity.py:142-163 | A valid record leaves only as an unprotected one that is not episodic |
| RetentionRuns.AnchorsStayCovered | src/memory_core/continuity.py:223-261 | An anchor with a valid core or durable holder before an admitted step has one after it |
| RetentionRuns.RefusalsAreSafe | src/memory_core/continuity.py:171-211 | A refusal retires nothing, projects the present set, and asks to compact between one and a batch of distinct unprotected valid episodic records, or none |
| RetentionRuns.AlwaysWithin | src/memory_core/continuity.py:82-220 | In every run of admitted plans, edits and withdrawals the active set stays within both capacities |
| RetentionRuns.NoSilentForgetting | src/memory_core/continuity.py:223-261 | Over any stretch of a run a protected core, durable or pinned record stays unless its source became invalid or its user withdrew it |
| RetentionRuns.NothingForgottenByDefault | src/memory_core/continuity.py:55-261 | The same under the default policy for every core, durable or pinned record with a valid source |
| ContinuityRecall.SelectContinuityContext | src/memory_core/continuity.py:300-365 | The greedy loop computes the selection that the lemmas of its module describe |
| RecallOutcomes.SelectsExactly | src/memory_core/continuity.py:300-365 | The selection over nothing but the records: eligible facts by pin, class, importance, confidence, use, last use and identifier; each gets in exactly if a place is left and the joined text still fits; exactly the core facts whose identifiers are missing are reported |
| ContinuityRecall.SelectionIsHonest | src/memory_core/continuity.py:335-365 | The selection keeps both budgets, holds only eligible facts, and asks for compaction exactly if the identifier of some core fact is missing |
| ContinuityRecall.NoCoreDroppedSilently | src/memory_core/continuity.py:307-309 | Under every budget an eligible core fact is selected or listed among the omitted ones, as long as no other eligible record with its identifier comes earlier or is shorter |
| ContinuityRecall.CompleteExactly | src/memory_core/continuity.py:307-365 | For budgets with room for every text: whatever the number of items, every core fact is selected or listed, if and only if each comes before all other eligible records with its identifier |
| ContinuityRecall.ShorterNamesakeHidesADrop | src/memory_core/continuity.py:345-350 | When texts do not all fit, a later record with the identifier of a core fact that is shorter is selected in its place, and nothing is reported |
| ContinuityRecall.SharedIdHidesADrop | src/memory_core/continuity.py:345-350 | Two core facts with one identifier and a budget of one: one is dropped and nothing is reported |
| ContinuityRecall.CoreFirstUnlessPinned | src/memory_core/continuity.py:324-334 | A durable fact is considered before a core one if and only if it alone is pinned |
| ContinuityRecall.PinnedDurableDisplacesCore | src/memory_core/continuity.py:307-350 | Of a pinned durable fact and an unpinned core one the durable one is considered first, and takes the only place |
| TailScan.ReadLastLine | src/mini_code_agent/conversation_ledger.py:275-309 | The backward scan terminates and returns the last line of the forward scan, for every file and every chunk size |
| TailScan.TailDecides | src/mini_code_agent/conversation_ledger.py:291-296 | A tail with a line feed before its trailing ones has the same last line as the whole file |
| TailScan.SplitExactly | src/mini_code_agent/conversation_ledger.py:248-273 | The lines of a text: put together with their ends they are the text again, and no line holds an end |
| HmacChain.ReadAccepts | src/mini_code_agent/conversation_ledger.py:81-96 | `read` accepts exactly the logs whose rows verify, are numbered by position and name the HMAC before them, and returns their payloads in order |
| LedgerOutcomes.RowExactly | src/mini_code_agent/conversation_ledger.py:165-203 | When a row verifies and what it yields, with the exact condition of each refusal in the order in which they are checked |
| LedgerOutcomes.ReadExactly | src/mini_code_agent/conversation_ledger.py:81-96 | A log is accepted exactly if every row is good in its place; otherwise the error is the one of the first row that is not |
| HmacChain.SameHmac | src/mini_code_agent/conversation_ledger.py:142-203 | Two verifying rows with one HMAC agree in name, number, predecessor and payload, or the HMAC collides on their contents |
| HmacChain.PrefixDetermined | src/mini_code_agent/conversation_ledger.py:81-96 | A row fixes its position and everything before it, in whatever accepted logs it stands |
| HmacChain.LastHmacDeterminesLog | src/mini_code_agent/conversation_ledger.py:81-96 | Accepted logs whose last HMACs agree have the same name and the same payloads |
| HmacChain.BranchesDoNotSplice | src/mini_code_agent/conversation_ledger.py:81-96 | Rows of a branch written after a rollback and rows of the original past the fork never stand in one accepted log, short of a collision |
| HmacChain.AppendKeepsChain | src/mini_code_agent/conversation_ledger.py:62-79 | Checking the last row is enough: after an append the log is accepted exactly if it was, with one payload more |
| HmacChain.MigrationReads | src/mini_code_agent/conversation_ledger.py:127-132 | A migrated log is accepted and its payloads are the legacy rows in order |
| ConversationLedger.AuthenticatedConversationLedger.AppendUnlocked | src/mini_code_agent/conversation_ledger.py:62-79 | The append's effect on the file's text, and no effect on any error |
| LedgerOutcomes.AppendsExactly | src/mini_code_agent/conversation_ledger.py:62-79 | An append writes one line, the next number behind the last HMAC, and is refused exactly if the last line does not verify |
| ConversationLedger.AuthenticatedConversationLedger.Read | src/mini_code_agent/conversation_ledger.py:81-96 | The reading loop computes the acceptance that `HmacChain.ReadAccepts` characterises |
| ConversationLedger.AuthenticatedConversationLedger.ReadRawRows | src/mini_code_agent/conversation_ledger.py:248-273 | The rows of the text, or the fault of the first line that is not one |
| LedgerOutcomes.RowsExactly | src/mini_code_agent/conversation_ledger.py:248-273 | The rows are the lines read as JSON objects; the error is the one of the first line that is none |
| ConversationLedger.AuthenticatedConversationLedger.ReadLastRawRow | src/mini_code_agent/conversation_ledger.py:275-309 | The last row by the backward scan is the last row of the forward reading |
| ConversationLedger.AuthenticatedConversationLedger.MigrateLegacy | src/mini_code_agent/conversation_ledger.py:110-140 | The migration's outcome and the file's new text; an invalid row leaves the file alone |
| LedgerOutcomes.MigratesExactly | src/mini_code_agent/conversation_ledger.py:110-140 | An empty file and one whose first row has the present version are left as they are, the latter only if it verifies; any other is rewritten exactly if the validator accepts every row |
| ConversationLedger.AppendReads | src/mini_code_agent/conversation_ledger.py:311-342 | On a file that ends its last line, an append leaves text that reads back with exactly one payload more, or not at all if it did not read before |
| ConversationLedger.AppendExactly | src/mini_code_agent/conversation_ledger.py:311-342 | A successful append leaves a readable log if and only if the log was readable and its last line ended |
| ConversationLedger.UnfinishedLogIsSpoilt | src/mini_code_agent/conversation_ledger.py:311-342 | A log of one row without its line feed reads, takes an append that succeeds, and reads no more |
| ConversationLedger.AppendSucceeds | src/mini_code_agent/conversation_ledger.py:62-79 | An accepted log can always be appended to |
| ConversationLedger.WrittenReads | src/mini_code_agent/conversation_ledger.py:58-96 | Every run of appends to a new log succeeds and reads back as exactly what was appended |
| ConversationLedger.MigrationKeepsRows | src/mini_code_agent/conversation_ledger.py:110-140 | Migration keeps the rows and is not repeated |
| ConversationLedger.CollisionOnTexts | src/mini_code_agent/conversation_ledger.py:142-165 | Two contents that the key authenticates alike are two different texts with one HMAC |
| CanonicalJson.RoundTrip | src/mini_code_agent/conversation_ledger.py:23-24 | Canonical JSON parses back to the value printed |
| CanonicalJson.PrintNoControl | src/mini_code_agent/conversation_ledger.py:23-24 | Canonical JSON contains no line break, so a row is one line |
| CanonicalFormat.PrintExactly | src/mini_code_agent/conversation_ledger.py:23-24 | What canonical JSON looks like: decimal numbers, strings in quotes with just the necessary escapes, no white space, and the members of an object in the order of their keys |
| CanonicalFormat.EnvelopeText | src/mini_code_agent/conversation_ledger.py:142-165 | The text of an envelope: its six fields in this order |
| ContextCompaction.CompactMessages | src/mini_code_agent/context.py:79-148 | The loops of context compaction compute the result that `CompactionGuarantees` and `CompactionInputs` describe: an error for a budget that is not positive, the history itself if it fits, and otherwise at most the budget |
| ContextCompaction.MessageBlocks | src/mini_code_agent/context.py:151-169 | The nested loops cut the history into the blocks whose pairing and coverage are proved |
| ContextCompaction.Compacted | src/mini_code_agent/context.py:79-148 | A budget that is not positive is refused and no other; a history that fits is returned as it is; a normal return fits the budget |
| CompactionInputs.CompactedExactly | src/mini_code_agent/context.py:79-148 | What becomes of a history over the budget, in terms of the history: its first message leads, with the first human one where that is kept; then a summary if anything is left out, and the latest blocks that fit beside it, but for the fewest that must go; and the exact condition of each error |
| CompactionInputs.BlocksExactly | src/mini_code_agent/context.py:151-169 | The blocks are the one way to cut the history such that every message but a reply begins one, to which the replies behind it belong |
| CompactionInputs.BlockExactly | src/mini_code_agent/context.py:172-208 | The form in which a block is kept: shortened by its room, shortened further if it does not fit, or none; without replies to calls that were cut off |
| CompactionInputs.ShortExactly | src/mini_code_agent/context.py:211-246 | A message is shortened in its own role to the limit, keeping its beginning and its end around the marker, with its first 32 calls |
| CompactionInputs.SizeExactly | src/mini_code_agent/context.py:268-276 | What one more message adds to the size |
| CompactionGuarantees.ChoiceIsMaximal | src/mini_code_agent/context.py:116-128 | The chosen blocks are the longest suffix each of which fits, compacted, in what the later ones leave |
| CompactionGuarantees.ChosenIsLongest | src/mini_code_agent/context.py:116-128 | The same for the compactor and the sizes that the code uses |
| CompactionGuarantees.BlocksCover | src/mini_code_agent/context.py:151-169 | Cutting into blocks neither loses, repeats nor reorders a message |
| CompactionGuarantees.Shape | src/mini_code_agent/context.py:129-148 | The result is the prefix, a summary exactly if blocks were left out, and the chosen blocks, each the compacted form of the block at its place in a suffix, but for the fewest first ones whose loss makes it fit; none is lost if and only if the result fits with all of them |
| CompactionGuarantees.SucceedsExactly | src/mini_code_agent/context.py:86-148 | The exact condition under which compaction succeeds |
| CompactionGuarantees.NoLastResort | src/mini_code_agent/context.py:140-147 | Cutting the summary down once more never makes it fit |
| LostBlock.ChosenBlockIsLost | src/mini_code_agent/context.py:279-290 | A history of three messages whose latest one is chosen and yet in neither the summary, as the code writes it, nor the result |
| CompactionPairing.RepliesKeepCalls | src/mini_code_agent/context.py:79-208 | No reply is kept without its call, whether or not all calls of the history had been answered |
| CompactionPairing.CallsKeepReplies | src/mini_code_agent/context.py:79-208 | A call kept behind the first message is one of the history, perhaps abbreviated and cut to its first 32 calls, and each of these is answered in the result if and only if it was in the history |
| CompactionPairing.StaysPaired | src/mini_code_agent/context.py:79-208 | A history in which every reply has its call and every call its replies keeps both |
| CompactionGuarantees.NoPromotion | src/mini_code_agent/context.py:132-135 | Every message but the summary comes from the history in its own role, and the summary has the human role |
| Checkpoints.CheckpointLedger.Append | src/memory_core/conversation.py:321-339 | Exactly when a checkpoint is accepted and the exact condition of each refusal; the forest is kept and the new path is the parent's path and one more |
| Checkpoints.CheckpointLedger.Rollback | src/memory_core/conversation.py:341-346 | Rolling back moves only the active mark, to a checkpoint that exists |
| Checkpoints.CheckpointLedger.LatestValid | src/memory_core/conversation.py:348-357 | The walk terminates and returns the end of the longest intact segment of the path from the root, none exactly if there is no active checkpoint or the root is stale |
| Checkpoints.LineageExact | src/memory_core/conversation.py:359-376 | The guard against repetition never fires: a lineage is valid exactly if every checkpoint from the root on is intact |
| Checkpoints.PathIsDescent | src/memory_core/conversation.py:321-339 | A path starts at a root, follows parent links and never repeats |
| Checkpoints.OneRoot | src/memory_core/conversation.py:332-337 | All checkpoints of a conversation descend from one root |
| Checkpoints.AppendExtendsPath | src/memory_core/conversation.py:321-339 | Adding a checkpoint leaves every path as it was |
| Checkpoints.EditFallsBack | src/memory_core/conversation.py:348-357 | Editing one event falls back to just above the first checkpoint made from it |
| Checkpoints.RevisionsExactly | src/memory_core/conversation.py:348-357 | The present revision of an event is the one of the last entry with its identifier |
| Formation.ExactlyOnce | src/memory_core/conversation.py:177-244 | Over every run, with events listed in any order and any policy at each step, the batches join to a prefix of the log |
| Formation.TailStaysProtected | src/memory_core/conversation.py:206-209 | No event is formed while it is among the protected last ones |
| Formation.OrderedIsLog | src/memory_core/conversation.py:187-187 | The plan depends only on sequence numbers, not on the order in which events are listed |
| FormationOutcomes.PlansExactly | src/memory_core/conversation.py:177-244 | The plan for any events in any order: the exact condition of each refusal and of each reason, the protected tail, and the batch: the oldest unprotected events behind the cursor, up to the limit, exactly if it is forced or, outside manual mode, due by number or by characters |
| Formation.FormationSessions | evals/run_sillytavern_memory_eval.py:226-250 | Driving to quiescence terminates; the batches are a prefix of the ordered events and what is left is not due |
| FormationOutcomes.StopsExactly | evals/run_sillytavern_memory_eval.py:233-249 | Where the driver stops nothing more is due |
| Formation.DriveFormation | evals/run_sillytavern_memory_eval.py:233-249 | The loop itself, over any planner whose batches follow the cursor |
| ConversationMemory.Verify | src/mini_code_agent/conversation_memory.py:135-279 | The nested loops report nothing if and only if events are bound to their place, references unambiguous, candidates named by their digest with or without a scope and evidenced, card sources evidenced, decisions distinct and bound to cards; otherwise they report one fault of the logs, else the first of the rows, else whether sources and whether decisions are at fault |
| ConversationOutcomes.SoundExactly | src/mini_code_agent/conversation_memory.py:135-279 | What the check asks for, over the events, rows and cards themselves |
| ConversationOutcomes.TakenExactly | src/mini_code_agent/conversation_memory.py:329-432 | Each operation can be taken exactly if what it names exists: the role, the event, the candidate, decided or not, and the card |
| ConversationOutcomes.RetiredForGood | src/mini_code_agent/conversation_memory.py:394-432 | A card forgotten or corrected is inactive at every later moment and keeps its evidence; a correction leaves a new card with nothing but the new evidence |
| ConversationMemory.RefInjective | src/mini_code_agent/conversation_memory.py:345-345 | A source reference determines its conversation and sequence number |
| ConversationRuns.VerifiesExactly | src/mini_code_agent/conversation_memory.py:329-432 | Over every interleaving of the operations the check finds nothing if and only if no candidate was decided when already decided |
| ConversationRuns.SoundIffDistinct | src/mini_code_agent/conversation_memory.py:135-279 | Of all that the check asks for, only the distinctness of decisions can fail |
| ConversationRuns.PendingDecisionsVerify | src/mini_code_agent/conversation_memory.py:380-392 | When every decision is taken on a pending candidate the check always finds nothing |
| ConversationProcesses.InterleavingsVerifyExactly | src/mini_code_agent/conversation_memory.py:376-432 | However processes interleave that resolve a candidate and then decide it, the check finds nothing if and only if no process decides a candidate that another one decided since it was resolved |
| ConversationProcesses.SingleWriterVerifies | src/mini_code_agent/conversation_memory.py:376-432 | Whatever a single process resolves and decides, the check always finds nothing |
| ConversationProcesses.RaceRun | src/mini_code_agent/conversation_memory.py:655-683 | A run from nothing in which two processes resolve one candidate and both decide it: the check finds nothing after the first decision and fails after the second |
| ConversationRuns.RaceIsReported | src/mini_code_agent/conversation_memory.py:669-683 | Two decisions on one candidate are reported ever after |
| ConversationRuns.StepKeepsInv | src/mini_code_agent/conversation_memory.py:329-432 | What every operation keeps: sequence numbers are positions, evidence exists, approvals name a card that holds it |
| ConversationRuns.PendingCandidates | src/mini_code_agent/conversation_memory.py:529-570 | Each candidate on record once, without those decided; refused exactly if some candidate is named neither by the digest with its scope (the workspace where it has none) nor by the older digest without one |
| ConversationRuns.ResolveCandidate | src/mini_code_agent/conversation_memory.py:655-667 | The one pending candidate with the prefix, if there is exactly one, where white space around the selector and a leading at sign do not count |
| ConversationOutcomes.PrefixExactly | src/mini_code_agent/conversation_memory.py:655-657 | The prefix of a selector: white space on both sides and one at sign before the rest are taken off, and nothing else |
| GraphExpansion.Expand | src/mini_code_agent/memory_retrieval.py:596-620 | The graph route holds exactly the cards other than the seeds that a walk of eligible cards reaches within the depth, each with 0.65 divided by its distance; each of them has a link from a noted card and each noted card to one of them |
| GraphExpansion.BallIsWithin | src/mini_code_agent/memory_retrieval.py:596-612 | The layers of the search are the cards a walk of that many hops reaches |
| GraphExpansion.ScanSeed | src/mini_code_agent/memory_retrieval.py:599-611 | What one card of the frontier adds: each new neighbour once, with the round's strength |
| Retrieval.Candidates | src/mini_code_agent/memory_retrieval.py:380-406 | A card is a candidate exactly if confidence, scope, authority and evidence admit it, eligible exactly if it is also active and valid at the moment |
| RetrievalScores.FiltersExactly | src/mini_code_agent/memory_retrieval.py:298-316 | What the hard filters ask of a card: confidence, scope, authority, trusted evidence, activity and validity |
| Retrieval.Rank | src/mini_code_agent/memory_retrieval.py:521-654 | Ranked cards are candidates, each once and in order, with exactly the routes that lead to them and scores measured against one maximum, whatever a semantic provider answers |
| Retrieval.RatedBound | src/mini_code_agent/memory_retrieval.py:626-647 | With confidence and importance between 0 and 1 the score is at most 0.9125, so the clamp never binds |
| RetrievalScores.ScoreExactly | src/mini_code_agent/memory_retrieval.py:622-654 | A score from the routes: the strongest direct share, the strongest graph share, the fused ranks as a share of the best sum, confidence and importance, with their weights |
| RetrievalScores.DirectRoutesExactly | src/mini_code_agent/memory_retrieval.py:540-590 | The direct routes are those of the four that find anything, in order, each with the cards found, the best first |
| RetrievalScores.GraphRoutesExactly | src/mini_code_agent/memory_retrieval.py:613-620 | The routes of the graph: the cards reached, the strongest first, and those that led there with a half each |
| Retrieval.DirectSeeds | src/mini_code_agent/memory_retrieval.py:591-595 | The seeds are exactly the first three cards of each route, each once |
| Retrieval.Retrieve | src/mini_code_agent/memory_retrieval.py:364-519 | Every item of a pack is a stored card that passes every filter, at most `limit` of them; over the ranked list each of the five outcomes has its exact condition: outweighed by a card that is inactive or expired, no candidate, below the threshold, ambiguous, or used with exactly which items |
| Retrieval.DecidesExactly | src/mini_code_agent/memory_retrieval.py:407-494 | The five outcomes over the ranked list and the two best similarities, each if and only if |
| Retrieval.UseHasItems | src/mini_code_agent/memory_retrieval.py:441-494 | When memory is used: the score, margin, anchor or chain that justify it; the best card is passed over if and only if a chain is asked for, the graph does not start from it and does not reach it at 0.25 |
| Retrieval.BestIsPassedOver | src/mini_code_agent/memory_retrieval.py:441-494 | Of three ranked cards the best, which has no links, is passed over for a chain between the other two |
| PassedOver.BestIsPassedOverInARun | src/mini_code_agent/memory_retrieval.py:441-654 | Three cards, one relation and the default policy: what the store answers, the routes, scores and ranking that come of it, and the decision that leaves out the first card |
| ShadowJournal.ShadowJournal.Apply | evals/memory_shadow_candidates.py:319-420 | The journal, its store and its log after one candidate, that the invariant is kept, and what happened, in terms of the state before and after |
| ShadowOutcomes.HappensExactly | evals/memory_shadow_candidates.py:319-420 | What a candidate does: a request to forget that is not stale tombstones every active card of the family and leaves a marker alone active; a new value of a singleton supersedes the former one, or is stale if it is older; a new fact joins a family of several values; a duplicate, a stale request and another cardinality change no card; with the reason logged in each case |
| ShadowRuns.ForgottenForGood | evals/memory_shadow_candidates.py:337-362 | What a request to forget finds active in any run is tombstoned from then on, whatever is applied later |
| ShadowOutcomes.ElsewhereExactly | evals/memory_shadow_candidates.py:422-453 | A candidate goes to another family exactly if its own was never used and an alias says so, or it asks to forget and one family shares three of five words and leads every other by three of twenty: counted in whole words |
| ShadowJournal.ShadowJournal.ResolveFamily | evals/memory_shadow_candidates.py:422-453 | The family a candidate goes to, by the definition of a clear match, and the alias learned |
| ShadowJournal.TopTwoDecide | evals/memory_shadow_candidates.py:444-452 | Looking at the two best scores decides whether one family is alike enough and 0.15 ahead of all others |
| ShadowFamilies.AppliedIsGood | evals/memory_shadow_candidates.py:319-420 | Every candidate keeps the lists equal to the active cards, singletons single and aliases apart from families |
| ShadowRuns.ListsAreTheActiveCards | evals/memory_shadow_candidates.py:312-420 | At every moment of every run the lists are exactly the store's active cards, a singleton family has at most one, and no alias is a family |
| ShadowRuns.NothingTakenBack | evals/memory_shadow_candidates.py:319-453 | Between any two moments retired cards stay retired, cardinalities and aliases are fixed, and a family with an active card keeps one whose latest moment never decreases |
| ShadowRuns.LateCandidates | evals/memory_shadow_candidates.py:337-418 | Exactly which candidates older than an active card leave their family unchanged |
| ShadowRuns.ForgottenAndActive | evals/memory_shadow_candidates.py:337-418 | The run from nothing of a request to forget and then an older assertion in a family of several values ends with both active |
| VerificationMatrix.RunVerificationMatrix | src/mini_code_agent/checks.py:147-234 | Success is reported exactly if every check ran once and in order, undisturbed and with return code 0; only then is there a fingerprint, the one all captures agree on; otherwise the first trouble is reported, with exactly the calls made up to it and the evidence of every check executed |
| VerificationMatrix.RunCheck | src/mini_code_agent/checks.py:167-225 | One turn: passed exactly if both fingerprints equal the baseline and the check is permitted; which failure is reported, and the calls made |
| VerificationMatrix.NormalizeChecks | src/mini_code_agent/checks.py:63-80 | The configured checks in order, the default command without white space around it, or the first of three reasons to refuse them |
| EmbeddingCache.Rank | src/memory_core/semantic.py:237-278 | If texts with one digest embed alike, the ranking is the one without a cache, namely the nearest documents up to the limit; other namespaces are untouched, coherence is kept, and one request is made for exactly the texts not cached, none on a repeat |
| EmbeddingCache.FreshExactly | src/memory_core/semantic.py:237-278 | The ranking in terms of the texts: each document with the similarity of its own clipped text, those near enough, the nearest first and up to the limit; and the exact condition of each error |
| EmbeddingCache.FillIn | src/memory_core/semantic.py:259-267 | Filling in the generated vectors keeps the cache coherent even when a vector is refused half-way |
| MemoryControl.HarmNeverHelps | src/mini_code_agent/memory_control.py:237-271 | After any history one more harmful failure with reward -1 never raises the utility |
| MemoryControl.SuppressedExactly | src/mini_code_agent/memory_control.py:237-271 | For any statistics, any largest score and any threshold the store allows: no use passes, at any stage, role, score up to the largest, text and budget, if and only if the utility of the best circumstances without the cost of the text is at most the threshold |
| MemoryControl.RepeatedHarmSuppresses | src/mini_code_agent/memory_control.py:237-271 | Harmful failures with reward -1 and nothing else suppress a memory below 0.42 if and only if there are at least two, wherever scores end between 0.9125 and 1 |
| MemoryControl.MissesDiluteHarm | src/mini_code_agent/memory_control.py:237-271 | After two harmful failures and one harmless one no score up to 0.9125 passes; after a second harmless one a memory with the score 0.9 does, though it never succeeded |
| MemoryControl.OneHarmMayPass | src/mini_code_agent/memory_control.py:237-271 | After one harmful failure a memory with a score of at least 0.86 against a course of action passes when the agent is stuck |
| MemoryControl.StatsBounds | src/mini_code_agent/memory_store.py:729-778 | Harmful uses never exceed uses and the reward total stays within them |
| MemoryControl.StatsCount | src/mini_code_agent/memory_store.py:729-778 | Uses, successes and harmful uses are the counts of the outcomes, of those that succeeded and of those that did harm |
| MemoryControl.StatsAddUp | src/mini_code_agent/memory_store.py:729-778 | Of two histories put together the counts and the rewards add up |
| MemoryControl.BetterRecordHelps | src/mini_code_agent/memory_control.py:237-271 | Of two memories used equally often, the one with a better score, more successes, less harm and better rewards is worth no less |
| MemoryControl.RecordWeighs | src/mini_code_agent/memory_control.py:237-271 | By how much: eleven twentieths of the score, seven of the successes and eleven of the harm over the uses and two, and a tenth of the mean reward |
| MemoryControl.TextCost | src/mini_code_agent/memory_control.py:237-271 | What the text costs, and where the cost is capped |
| MemoryControl.Decide | src/mini_code_agent/memory_control.py:117-183 | The most useful items up to the limit in order, nothing exactly if none reaches the threshold, a warning exactly if one speaks against something; with nothing, another query exactly if the agent is stuck after at least two failures |

## Left out

- Floating point: scores, utilities and rewards are exact reals; rounding to six decimals (and ties it creates) is not modelled.
- CanonicalJson.RoundTrip: JSON numbers with a fraction or exponent, white space between tokens, and escapes outside the basic plane, are not among the values and texts; the texts that carry such numbers as memory values are read by a parameter of the ledger's schemas.
- ConversationLedger.AuthenticatedConversationLedger.ReadRawRows: the reader accepts what the canonical writer produces, so a row with white space between tokens or a fractional number counts as a fault, while the code reads it; the program itself writes no such row.
- HmacChain.ReadAccepts: a schema version is read as Python's `int` reads a whole number, a truth value or a text of ASCII digits; a fractional number or a text with other decimal digits is not modelled.
- UTF-8: files and texts are sequences of characters, so the size limit in bytes and decoding errors are not modelled.
- File modes, symbolic links, ownership, `fsync`, file locks and the state size limit: a locked region is one step.
- The internals of HMAC, SHA-256, keys and user identity files.
- The SQLite store: retrieval, the shadow journal and conversation memory use only what they ask of it (add, supersede, transition, sources, relations).
- BM25, cosine, tokenisation, Unicode normalisation and the retention utility: any measure with the range the code guarantees.
- ContextCompaction.CompactMessages: the JSON lengths of calls and extra arguments, their shortened forms, the summary's wording and the marker for text cut out are parameters (`LostBlock` fixes the latter two as the code writes them, but for the words of the summary's first sentence, of which it takes the length); a call's identifier is its text, as the code compares it.
- CompactionPairing.StaysPaired: asks that the first message makes no call, as a system message does not; a first message with calls can be separated from its replies, and CallsKeepReplies says nothing about it.
- Formation.ExactlyOnce: events arrive with increasing sequence numbers and new identifiers, as the importer numbers them.
- Retrieval.Rank: the text of routes and the rounding of scores in the pack.
- ShadowJournal.ShadowJournal.Apply: validity moments are integers; a candidate without one makes the code raise.
- ConversationMemory.Verify: the checks before the logs are read (a missing directory, the key, the identities and scopes) and their counts.
- ConversationRuns.VerifiesExactly: the authentication of the log files is the subject of `HmacChain`; here a log is its sequence of payloads. Staged candidates have the user's scope, as in the code.
- EmbeddingCache.Rank: a client that answers with the wrong number of vectors, and failures swallowed by `rank`.
- MemoryControl.Decide: recording the decision in the store.
- The extraction of candidates from model output, prompts, providers, the command line, receipts, rendering, backup and lifecycle reports: plumbing or easy members beside the cores above.
