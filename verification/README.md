# TradeGraph, verified

A Dafny model of the stateful core of TradeGraph, a research assistant over regulatory filings and legal
texts, with proofs of what it promises. `dafny verify dfyconfig.toml` checks everything.

- **Research jobs.** `JobProtocol` is the API, the queue, the worker and the database as steps over
  committed state, with the worker lost and the message redelivered at any point. `JobSafety` holds what is
  true over every run, `JobExact` the exact conditions of what can go wrong, `JobRuns` concrete runs where it
  does. `JobWorker` is the worker's task as a class whose methods change committed state, `JobDelivery` ties it to
  the protocol step by step; `JobHistory` ties the protocol to the rows that runs store. `Stream` and `StreamText` are the event
  stream a client watches, `JobResponse` what it is shown, `Cascade` the delete, row by row.
- **Evidence chain.** `Evidence` collects verified evidence from sub-questions, `ClaimGate` turns claim
  drafts into rows and report lines, `EvidenceChain`, `StoredRows` and `RowAgreement` say what those rows and
  lines mean,
  `ResearchRun` composes the whole run, and `StoredRuns` carries it over to deletes.
- **Retrieval.** `Ranking` is Python's stable descending sort of a dict, `Fusion` the reciprocal rank fusion
  loops, `FusionBounds`, `FusionDepth` and `DepthAttained` their guarantees, `Reranker` the batched service, and
  `Retriever` the search from two arms to results.
- **Ingestion and text.** `Ingestion` writes a filing to object storage, database and vector index,
  `Versions` decides versions, `IngestionSafety`, `IngestionHistory`, `IngestionOrphans` and `IngestionRetries`
  hold over any history of transactions. `Chunker` cuts sections into overlapping windows, `Contamination` cuts a text where it stops
  being ASCII, `Articles` splits a part of the Constitution into articles, and `PublishedArticles` says what they hold.

Whatever a language model, the embedder, the vector store, the tokenizer or a regular expression answers is
an arbitrary value of its declared shape. Loops of the source are methods, proved against specification
functions; the lemmas say what those functions mean.

Where the code does less than its comments suggest, the model follows the code and a lemma gives the exact
condition or a concrete run:

- `acks_late` makes a redelivery after the recorded end possible: the job regresses and is researched twice
  (`JobRuns.DoubleResult`), keeps the error of an earlier failure (`OldErrorStays`), is deleted under a task
  (`DeleteDuringDelivery`) or returns after its delete (`DeletedJobReturns`). `JobExact.RegressExactly`,
  `SucceededExactly`, `OneRunAtCommit` and `OverlapBeginsExactly` say exactly when.
- An exception outside the guarded block leaves the job PENDING or RUNNING for good (`JobRuns.ReadFailureSticks`,
  `SetUpFailureSticks`; exactly when: `JobExact.EndsTerminal`).
- Claim indices are zipped unfiltered with filtered evidence, so an out-of-range index files citations under
  the wrong row (`RowAgreement.ShiftedPairing`; exactly when: `AgreementExactly`), and a repeated index stores
  one link key twice (`RepeatedIndex`; exactly when: `LinkKeysExactly`).
- A reused job row keeps its insufficiency flag (`ResearchRun.StaleFlag`; exactly when: `FlagTruthfulExactly`).
- A reranker request where every batch answers without a usable score fails an assertion instead of giving
  502 (`Reranker.EmptyAnswerIsNotA502`; exactly when: `WhichAnswer`).
- A negative chunk overlap passes the check and loses tokens (`Chunker.NothingLostExactly`, `CoveredExactly`).
- The contamination cut is called the longest ASCII-clean prefix. It need be neither wholly ASCII nor the
  longest that is, and cutting twice can cut more (`Contamination.NotIdempotent`; exactly when:
  `WhollyAsciiExactly`, `LongestExactly`, `IdempotentExactly`).
- A retried ingest writes the raw object again, although a comment calls that write a no-op: the digest gate sees
  only documents (`IngestionRetries.RetryWritesAgain`; exactly when: `WrittenAgainExactly`).
- A final commit that is stored but raises lets the failure path write FAILED over a finished job
  (`JobRuns.LostAcknowledgement`; exactly when the lifecycle holds: `JobExact.LifecycleExactly`).
- After repeated runs a client is shown one report with the claims of all of them (`JobResponse.ShownExactly`;
  exactly when they belong together: `OwnClaimsExactly`).
- A progress text with a line break breaks the framing of the stream (`StreamText.BrokenProgress`; exactly when:
  `ReadBackExactly`). Progress texts quote the model's sub-questions.

## Model

| member | source | states |
|---|---|---|
| JobSafety.CrashSafety | tradegraph/src/graph/tasks.py:139-196 | over every interleaving of API, queue, worker and progress commits, with the worker lost and the message redelivered anywhere: the committed evidence rows and reports are exactly what the final commits since the last delete added, computed from the steps alone, in order: each left all rows its own delivery had added and one report, no delivery commits twice, and no row or report of a delivery without a final commit is ever visible |
| JobSafety.Lifecycle | tradegraph/src/graph/tasks.py:145-194 | in clean runs, where no delivery repeats after the commit that ended the job and no final commit raises after it was stored: the visible job only moves absent, PENDING, RUNNING, ended, deleted, one stage at a time, and once it has ended only a delete changes anything committed about it |
| JobSafety.SucceededIsOneRun | tradegraph/src/graph/tasks.py:167-191 | in clean runs SUCCEEDED is visible only as the whole result of one delivery: its rows, one report, its last progress text, no error |
| JobSafety.DeleteAfterWorker | tradegraph/apps/api/routers/jobs.py:243-247 | in clean runs a delete that was let in never overlaps a delivery in progress |
| JobExact.EndsTerminal | tradegraph/src/graph/tasks.py:142-194 | over every run: a delivery that comes to its end leaves the job ended or deleted exactly when it recorded SUCCEEDED or FAILED, or the job was already there; every other end, by an exception outside the guarded block or in the failure commit, writes nothing |
| JobExact.EndedExactly | tradegraph/src/graph/tasks.py:167-194 | in clean runs a job is ended or deleted exactly from the first recorded end on |
| JobExact.UnrecordedIsForGood | tradegraph/src/graph/tasks.py:139-196 | in clean runs a message acknowledged without a recorded end leaves a job on which no step of anything is possible any more |
| JobExact.RegressExactly | tradegraph/src/graph/tasks.py:145-150 | over every run, a step takes the visible job back exactly when a delivery commits RUNNING over an ended job or commits the result of a job that was deleted |
| JobExact.LifecycleExactly | tradegraph/src/graph/tasks.py:145-191 | a whole run, whatever is repeated or lost, only moves the job forward and changes nothing of an ended job but by a delete, exactly when no delivery commits RUNNING over an ended job, none commits the result of a deleted job, and none commits FAILED over a success it committed without hearing of it |
| JobExact.OneRunAtCommit | tradegraph/src/graph/tasks.py:167-183 | over every run, a final commit leaves the state one uninterrupted delivery leaves exactly when no report and no row was there and either it inserts the row and has said nothing visible, or the row has no error, shows the last progress text and no flag the result does not bring |
| JobExact.SucceededSince | tradegraph/src/graph/tasks.py:167-194 | a visible SUCCEEDED in any run is what some final commit left, untouched since |
| JobExact.SucceededExactly | tradegraph/src/graph/tasks.py:167-191 | over every run, a visible SUCCEEDED of a job never deleted is the whole result of one delivery exactly when no other end, success or failure, was recorded before |
| JobExact.OverlapBeginsExactly | tradegraph/apps/api/routers/jobs.py:243-247 | over every run, a delivery and a delete begin to overlap exactly when a delivery begins during or after a delete, or a delete is let in during a delivery, which has then not yet committed RUNNING or has committed its success unheard |
| JobRuns.DoubleResult | tradegraph/src/core/celery_app.py:36-37 | a worker lost between its final commit and the acknowledgement: the job shows SUCCEEDED, then RUNNING, then SUCCEEDED with two reports and both claims with their evidence, links and citations |
| JobRuns.OldErrorStays | tradegraph/src/graph/tasks.py:184-191 | a FAILED commit, a loss before the acknowledgement and a second delivery: the job shows SUCCEEDED together with the old error |
| JobRuns.LostAcknowledgement | tradegraph/src/graph/tasks.py:183-191 | a final commit that is stored but raises: in a single delivery the job ends FAILED with its report and its rows |
| JobRuns.DeleteDuringDelivery | tradegraph/apps/api/routers/jobs.py:243-247 | a delete let in while a redelivered task has not yet committed RUNNING |
| JobRuns.DeletedJobReturns | tradegraph/src/core/celery_app.py:36-37 | the same loss with a delete in between: the deleted job comes back as SUCCEEDED |
| JobRuns.SetUpFailureSticks | tradegraph/src/graph/tasks.py:152-165 | an exception while the clients are built: the message is gone, the job is RUNNING, and no step is possible any more |
| JobRuns.ReadFailureSticks | tradegraph/src/graph/tasks.py:142-150 | an exception while the job is read or RUNNING is committed: the same with PENDING |
| JobWorker.Task.OnProgress | tradegraph/src/graph/tasks.py:118-123 | progress is one commit of its own, to the job row if it is there, and touches nothing else |
| JobWorker.Task.RunResearchJob | tradegraph/src/graph/tasks.py:139-196 | what one delivery leaves committed in each way it can end: nothing when reading raises, nothing but RUNNING when set-up raises, FAILED with the truncated message and no evidence when the run raises, SUCCEEDED with all evidence and one report when it commits, FAILED over both when that commit is stored but raises; and the same without a job row |
| JobDelivery.DeliveryIsTheTask | tradegraph/src/graph/tasks.py:107-196 | task and protocol agree: from whatever earlier deliveries left, one delivery without a loss, with any script, a fault at reading or set-up or none, and any way of ending, is a sequence of protocol steps each enabled in its turn; it ends acknowledged and leaves committed exactly what the task's own code leaves |
| JobWorker.UninterruptedRun | tradegraph/src/graph/tasks.py:139-196 | the state one fault-free delivery of a fresh job leaves, as the reference for the protocol |
| JobWorker.UninterruptedExactly | tradegraph/src/graph/tasks.py:139-196 | over every run, a visible SUCCEEDED of a job never deleted is the end state of one uninterrupted run of some script exactly when no other end was recorded before it, however often the worker was lost |
| JobWorker.SameAsUninterrupted | tradegraph/src/graph/tasks.py:139-196 | in particular in every clean run |
| JobHistory.RunAdds | tradegraph/src/graph/pipeline.py:137-375 | the kinds of rows a run stores depend on its answers alone, not on what is stored already |
| JobHistory.ExecutionIsHistory | tradegraph/src/graph/tasks.py:139-196 | what an execution has committed is what a history with one run for each final commit and one delete for each committed delete stores: job row, rows kind for kind and in order with one report for each run, and the insufficiency flag |
| JobHistory.ConcreteMarks | tradegraph/src/graph/pipeline.py:268-368 | a run that finds nothing stores its report only, a run with one accepted claim stores claim, evidence, link, citation and report |
| JobResponse.GroupCitations | tradegraph/apps/api/routers/jobs.py:120-147 | the dictionary loop gives each claim its citations, with passage and summary of their evidence rows |
| JobResponse.LoadClaims | tradegraph/apps/api/routers/jobs.py:105-151 | the claims of a job with their citations, as the queries and the grouping specify |
| JobResponse.LoadJobResponse | tradegraph/apps/api/routers/jobs.py:154-174 | report and claims are shown only of a SUCCEEDED job |
| JobResponse.EveryCitationShown | tradegraph/apps/api/routers/jobs.py:120-151 | after any runs and deletes, every present citation of the job is shown under its own claim: none is lost by the join or the grouping |
| JobResponse.ShownExactly | tradegraph/apps/api/routers/jobs.py:154-174 | after any runs and deletes a client is shown the report of the job's latest run and the claims of all its runs since the last delete |
| JobResponse.OwnClaimsExactly | tradegraph/apps/api/routers/jobs.py:154-174 | the claims shown are those of the report's own run exactly when no earlier run since the last delete had a claim with an index in range |
| Stream.EventSource | tradegraph/apps/api/routers/jobs.py:321-344 | the generator yields exactly the events of the polls up to and including the first one that stops it |
| Stream.UpToExactly | tradegraph/apps/api/routers/jobs.py:327-343 | polling goes on while the job is PENDING or RUNNING and stops at the first poll that finds it SUCCEEDED, FAILED or missing |
| Stream.ErrorExactly | tradegraph/apps/api/routers/jobs.py:332-335 | an error event is sent exactly when the last poll finds no job, as the last event, and what is due to earlier polls is sent before what is due to later ones |
| Stream.Faithful | tradegraph/apps/api/routers/jobs.py:330-341 | status events are the polled statuses with consecutive repeats removed, progress events likewise the non-null details |
| Stream.EndsWithStatus | tradegraph/apps/api/routers/jobs.py:336-343 | after a terminal poll the last event is that status, every detail has been sent before it, and there is no further poll |
| Stream.ForwardHistory | tradegraph/apps/api/routers/jobs.py:328-343 | a history that only moves forward gives at most three status events, each further than the last |
| Stream.WatchingAnyRun | tradegraph/apps/api/routers/jobs.py:321-344 | a client that watches any run of the job protocol, repeated deliveries and deletes included, at any moments, gets at most three status events, in forward order |
| StreamText.SentMeaning | tradegraph/apps/api/routers/jobs.py:333-340 | the text of every event, literally: its type, and the detail, the status word or the error message as its data |
| StreamText.ReadBackExactly | tradegraph/apps/api/routers/jobs.py:333-346 | a client that parses the stream by the standard reads back exactly the events sent, exactly when no progress text has a line break |
| StreamText.BrokenProgress | tradegraph/apps/api/routers/jobs.py:337 | a progress text of two lines is not read back |
| Cascade.RemovableExactly | tradegraph/src/models/orm.py:317-485 | removing a row keeps all foreign keys exactly when no row refers to it |
| Cascade.Session.Delete | tradegraph/apps/api/routers/jobs.py:272-309 | one row removal, refused while the row is referred to, keeps every foreign key |
| Cascade.DeleteJob | tradegraph/apps/api/routers/jobs.py:231-310 | 404, 409 or the whole cascade; from any database whose foreign keys hold, cross-job links included, they hold after every single removal in the code's order, and what is gone is exactly the job's rows and what touches them |
| Cascade.NothingLeft | tradegraph/apps/api/routers/jobs.py:290-310 | afterwards nothing refers to the job or to any claim or evidence item of it |
| Cascade.OthersUntouchedExactly | tradegraph/apps/api/routers/jobs.py:260-288 | every row of every other job survives exactly when no claim of another job rests on this job's evidence |
| StoredRuns.DeletingSparesOthers | tradegraph/src/graph/pipeline.py:280-319 | that condition always holds of what the pipeline stores: over any mix of runs and deletes for any jobs, repeated runs and returned jobs included, all foreign keys hold and deleting any job leaves every other job's rows as they were |
| StoredRuns.DeleteIsCascade | tradegraph/apps/api/routers/jobs.py:249-310 | a delete in such a history leaves exactly the tables the row-by-row cascade leaves |
| Evidence.ResearchSubQuestion | tradegraph/src/graph/pipeline.py:378-454 | one sub-question's kept evidence, gaps and shifted contradiction pairs, with the three early exits |
| Evidence.Gather | tradegraph/src/graph/pipeline.py:173-210 | the loop over sub-questions collects evidence, gaps and contradictions, each sub-question shifted by the evidence before it |
| Evidence.KeptMeaning | tradegraph/src/graph/pipeline.py:423-428 | kept items are the ordered subsequence of extracted ones for which the last decision naming them says SUPPORTS or PARTIAL and whose passage number is in range, each with the hit it names |
| Evidence.GapsMeaning | tradegraph/src/graph/pipeline.py:394-431 | a sub-question without kept evidence reports one gap of its own that quotes the question, for each of the three reasons, and no contradiction; any other hands on exactly the gaps and pairs the model found |
| Evidence.AllGapsMeaning | tradegraph/src/graph/pipeline.py:173-210 | the gaps of every sub-question are handed on, in their order |
| Evidence.StableReferences | tradegraph/src/graph/pipeline.py:445-452 | whatever later sub-questions add, a pair's ends that named items of their own list name the same items in the combined list the synthesizer is shown |
| ClaimGate.Session.Add | tradegraph/src/graph/pipeline.py:280-319 | a row is added only when the rows its foreign keys name are there, under a fresh id |
| ClaimGate.Cited | tradegraph/src/graph/pipeline.py:272-276 | the evidence of the in-range indices, in order |
| ClaimGate.ValidateClaims | tradegraph/src/graph/pipeline.py:268-339 | the whole loop over claims: the rows it adds and the report lines it collects |
| EvidenceChain.FateMeaning | tradegraph/src/graph/pipeline.py:284-335 | closed form of the verdict fold: the last non-empty rewrite, else the claim's text if any passage was accepted or flagged, else nothing; flagged exactly when some passage was |
| EvidenceChain.LineMeaning | tradegraph/src/graph/pipeline.py:284-338 | a claim's report line on its judgements alone: the last non-empty rewrite, else the claim's text when some passage was accepted or flagged; none when that text is missing or empty; and with the mark of uncertainty exactly when some passage was flagged |
| EvidenceChain.ResolvedMeaning | tradegraph/src/graph/pipeline.py:272-276 | the indices in range are kept in order, wherever the others stand |
| EvidenceChain.RemovedNeverReported | tradegraph/src/graph/pipeline.py:337-340 | a claim with only REMOVE verdicts is in no report |
| EvidenceChain.ReportedExactly | tradegraph/src/graph/pipeline.py:271-340 | report lines are those of exactly the surviving claims, in draft order |
| EvidenceChain.ChainWellFormed | tradegraph/src/graph/pipeline.py:268-319 | every row's parents exist when it is added, earlier rows never change, and each filed pair has its link and its citation on the evidence row of its index |
| StoredRows.CitationRowsExactly | tradegraph/src/graph/pipeline.py:299-319 | the stored citations are, in order, those of the filed pairs, and the stored links the rows before them: no citation or link is there that does not belong to exactly one pair |
| StoredRows.EvidenceRowsExactly | tradegraph/src/graph/pipeline.py:287-298 | every stored evidence row is cited, and two citations rest on one row exactly when their pairs carry one index: one row for each index across all claims |
| EvidenceChain.ClaimRowsExactly | tradegraph/src/graph/pipeline.py:272-282 | a claim row is added for exactly the drafts with an index in range, in draft order and with their text |
| RowAgreement.PlacedMatches | tradegraph/src/graph/pipeline.py:286-319 | the filed pairs are exactly those of the zip, each with the verdict given for its own turn, and two share a claim row exactly when they come from one draft |
| RowAgreement.HoldsExactly | tradegraph/src/graph/pipeline.py:287-295 | an evidence row is the one built from an item exactly when job, chunk, passage and summary are that item's |
| RowAgreement.CitationOfPairing | tradegraph/src/graph/pipeline.py:301-319 | the t-th stored citation carries the verdict given in the t-th turn of the zip and the document id of the hit whose passage was judged in it |
| RowAgreement.InRangeAgrees | tradegraph/src/graph/pipeline.py:286-319 | with all indices of all claims in range, the evidence row behind every stored citation is the one built from the passage that was judged for it |
| RowAgreement.AgreementExactly | tradegraph/src/graph/pipeline.py:286-298 | in general, for all evidence, stored rows agree exactly when the zip of given indices with in-range ones pairs no index with two positions whose evidence rows would differ |
| RowAgreement.LinkKeysExactly | tradegraph/src/graph/pipeline.py:299 | the stored links have distinct (claim, evidence) keys exactly when no claim repeats an index among those its zip uses |
| RowAgreement.RepeatedIndex | tradegraph/src/graph/pipeline.py:299 | a claim that repeats an index stores one key twice |
| RowAgreement.ShiftedPairing | tradegraph/src/graph/pipeline.py:272-298 | an index out of range in front shifts the pairing: a later claim's citation then rests on the row of another passage |
| ResearchRun.AssembleReport | tradegraph/src/graph/pipeline.py:342-353 | the report text: the declaration of insufficiency without lines, else lines, gaps and contradictions as sections |
| ResearchRun.GetOrCreate | tradegraph/src/graph/pipeline.py:137-154 | a known job is reused with whatever flag it has, an unknown one is created with its flag cleared |
| ResearchRun.RunResearch | tradegraph/src/graph/pipeline.py:101-375 | the rows, the status, the insufficiency flag and the outcome of a run that no exception ends |
| ResearchRun.OneReportLast | tradegraph/src/graph/pipeline.py:356-368 | a run keeps all earlier rows, adds exactly one report, as its last row and with the draft of the synthesizer if there was one, and adds every row after its parents |
| ResearchRun.ReportText | tradegraph/src/graph/pipeline.py:342-353 | the report's whole text: the declaration, or the lines one after another and then gaps and contradictions under their titles, each only if there are any |
| ResearchRun.ReportShowsEverything | tradegraph/src/graph/pipeline.py:342-353 | unless it declares insufficiency, a report holds every surviving claim's line, every gap and every contradiction word for word; it declares it when no evidence or no claim survived |
| ResearchRun.FlagRemembers | tradegraph/src/graph/pipeline.py:152-153 | over any runs for one job the insufficiency flag is set exactly when some run so far found nothing |
| ResearchRun.FlagTruthfulExactly | tradegraph/src/graph/pipeline.py:152-153 | so after the last run it says what that run found exactly when that run found nothing or no earlier one did |
| ResearchRun.StaleFlag | tradegraph/src/graph/pipeline.py:152-153 | two concrete runs over one job: the second reports a claim and the flag still says insufficient |
| Ranking.SortIsRanking | tradegraph/src/rag/hybrid/fusion.py:48-52 | the dict's items sorted by score descending, ties in insertion order, none lost or repeated |
| Ranking.RankingUnique | tradegraph/src/rag/hybrid/fusion.py:52 | only one list has that order, so the sort algorithm does not matter |
| Fusion.ReciprocalRankFusion | tradegraph/src/rag/hybrid/fusion.py:29-53 | the accumulating loops compute the formula's score for every id, first-occurrence payloads and that order |
| Fusion.OneMoreHit | tradegraph/src/rag/hybrid/fusion.py:43-45 | one more hit at the end of a list adds 1/(k + rank), with ranks from 1, to the score of its own point and nothing to any other |
| FusionBounds.FusedListMeaning | tradegraph/src/rag/hybrid/fusion.py:43-53 | the fused list is the union once each, descending by the sum of 1/(k+rank) over all occurrences, ties in first-seen order, payload of the first occurrence |
| FusionBounds.ScoreIgnoresListOrder | tradegraph/src/rag/hybrid/fusion.py:43-45 | reordering the lists changes no score |
| FusionBounds.SingleListKeepsOrder | tradegraph/src/rag/hybrid/fusion.py:43-53 | one duplicate-free list keeps its order |
| FusionDepth.DenseOnlyDepth | tradegraph/src/rag/hybrid/fusion.py:43-53 | for duplicate-free arms with c shared points, a hit only the dense arm found at rank r is at position c+2r-1 or better |
| FusionDepth.SparseOnlyDepth | tradegraph/src/rag/hybrid/fusion.py:43-53 | for the sparse arm the bound is c+2r, because the dense hit of equal rank was seen first |
| FusionDepth.SharedDepth | tradegraph/src/rag/hybrid/fusion.py:43-53 | in arms shorter than k+2 a hit both arms found is at position c or better |
| FusionDepth.ConsensusFirstIff | tradegraph/src/rag/hybrid/fusion.py:32-38 | every point both arms found comes before every point only one found, for all arms up to a length, exactly when that length is below k+2 |
| DepthAttained.BoundsAttained | tradegraph/src/rag/hybrid/fusion.py:43-53 | neither bound can be improved: for every rank r and every c with r + c at most k + 1 there are arms that attain both exactly |
| Retriever.ConfiguredConsensus | tradegraph/src/rag/hybrid/retriever.py:45-46 | so it always holds with the configured depth of 50 and k = 60 |
| Retriever.SurvivesCut | tradegraph/src/rag/hybrid/retriever.py:139 | a one-arm hit whose depth bound fits the candidate limit is among the candidates |
| Retriever.SharedSurvivesCut | tradegraph/src/rag/hybrid/retriever.py:139 | a hit both arms found is among the candidates whenever the shared hits are no more than the limit |
| Retriever.ConfiguredCut | tradegraph/src/rag/hybrid/retriever.py:45-47 | with the configured 50, 50 and 40: every shared hit reaches the reranker when c is at most 40, a dense-only hit up to rank (41-c)/2, a sparse-only hit up to rank (40-c)/2 |
| Retriever.MapBackDistinct | tradegraph/src/rag/hybrid/retriever.py:142-150 | for any service answer, results carry distinct points exactly when the answer names no candidate twice |
| Retriever.SearchSound | tradegraph/src/rag/hybrid/retriever.py:110-150 | end to end, for any language model behind the reranker: at most top_n results, distinct points, each with the payload of an arm's hit of that point |
| Retriever.RerankedSearch | tradegraph/src/rag/hybrid/retriever.py:139-150 | with the reranker, results are candidates under the scores their own batches gave them, best first, and a scored candidate that is left out is beaten or tied by top_n others |
| Retriever.PlainSearch | tradegraph/src/rag/hybrid/retriever.py:133-137 | without it, results are the top_n points of the union by the fusion formula, best first |
| Retriever.FilterParity | tradegraph/src/rag/hybrid/retriever.py:116-150 | a filter both arms respect is met by every result |
| Retriever.CandidatesExactly | tradegraph/src/rag/hybrid/retriever.py:125-139 | the reranker is shown the first points of the fused list, as many as the limit allows |
| Retriever.RaisesExactly | tradegraph/src/rag/hybrid/retriever.py:133-150 | a search raises exactly when there is a hit, the reranker is asked, and it scores none of the candidates |
| Reranker.ScoreBatchWithRetry | tradegraph/apps/reranker/main.py:141-160 | the scores are those of the first differentiated success (any success for one passage) within three attempts, else the last success, else none with the last error |
| Reranker.SettledMeaning | tradegraph/apps/reranker/main.py:141-160 | on the three replies themselves: the first one with two different scores, or any scores when there is one passage, counts; without one, the last that answered; and there is none exactly when all three failed |
| Reranker.Rerank | tradegraph/apps/reranker/main.py:163-188 | the batched service answers as its specification over all passages does |
| Reranker.GlobalRanking | tradegraph/apps/reranker/main.py:169-188 | that is one global ranking: distinct in-range numbers, each with the last in-range score its own batch gave it, descending, ties by the earlier batch and then by the earlier first mention, cut to top_n with everything left out behind it; a failed batch loses only its own passages |
| Reranker.GlobalScoreMeaning | tradegraph/apps/reranker/main.py:169-178 | passages are scored in batches of 15, and a passage's score is that of the last entry with its place in what its own batch was given |
| Reranker.WhichAnswer | tradegraph/apps/reranker/main.py:179-181 | results exactly when some passage got an in-range score; otherwise 502 with the last failed batch's error, and with no failed batch the assertion fails instead |
| Reranker.EmptyAnswerIsNotA502 | tradegraph/apps/reranker/main.py:179-181 | a concrete reply that trips the assertion |
| Versions.DecisionIgnoresOrder | tradegraph/src/rag/ingestion/dedup.py:53-67 | with distinct versions the decision does not depend on the order of the queried rows, and is above all of them |
| Ingestion.Pipeline.BuildRows | tradegraph/src/rag/ingestion/pipeline.py:119-172 | chunk rows and points are built pairwise with fresh ids until the shortest input ends, and a length mismatch is an error |
| Ingestion.Pipeline.IndexChunks | tradegraph/src/rag/ingestion/pipeline.py:112-181 | embedding and indexing of the chunks, with failures of the embedder, of the zip and of the upsert, some of whose points may have been stored |
| Ingestion.Pipeline.IngestFiling | tradegraph/src/rag/ingestion/pipeline.py:48-193 | one ingest over the three stores in the source's order, with a failure possible at each foreign call |
| Ingestion.Pipeline.RunBatch | tradegraph/src/rag/ingestion/pipeline.py:173-179 | a transaction of ingests ends in a commit, or in a rollback after the first failure |
| IngestionSafety.KeyDeterminesHash | tradegraph/src/data/object_storage.py:84-96 | object keys of different digests never collide, whatever the ticker, type and extension |
| IngestionSafety.SharedObjectExactly | tradegraph/src/data/object_storage.py:84-96 | two filings share an object exactly when ticker, apart from case, type, digest and extension agree, for tickers and types without a slash |
| IngestionSafety.ExtensionMeaning | tradegraph/src/rag/ingestion/pipeline.py:77-79 | the extension is what follows the last dot of the document's name, and htm without one |
| IngestionSafety.KeyExample | tradegraph/src/data/object_storage.py:84-96 | the key of one filing, written out |
| IngestionSafety.TransactionKeepsGood | tradegraph/src/rag/ingestion/pipeline.py:64-193 | each transaction keeps the stores in agreement, loses no object or point, and changes no committed row |
| IngestionSafety.CommittedRowsStay | tradegraph/src/rag/ingestion/dedup.py:53-61 | superseded rows never change: what is committed early is, row for row, a prefix of what is committed later |
| IngestionHistory.CrossStoreAgreement | tradegraph/src/rag/ingestion/pipeline.py:64-193 | after any history of commits and rollbacks every committed document is SUCCEEDED with an object of its digest, every committed chunk has a point with its id, document id and text, and digests are unique |
| IngestionHistory.SkippedExactly | tradegraph/src/rag/ingestion/pipeline.py:64-73 | an ingest is skipped exactly when a visible document has the digest of the fetched bytes, and then changes no store |
| IngestionHistory.IngestEffect | tradegraph/src/rag/ingestion/pipeline.py:84-193 | what a success adds: one document, next in its version chain, and one chunk with its point for every piece, in order |
| IngestionHistory.SucceedsExactly | tradegraph/src/rag/ingestion/pipeline.py:64-193 | exactly when an ingest succeeds: bytes fetched, new, stored and parsed, the row flushed, and unless there is nothing to index, one embedding and one sparse vector for every piece and an upsert that did not raise |
| IngestionHistory.VectorsOfTheirChunks | tradegraph/src/rag/ingestion/pipeline.py:112-172 | every new chunk's point has the embedding and the sparse vector computed for that very chunk, and the filing's own fields |
| IngestionHistory.RawBytesFirst | tradegraph/src/rag/ingestion/pipeline.py:75-94 | whatever fails later, rows and points are only added after the untouched bytes are in object storage under a key with their digest |
| IngestionHistory.ReingestChangesNothing | tradegraph/src/rag/ingestion/pipeline.py:67-73 | ingesting the same bytes again, even as another filing, changes none of the three stores |
| IngestionHistory.CommitAfterFailureExactly | tradegraph/src/rag/ingestion/pipeline.py:94-117 | committing after a failed ingest would leave the tables sound exactly when it failed before the document row was added |
| IngestionHistory.VersionChain | tradegraph/src/rag/ingestion/pipeline.py:86-115 | the documents with one ticker, type and filing date, and no others, carry exactly versions 1 to n, each superseding the one before; supersedes always points to an earlier document with the same three fields, so the relation has no cycle |
| IngestionHistory.FamilyExactly | tradegraph/src/rag/ingestion/pipeline.py:196-212 | the existing versions of a filing are exactly the documents with its ticker, type and filing date |
| IngestionHistory.OpensChainExactly | tradegraph/src/rag/ingestion/pipeline.py:89-115 | after any history a new document has version 1 and supersedes nothing exactly when no visible document has its ticker, type and filing date; otherwise it supersedes one that has, one version below |
| IngestionOrphans.NoOrphanExactly | tradegraph/src/rag/ingestion/pipeline.py:173-181 | after any history no point is without a chunk row exactly when no transaction that was rolled back had come to an item whose script stored a point: orphans stay |
| IngestionOrphans.OrphansOnlyFromFailures | tradegraph/src/rag/ingestion/pipeline.py:173-181 | and then the vector index holds exactly the points of the committed chunks |
| IngestionOrphans.OrphanLeft | tradegraph/src/rag/ingestion/pipeline.py:173-181 | a concrete orphan: an upsert that raises although its one point was stored |
| IngestionRetries.PutExactly | tradegraph/src/rag/ingestion/pipeline.py:64-84 | an ingest writes to object storage exactly when no visible document has the digest of the fetched bytes and the write is not lost on the way: once, under the key of filing and digest |
| IngestionRetries.VisibleExactly | tradegraph/src/rag/ingestion/pipeline.py:173-179 | a transaction shows either a document for every one of its items or nothing new, and nothing exactly when the commit fails or some item did |
| IngestionRetries.WrittenAgainExactly | tradegraph/src/rag/ingestion/pipeline.py:64-84 | after a rolled-back transaction, whatever it had written, any bytes are written again exactly when no document committed before it has their digest and the write is not lost |
| IngestionRetries.RetryWritesAgain | tradegraph/src/rag/ingestion/pipeline.py:173-179 | a concrete retry after a failed parse stores the same bytes under the same key a second time |
| Chunker.ChunkSection | tradegraph/src/rag/chunking/chunker.py:95-132 | the window loop computes the section's chunks and ends, for every size and every overlap below it |
| Chunker.ChunkDocument | tradegraph/src/rag/chunking/chunker.py:62-92 | the error for an overlap that is not below the size, else all sections' chunks in order and then one chunk for every table |
| Chunker.SectionsInOrder | tradegraph/src/rag/chunking/chunker.py:82-87 | the chunks of sections stand in the order of their sections |
| Chunker.TableMeaning | tradegraph/src/rag/chunking/chunker.py:89-161 | a table's chunk is numbered by its table, keeps it, and has as text one line for its title, if any, one for its headers, if any, and one for each row |
| Chunker.SliceMeaning | tradegraph/src/rag/chunking/chunker.py:118 | the positions a Python slice holds, a negative end included |
| Chunker.WindowsMeaning | tradegraph/src/rag/chunking/chunker.py:112-130 | for a long text: all chunks but the last are full, neighbours share exactly the overlap, the last adds a token, and their number is the least not below (n-overlap)/(size-overlap) |
| Chunker.Reconstruction | tradegraph/src/rag/chunking/chunker.py:112-130 | the first chunk and what each later one adds give back the token sequence |
| Chunker.CoveredExactly | tradegraph/src/rag/chunking/chunker.py:112-130 | for any overlap below the size, the windows cover exactly the positions whose distance from the last multiple of the stride is less than the size |
| Chunker.NothingLostExactly | tradegraph/src/rag/chunking/chunker.py:75-79 | no token position of a long text is lost exactly when the overlap is not negative, which nothing checks; otherwise the one right after the first chunk is |
| Chunker.SectionChunksMeaning | tradegraph/src/rag/chunking/chunker.py:98-110 | chunks are numbered from 0 in their section, hold their window's text and stay within the size; exactly blank sections have none |
| Contamination.IsMostlyAscii | tradegraph/src/rag/ingestion/india_code.py:196-200 | the 90% threshold in whole numbers, true of the empty text |
| Contamination.TruncateAtContamination | tradegraph/src/rag/ingestion/india_code.py:203-219 | the window loop cuts where its specification does |
| Contamination.CutIsFirst | tradegraph/src/rag/ingestion/india_code.py:216-219 | the cut is the first multiple of 20 whose 60-character window is contaminated; without one the text is whole |
| Contamination.ForeignBound | tradegraph/src/rag/ingestion/india_code.py:203-219 | a text returned whole has at most 10% non-ASCII characters, a prefix at most 4 beyond 10% of its length, and none beyond it at multiples of the window |
| Contamination.CutExactly | tradegraph/src/rag/ingestion/india_code.py:203-219 | p ASCII characters before at least 26 others: the kept prefix is exactly as long as the first multiple of 20 not below p-53, is all ASCII and loses at most 53 characters |
| Contamination.IdempotentOnPrefix | tradegraph/src/rag/ingestion/india_code.py:203-219 | a second pass changes nothing exactly when every stretch of the kept prefix that begins at a multiple of 20 and is shorter than a window is mostly ASCII |
| Contamination.IdempotentExactly | tradegraph/src/rag/ingestion/india_code.py:203-219 | with the first contaminated window at c, a second pass changes nothing exactly when the last 20 and the last 40 characters before c are mostly ASCII; without one it changes nothing |
| Contamination.WhollyAsciiExactly | tradegraph/src/rag/ingestion/india_code.py:203-219 | the kept prefix is wholly ASCII exactly when the text is or a contaminated window begins no later than its first other character |
| Contamination.LongestExactly | tradegraph/src/rag/ingestion/india_code.py:203-219 | it is the longest such prefix exactly when the text is wholly ASCII or the first contaminated window begins with its first other character |
| Contamination.NotIdempotent | tradegraph/src/rag/ingestion/india_code.py:203-219 | a family of texts whose kept prefix is neither, and which a second pass empties |
| Articles.SliceMeaning | tradegraph/src/rag/ingestion/india_code.py:76-92 | a slice runs from the first start marker to the first end marker after it, and fails exactly when there is no such pair |
| Articles.KeepHeadings | tradegraph/src/rag/ingestion/india_code.py:116-126 | the loop with its set of seen numbers keeps the first clean heading of each number |
| Articles.ParseArticles | tradegraph/src/rag/ingestion/india_code.py:95-193 | sections, dropped and truncated articles, or one of the two errors, from the matches on |
| Articles.KeptMeaning | tradegraph/src/rag/ingestion/india_code.py:118-126 | kept headings are matches in text order with titles free of the replacement character and distinct numbers in range, and no such heading's number is lost |
| Articles.ArticlesPartition | tradegraph/src/rag/ingestion/india_code.py:134-140 | heading and body slices partition the text from the first kept heading to its end |
| Articles.EveryHeadingOnce | tradegraph/src/rag/ingestion/india_code.py:134-173 | sections and dropped articles account for every kept heading exactly once, in order; dropped are exactly those cut to fewer than 20 characters |
| PublishedArticles.ParsedExactly | tradegraph/src/rag/ingestion/india_code.py:129-193 | the whole answer: no article when no heading is kept, all garbled when every article was cut to fewer than 20 characters, and otherwise the other articles with their texts, the lost ones' names and the cut ones' names, each in text order |
| PublishedArticles.ArticleMeaning | tradegraph/src/rag/ingestion/india_code.py:132-173 | a published article is its number, its title and the words of the kept part of what follows its heading up to the next kept one; its visible characters are those of the heading followed by those of that part, the whole of it when it was not cut, with replacement characters as dashes |
| PublishedArticles.NoArticlesExactly | tradegraph/src/rag/ingestion/india_code.py:118-130 | no article is found exactly when no match has its number in the range and a title free of the replacement character |
| PublishedArticles.CollapsedWords | tradegraph/src/rag/ingestion/india_code.py:155 | collapsing white space leaves the words of the text, one space apart |
| PublishedArticles.WordsConcat | tradegraph/src/rag/ingestion/india_code.py:155 | white space parts words |
| PublishedArticles.ReplacedMeaning | tradegraph/src/rag/ingestion/india_code.py:141 | each replacement character becomes a dash between spaces and nothing else changes |
| Articles.CollapsedMeaning | tradegraph/src/rag/ingestion/india_code.py:155 | collapsing white space keeps every other character in order and leaves single spaces only between them |
| Articles.PublishedIsClean | tradegraph/src/rag/ingestion/india_code.py:121-173 | no published article shows a replacement character, and an article published uncut had at most 10% non-ASCII characters |

## Left out

- JobSafety.Lifecycle: stated for runs in which no delivery repeats after the commit that ended the job and no final commit raises after it was stored; JobExact.LifecycleExactly says over every run exactly when it holds.
- JobSafety.SucceededIsOneRun: under the same condition; over every run JobExact.SucceededExactly and JobExact.OneRunAtCommit give the exact one.
- JobSafety.DeleteAfterWorker: under the same condition; over every run JobExact.OverlapBeginsExactly says exactly when it breaks.
- JobExact.SucceededExactly: for a job that was not deleted; after a delete, JobExact.SucceededSince and JobExact.OneRunAtCommit say the same of the last final commit.
- JobProtocol: a message is redelivered only once its worker is lost; a broker that redelivers while the first worker is still alive, and so two workers on one job, is not modelled. One delete is open at a time. The status AWAITING_REVIEW is never set by the code.
- ResearchRun.RunResearch: a run that no exception ends. A model call that raises is the failing ending of `JobWorker.Task.RunResearchJob`. So are a hit without chunk or document id, and a claim that repeats an index, whose second link row the database would refuse: `RowAgreement.LinkKeysExactly` says exactly when that happens.
- Ingestion.Pipeline.IngestFiling: one session at a time; two ingests racing on the unique digest are not modelled. The unordered query of existing versions is read in table order, which `Versions.DecisionIgnoresOrder` shows to be enough.
- ResearchRun.GetOrCreate: a new job row gets the next number instead of the id the caller passes; `StoredRuns.Event` lets a deleted job's row come back under its own.
- JobResponse.LoadClaims: claims are listed in stored order; the rows of one transaction share their creation time, so the source leaves the order within one run open. Documents are joined by id only.
- StreamText.Received: the fields a client ignores here (id, retry, comments) have no effect.
- JobHistory.ExecutionIsHistory: rows are compared by kind; their contents are those of the history's runs.
- Ingestion.World: fresh ids stand for uuid4, an arbitrary function to 64-character strings for sha256 (no injectivity is used), and upper-casing of tickers covers ASCII only.
- Articles.ParseArticles: starts from the cleaned text and its matches; the header and white-space removal before that (tradegraph/src/rag/ingestion/india_code.py:111-113) is regular-expression work. The two warnings become fields of the result.
- Scores are exact rationals: rounding of floats is not modelled.
- Previews sent to the reranker (the first 400 characters) and prompts: the service's answer is arbitrary, so they change nothing that is proved.
- `ingest_constitution_part`: it repeats the ingest with neither the digest gate nor versions.
- `check_duplicate`: a dictionary lookup that the ingest does not use.
- White space: the ASCII white space of Python only; other Unicode white space is ordinary text here.
- Regular expressions, PDF and HTML extraction, the tokenizer, the BM25 encoder and the embedder: their results are given.
- HTTP, object storage, vector store and queue transport, retry timing, metrics, settings and prompt loading.
- The citation graph, whose meaning lies in the graph database, and the web interface.
