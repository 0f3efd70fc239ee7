# A verified model of the benchmark harness

The harness under `benchmarks/` drives a retrieval server through many fixtures, watches the run, pairs delivered
text with citations, scores rankings, and builds question sets that must not give the answer away. This project
models the parts of it that hold real algorithms and proves what they keep, for every input and every run.

`dafny verify dfyconfig.toml` checks everything.

## How the modules fit together

- **Server lifecycle.** `Lifecycle` is a state machine over the observable steps of `BenchServer`: the operating
  system (processes with their environment and token, who holds the port, what each server serves), the three fields
  the orchestrator keeps, and the point reached inside a call. Every step can fail and the environment may act between
  any two steps. `LifecycleSafety` proves an inductive invariant and what a returned call may rely on. `Orchestrator`
  holds the class `BenchServer` itself; each of its methods logs the steps it takes in a ghost run, and its `Valid()`
  says that this is a run of the machine, so what holds of all runs holds of all histories of an object.
- **Run monitor.** `Monitor` has the class `BenchmarkMonitor`, whose methods are tied to a fold over observations, and
  the properties of that fold over whole histories.
- **Citation pairing.** `GreedyMatching` is greedy matching over an arbitrary relation, `Citations` the two-pass
  pairing with its worklist, `CitationsSafety` what it guarantees, and `BlockText` the way from documents to the
  delivered string and back.
- **Rankings and pair counting.** `Ordering` (sorting by a strict total order), `Separation` (rank-sum AUC),
  `Ranking` (ranks as counts), `Bm25`, `Inversions` (inversions, forward asymmetry, dominance), `Percentiles`.
- **Selection and text.** `Scrub` (the no-leak scrubber), `LineRecovery` (line ranges from a match), `BudgetClamp`
  and `PacketClamp` (token budgets), `Harvest` (stratified unique needles), `CrossNeedles` (round robin), and the
  helpers `Shuffling`, `Counting` and `Text` (Python's `strip`, `find`, `split`, `join`).

Floats are real numbers, `log` is any strictly increasing function with value 0 at 1, a tokenizer is any function from
text to naturals, and a shuffle or random pick is any permutation or choice.

## Where the code and its documentation disagree

The model follows the code in each case, and the lemma named says exactly when the two differ.

- The comment at `benchmarks/_citations.py:263` says that an unmatched headered block is never handed out by position.
  It is, exactly when no header begins any citation's id, there are as many blocks as citations, and some block has a
  header (`CitationsSafety.MispairsHeaderIff`; an input: `CitationsSafety.HeaderCanBeMispaired`).
- The docstring at `benchmarks/cb_dpacket_clamp_rescore.py:228-229` calls the clamp identical to the fingerprint arm's
  fill. On the same costs the two keep the same items exactly when no usable item but the first comes up below the
  budget and oversteps it (`BudgetClamp.SameFillIff`; an input: `BudgetClamp.FillsCanDiffer`).
- The docstring at `benchmarks/build_shard_gold.py:153-154` says that a forbidden word inside a longer identifier is
  still caught. An underscore is a word character there, so it is not (`Scrub.LongerWordSurvives`): a token of word
  characters removes exactly the words equal to it (`Scrub.WordTokenRemovesExactly`).
- Both `_scrub` functions promise the removal of every forbidden token as a whole word. A token never comes through,
  whatever the text and whatever else is forbidden, exactly when it has word characters at both ends, no two other
  characters in a row and no space, or when it contains two blanks in a row, which no result does
  (`Scrub.NeverLeaksIff`); for the shard builder three newlines in a row do as well (`Scrub.NeverLeaksInShardsIff`).
  So a dot file, a directory in brackets or `a--b` can come through.
- `switch` promises same-mode hot-swaps (`benchmarks/bench_orchestrator.py:365-368`). After a call that raised between
  the spawn and the recording of the fixture, the next switch can hot-swap a fixture into a server of the other mode
  (`LifecycleSafety.FailedFirstSwapLeadsToWrongMode`, `LifecycleSafety.StaleRecordLeadsToWrongMode`); it cannot exactly
  when the recorded fixture has the live server's mode (`LifecycleSafety.SwitchSafeIff`).
- The comment at `benchmarks/ab_whitening_dense.py:155` calls tie handling negligible. Ties are in fact decided: all
  of them count against the golds, so the result is exactly the share of strict wins (`Separation.GoldVsRandomAuc`).
- `_gold_inversions` is described next to `_exact_inversions` as a count within the top K. That count bounds it for all
  scores exactly when the best gold is inside the top K, or K is 0 (`Inversions.GoldInversionsWithinTopKIff`).
- The visit limits of the two `make_cross_needles` (`benchmarks/build_gold_from_genome.py:376-377`,
  `benchmarks/build_shard_gold.py:502-503`) never shorten the result, for all sizes and all numbers wanted, exactly when
  there are at most 50 projects, and at most 10 (`CrossNeedles.LimitsMatterIff`).

## Model

| member | source | states |
|---|---|---|
| Lifecycle.SpawnModeIff | benchmarks/bench_orchestrator.py:480-495 | a spawned server runs in its fixture's mode if and only if the fixture's own variables leave the mode variable alone or agree with it, whatever environment was inherited |
| Lifecycle.SpawnEnvInherits | benchmarks/bench_orchestrator.py:480-495 | Python's own variables aside: the fixture's variables win, the token is set, and every variable but the mode's is inherited as it is |
| LifecycleSafety.StepKeepsInv | benchmarks/bench_orchestrator.py:331-711 | every step of every call, failing ones and the environment's included, keeps the invariant on the process slot, on server identity and on modes |
| LifecycleSafety.RunKeepsInv | benchmarks/bench_orchestrator.py:331-711 | every reachable state satisfies that invariant, for any interleaving of calls, failures and outside events |
| LifecycleSafety.LiveServerMatchesCurrent | benchmarks/bench_orchestrator.py:331-376 | between calls, a live server and the recorded fixture have the same mode, unless a call raised after the spawn and before a fixture was recorded |
| LifecycleSafety.ReturnedCallServesItsFixture | benchmarks/bench_orchestrator.py:331-376 | after a call returned, its fixture is recorded and the live server in the slot runs in its mode; with token-echoing servers that server also holds the port and serves the fixture's database. After a start or restart without condition, after a hot-swap unless an earlier call raised between that server's spawn and the recording of a fixture |
| LifecycleSafety.SpawnedInThisCall | benchmarks/bench_orchestrator.py:331-360 | from its spawn to the return of a start or restart, the server in the slot is the one that was spawned since the call began |
| LifecycleSafety.ReturnedSpawnWasAnsweredByIt | benchmarks/bench_orchestrator.py:580-629 | start and restart return only after /health was answered by the process that this very call spawned for the fixture it returns, or by one that echoes no token |
| LifecycleSafety.CallEndsAs | benchmarks/bench_orchestrator.py:331-376 | a finished start or switch returned for the fixture it was called with if and only if nothing broke and its swap was answered, with genes where the fixture has to hold some; it raised if and only if nothing broke and there was no such answer |
| LifecycleSafety.ReturnedCallPassedGuard | benchmarks/bench_orchestrator.py:690-711 | in every run a call that returned had its last swap answered, and answered with more than 0 genes if its fixture has to hold some |
| LifecycleSafety.GuardVerdict | benchmarks/bench_orchestrator.py:690-711 | a guard that runs to its end raises if and only if the fixture called for has to hold genes and the last swap was answered with none; otherwise the call returns |
| LifecycleSafety.StrangerAcceptedIff | benchmarks/bench_orchestrator.py:604-625 | the identity check lets another server through if and only if that server echoes no token and reports no pid or the spawned pid |
| LifecycleSafety.OwnServerAcceptedIff | benchmarks/bench_orchestrator.py:604-625 | it accepts the spawned server itself if and only if, echoing a token, that is the drawn one and not one of the fixture's own variables, or, echoing none, it reports no pid or its own |
| LifecycleSafety.SpawnFollowsPortFree | benchmarks/bench_orchestrator.py:548-578 | a spawn is preceded by a refused connection to the port with only outside events in between, the slot holds no live server, and on a restart the replaced server is dead |
| LifecycleSafety.DirtyMeansUnrecordedSpawn | benchmarks/bench_orchestrator.py:343-351 | the excluded case arises only from a call that raised after the last spawn, before any fixture was recorded, with no stop since |
| LifecycleSafety.InFlightSinceSpawn | benchmarks/bench_orchestrator.py:343-351 | a state between spawn and recording is reached from that spawn without another spawn, stop, recording or raised exception |
| LifecycleSafety.SwitchSafeIff | benchmarks/bench_orchestrator.py:370-376 | no next switch hot-swaps into the wrong mode if and only if the recorded fixture has the live server's mode |
| LifecycleSafety.FailedFirstSwapLeadsToWrongMode | benchmarks/bench_orchestrator.py:343-376 | a run in which the first swap after a cold start fails and a later switch returns with the server in the wrong mode |
| LifecycleSafety.StaleRecordLeadsToWrongMode | benchmarks/bench_orchestrator.py:343-376 | a run that reaches the same through a record left over from a server that died |
| Orchestrator.BenchServer.constructor | benchmarks/bench_orchestrator.py:306-316 | a new object has an empty slot, no record and no token, and an empty run |
| Orchestrator.BenchServer.WaitPortFree | benchmarks/bench_orchestrator.py:548-578 | returns only on a refused connection, raises at the deadline, fails otherwise if the attempt itself does, and leaves slot, record and token alone |
| Orchestrator.BenchServer.SpawnServer | benchmarks/bench_orchestrator.py:475-546 | puts a new process into the slot, with the fixture's environment and a token nobody was given before, or fails with an exception other than BenchServerError and leaves the slot alone |
| Orchestrator.BenchServer.AskHealth | benchmarks/bench_orchestrator.py:584-625 | one round is silent, accepts an answer that passes the identity check, or fails; slot, record and token stay |
| Orchestrator.BenchServer.JudgeAnswer | benchmarks/bench_orchestrator.py:604-625 | accepts if and only if the identity check passes on whoever holds the port: the token if both sides have one, else the pid; otherwise a BenchServerError |
| Orchestrator.BenchServer.WaitHealthy | benchmarks/bench_orchestrator.py:580-629 | returns only after an accepted answer |
| Orchestrator.BenchServer.PostSwap | benchmarks/bench_orchestrator.py:666-687 | on success the port's holder serves the database and the fixture is recorded; on failure the record stays as it was; slot and token stay |
| Orchestrator.BenchServer.Post | benchmarks/bench_orchestrator.py:674-687 | the same for the request alone, which may fail after the server acted on it |
| Orchestrator.BenchServer.SwapRecordGuard | benchmarks/bench_orchestrator.py:631-641 | swap, record and gene guard: it returns for the given fixture and mechanism with the gene count that the swap was answered with, more than 0 if the fixture has to hold genes, or fails |
| Orchestrator.BenchServer.SpawnAndAttach | benchmarks/bench_orchestrator.py:643-664 | free port, spawn, identity check and swap in this order, from a slot without a live server |
| Orchestrator.BenchServer.StartBody | benchmarks/bench_orchestrator.py:331-360 | the body of start as a run of the machine; its mutual recursion with switch terminates because a dead process stays dead |
| Orchestrator.BenchServer.SwitchBody | benchmarks/bench_orchestrator.py:362-376 | the body of switch: start, restart or hot-swap by liveness and recorded mode |
| Orchestrator.BenchServer.StopBody | benchmarks/bench_orchestrator.py:378-437 | the slot is emptied whatever happens, and a normal return means the server that was in it is dead |
| Orchestrator.BenchServer.ConfirmDead | benchmarks/bench_orchestrator.py:391-437 | after signals and waits, returns only if the process is dead |
| Orchestrator.BenchServer.Start | benchmarks/bench_orchestrator.py:331-360 | a returned start leaves a state in which the fixture may be benched, with genes where it has to hold some; how it ends is determined by the steps it took, as in CallEndsAs |
| Orchestrator.BenchServer.Switch | benchmarks/bench_orchestrator.py:362-376 | a returned switch leaves a state in which the fixture may be benched, with genes where it has to hold some; how it ends is determined by the steps it took, as in CallEndsAs |
| Orchestrator.BenchServer.Stop | benchmarks/bench_orchestrator.py:378-437 | stop from outside a call: empty slot always, dead server on a normal return |
| Orchestrator.BenchServer.RunOne | benchmarks/bench_orchestrator.py:897-925 | one pass: a switch to the fixture was called in the run and ended in a state that fits how the pass ended, for a benched one a state that serves the fixture after a swap answered with genes where it has to hold some, for a failed one no such answer |
| Orchestrator.BenchServer.RunMatrix | benchmarks/bench_orchestrator.py:890-926 | over any list of fixtures: the passes are switches of the run with no other call between them, a row is benched only where its switch returned and serves its fixture, a BenchServerError is skipped, any other exception ends the loop, and stop is called last, leaving the last server dead if it returns |
| Monitor.BenchmarkMonitor.constructor | benchmarks/benchmark_monitor.py:144-155 | the initial counters, an empty incident list and a cleared abort flag |
| Monitor.BenchmarkMonitor.LogIncident | benchmarks/benchmark_monitor.py:309-327 | appends exactly one incident and changes nothing else |
| Monitor.BenchmarkMonitor.GatedIncident | benchmarks/benchmark_monitor.py:644-668 | before the threshold a restart request and the abort flag, after it a warning only |
| Monitor.BenchmarkMonitor.TrackVram | benchmarks/benchmark_monitor.py:593-642 | the VRAM branch: saturated is gated and leaves the counter alone, pressure counts up and fires, healthy resets |
| Monitor.BenchmarkMonitor.RunCheck | benchmarks/benchmark_monitor.py:476-642 | one check as a step of the fold over observations; CheckLogs and CheckAborts say what that step logs and decides |
| Monitor.CheckLogs | benchmarks/benchmark_monitor.py:476-642 | one check logs, once each and in this order, exactly the incidents whose condition holds on the observation, the progress before it and the pressure counter: tampering, dead process, stall, server down, unauthorized model, saturated VRAM, sustained pressure |
| Monitor.CheckCounts | benchmarks/benchmark_monitor.py:476-642 | for each kind one check adds one incident if its condition holds and none otherwise |
| Monitor.CheckAborts | benchmarks/benchmark_monitor.py:501-660 | a check sets the flag if and only if a critical condition holds, or a gated one on a completion count that is early at that condition's own reading |
| Monitor.ProgressTracked | benchmarks/benchmark_monitor.py:530-535 | after any history the monitor's progress is the highest count that a check compared and the time it was first compared |
| Monitor.BestReached | benchmarks/benchmark_monitor.py:530-535 | that time is given by the first check that compared the highest count, or by the monitor's start if nothing was completed |
| Monitor.HistoryCounts | benchmarks/benchmark_monitor.py:476-642 | over any history each kind of incident is logged exactly as often as its condition held, told from the observations alone |
| Monitor.ServerDownCounts | benchmarks/benchmark_monitor.py:554-571 | the server-down incidents are exactly the checks that did not end early and saw the server down |
| Monitor.HistoryAborts | benchmarks/benchmark_monitor.py:501-660 | over any history the flag is set if and only if at some observation a critical condition held, or a gated one on an early count |
| Monitor.RunStopsAtDecision | benchmarks/benchmark_monitor.py:704-712 | every run ends aborted right after the first such observation, or else sees all of them |
| Monitor.BenchmarkMonitor.RunLoop | benchmarks/benchmark_monitor.py:704-712 | the loop equals the fold over the observations made up to the first abort |
| Monitor.StopsAt | benchmarks/benchmark_monitor.py:706-712 | the loop stops after exactly the observations up to and including the one that set the flag |
| Monitor.TakenUntilAbort | benchmarks/benchmark_monitor.py:706 | the loop gets exactly to the first observation before which the flag was set, or to the end |
| Monitor.HistoryExplained | benchmarks/benchmark_monitor.py:476-668 | in every history critical incidents abort, high ones are gated by the count they were decided on, medium ones only warn, and the flag is set exactly by the aborting ones |
| Monitor.AbortIffIncident | benchmarks/benchmark_monitor.py:501-528 | in every run abort is set if and only if some incident has action abort or restart_requested |
| Monitor.EarlyIffWithinBudget | benchmarks/benchmark_monitor.py:293-303 | early means that fewer needles are done than max(min_pct N, min(max_pct N, budget)) |
| Monitor.EarlyByCount | benchmarks/benchmark_monitor.py:293-303 | the same by comparisons alone: fewer than the lower share of N, or fewer than both the upper share and the budget, N being 1 at least |
| Monitor.NonCriticalAbortIsCheap | benchmarks/benchmark_monitor.py:652-660 | in every run a non-critical abort was decided on a count below that bound |
| Monitor.DefaultAbortIsCheap | benchmarks/benchmark_monitor.py:83-85 | with the default configuration the bound is max(0.05 N, min(0.30 N, 150)) |
| Monitor.LateRunsAbortOnlyCritically | benchmarks/benchmark_monitor.py:293-303 | once the threshold is reached and the count never falls below it, only critical incidents abort |
| Monitor.CheckCounters | benchmarks/benchmark_monitor.py:593-642 | one check moves the pressure counter and the number of sustained incidents by its VRAM reading alone |
| Monitor.PressureCounterExact | benchmarks/benchmark_monitor.py:593-642 | after any history the counter is the pressure readings since the last healthy one modulo the pass limit, and the sustained incidents fired since then are the quotient; saturated and missing readings are neutral |
| Monitor.BenchmarkMonitor.FinalReport | benchmarks/benchmark_monitor.py:728-758 | the tallies are exact, clean means no critical and no high incident, and the status follows the worst severity |
| Monitor.CountsSum | benchmarks/benchmark_monitor.py:730-734 | severity counts and type counts each sum to the number of incidents |
| Monitor.ReportRun | benchmarks/benchmark_monitor.py:728-758 | for every run, told from its observations: each kind is tallied as often as its condition held and the run is aborted exactly by a decisive one; both tallies sum to the incident count, an aborted run is never clean, and a clean run logged nothing but sustained-pressure warnings |
| GreedyMatching.GreedySound | benchmarks/_citations.py:243-254 | claims are in the relation, no right element is claimed twice, and the worklist is what is left, in order |
| GreedyMatching.GreedyComplete | benchmarks/_citations.py:243-254 | an element leaves the worklist only by being claimed |
| GreedyMatching.GreedyIsMaximalMatching | benchmarks/_citations.py:243-254 | greedy claiming is a maximal matching of any relation |
| GreedyMatching.GreedyFindsOwn | benchmarks/_citations.py:243-254 | if each element is related to exactly its own partner, it claims it |
| Citations.ScanWorklist | benchmarks/_citations.py:249-254 | finds the first block of the worklist whose header begins the gene id |
| Citations.JoinsIff | benchmarks/_citations.py:250 | a block joins a citation if and only if its id is a non-empty beginning of the citation's gene id |
| Citations.Unmatched | benchmarks/_citations.py:264 | the citations the id join missed, in order |
| Citations.UnmatchedIff | benchmarks/_citations.py:264 | every citation the id join missed is listed, and no other |
| Citations.HeaderlessIff | benchmarks/_citations.py:266 | the candidates after a join are exactly the given blocks without a header |
| Citations.IdJoin | benchmarks/_citations.py:243-254 | pass 1 computes the greedy claims of the prefix relation |
| Citations.PairBlocks | benchmarks/_citations.py:243-282 | both passes: one row per citation in citation order, its body that of its joined or fallback block, else empty |
| CitationsSafety.PairingInjective | benchmarks/_citations.py:243-282 | no block is handed to two citations, over both passes |
| CitationsSafety.FallbackFacts | benchmarks/_citations.py:264-270 | the fallback list consists of distinct blocks in order, none of them claimed by the id join |
| CitationsSafety.FallbackKeepsOrder | benchmarks/_citations.py:264-281 | citations paired by position get their blocks in delivery order |
| CitationsSafety.FailsClosed | benchmarks/_citations.py:264-270 | an unjoined citation gets a block if and only if the counts agree; otherwise its body is empty |
| CitationsSafety.JoinedRunsNeverMispair | benchmarks/_citations.py:265-266 | once any id joined, no headered block goes to a citation it does not begin |
| CitationsSafety.UnjoinedPairsByIndex | benchmarks/_citations.py:267-270 | when nothing joined, blocks and citations pair index by index if there are as many, else not at all |
| CitationsSafety.NothingJoinedIff | benchmarks/_citations.py:243-254 | the id join is empty if and only if no header begins any citation's id |
| CitationsSafety.MispairsHeaderIff | benchmarks/_citations.py:256-270 | a headered block goes to a foreign citation if and only if no header begins any citation's id, the counts agree and some block has a header |
| CitationsSafety.HeaderCanBeMispaired | benchmarks/_citations.py:256-270 | an input on which it does |
| CitationsSafety.DroppedCitationsDoNotShift | benchmarks/_citations.py:190-204 | with unambiguous headers, whatever citations were dropped or reordered and whatever headerless blocks interleaved, every remaining citation gets exactly its own block |
| BlockText.ParseLoop | benchmarks/_citations.py:226-239 | every raw block is parsed, in order |
| BlockText.HeaderOf | benchmarks/_citations.py:229-230 | a header is trusted only if its captured id is hex-shaped |
| BlockText.ExtractBlockBodies | benchmarks/_citations.py:219-282 | the whole extraction pairs the citations with the blocks parsed from the content; RenderedBlockParses and CitationsRecoverBodies say what these are |
| BlockText.HeaderFound | benchmarks/_citations.py:136-148 | a rendered header is recognised at its full length, whatever follows |
| BlockText.HeaderTrustedIff | benchmarks/_citations.py:144-151 | a header is trusted if and only if its id consists of 8 to 16 hexadecimal digits |
| BlockText.HeaderlessParses | benchmarks/_citations.py:238-239 | a block without a trusted header is kept whole |
| BlockText.NothingWrapped | benchmarks/_citations.py:219-220 | an empty wrapper has no blocks |
| BlockText.RenderedFirstPiece | cymatix_context/context_manager.py:3662 | the first piece of a delivered document is its header line and what follows up to the first separator |
| BlockText.StubIff | benchmarks/_citations.py:231 | a header line is taken for a stub if and only if what follows its short id contains the delivery arrow or the text "see earlier response" |
| BlockText.StubSaysDelivered | cymatix_context/identity/session_delivery.py:257 | the line that stands for an already delivered document does |
| BlockText.LinedPieceParses | benchmarks/_citations.py:227-239 | a header line and whatever follows parse to the short id and the rest, nothing if and only if the header bears a delivery mark |
| BlockText.RenderedBlockParses | benchmarks/_citations.py:227-239 | parsing undoes rendering, in full or as the bare stub line: the short id and the delivered body come back, empty exactly if the header bears a delivery mark |
| BlockText.BodyDelivered | benchmarks/_citations.py:236-237 | a document whose header bears no delivery mark delivers its body up to the first separator, without the newlines in front and the blanks behind |
| BlockText.WholeBody | benchmarks/_citations.py:236-237 | a body without separators is delivered whole but for blanks at its ends |
| BlockText.WrapperStripped | benchmarks/_citations.py:170-176 | unwrapping leaves the joined parts without newlines at their ends |
| BlockText.WrappedPartsParse | cymatix_context/context_manager.py:3722-3729 | unwrapping and splitting undo joining and wrapping |
| BlockText.WrappedPiecesParse | cymatix_context/context_manager.py:3722-3729 | for parts that contain separators the blocks are those of all their pieces, in order |
| BlockText.CitationsRecoverBodies | benchmarks/_citations.py:179-282 | end to end, from documents through the delivered string, full texts and stubs, separators inside bodies included: each remaining citation gets its own document's body up to its first separator, and nothing exactly if its header bears a delivery mark |
| Ordering.SortBySorts | benchmarks/ab_semantic_probe.py:121 | sorting permutes and orders |
| Ordering.SortedIsUnique | benchmarks/ab_semantic_probe.py:121 | the order of distinct elements is unique, whatever algorithm sorts |
| Ordering.PositionIsCount | benchmarks/coderag_bench.py:192-193 | a position in sorted order is the number of smaller elements |
| Ordering.ByScoreStrictTotal | benchmarks/ab_rerank_combinator.py:127 | score descending with an id tie-break is a strict total order |
| Separation.PairsCountedOnce | benchmarks/ab_whitening_dense.py:156-158 | summing ranks within a set counts every pair once: the term n(n-1)/2 |
| Separation.TiesCountAgainstGold | benchmarks/ab_whitening_dense.py:152-153 | under the stable sort of golds before randoms, exactly the strictly smaller randoms rank below a gold |
| Separation.WinsIs | benchmarks/ab_whitening_dense.py:151-158 | the strict wins are the pairs of a gold and a random with the gold strictly greater |
| Separation.ArgsortRank | benchmarks/ab_whitening_dense.py:153-154 | the argsort places an index at the number of indices below it |
| Separation.RankByScatter | benchmarks/ab_whitening_dense.py:154 | scattering 1..n through the argsort yields each index's 1-based rank |
| Separation.RankSumIsWins | benchmarks/ab_whitening_dense.py:156-158 | the rank sum of the golds is their own pairs plus the strict wins over randoms |
| Separation.GoldVsRandomAuc | benchmarks/ab_whitening_dense.py:151-158 | the computed AUC is exactly the fraction of pairs in which gold is strictly greater, and lies in [0, 1] |
| Ranking.EmittedOrderFacts | benchmarks/ab_semantic_probe.py:114-121 | the emitted order permutes the pool, and each id in it has a higher score than a later one, or the same and the smaller id |
| Ranking.EmittedOrderIsDeterministic | benchmarks/ab_semantic_probe.py:114-121 | it does not depend on the order of the score table |
| Ranking.BestGoldRank | benchmarks/ab_semantic_probe.py:124-131 | the 1-based position of the first gold id, absent if and only if there is none |
| Ranking.BestGoldRankIsCount | benchmarks/ab_semantic_probe.py:114-131 | it is one more than the number of pool ids that beat every gold id |
| Ranking.PositionByScore | benchmarks/coderag_bench.py:192-193 | the position is the number of documents with a higher score, or an equal score and a lower index |
| Ranking.VectorisedRankIsOptimistic | benchmarks/ab_whitening_dense.py:129-131 | the vectorised rank never exceeds the deterministic one, and equals it if and only if no earlier document ties |
| Bm25.CountTokens | benchmarks/coderag_bench.py:159-161 | the table holds exactly the occurrence counts |
| Bm25.OccurrencesIs | benchmarks/coderag_bench.py:159-161 | a token's count is its multiplicity in the document |
| Bm25.DocFreqIs | benchmarks/coderag_bench.py:163-164 | the document frequency is the number of documents that contain the token |
| Bm25.AddDocument | benchmarks/coderag_bench.py:163-164 | a document raises the frequency of exactly its own tokens by one |
| Bm25.BM25.constructor | benchmarks/coderag_bench.py:149-169 | the tables are exact: term and document frequencies, lengths, average and floored idf |
| Bm25.BM25.Scores | benchmarks/coderag_bench.py:171-187 | computes each document's score for the query's token set, in the usual parameter range the sum of the written-out Okapi gains in terms of the corpus, k1 and b; there is no result if and only if some matched token has a zero divisor, which that range excludes |
| Bm25.BM25.ScoreIsOkapi | benchmarks/coderag_bench.py:171-187 | a score is the sum over the query's tokens of ln((N - df + 0.5)/(df + 0.5) + 1) occ (k1 + 1) / (occ + k1 (1 - b + b len / average)), over the shared ones only |
| Bm25.BM25.AverageLengthDivisor | benchmarks/coderag_bench.py:176-179 | in a document of average length the divisor is the occurrences plus k1 |
| Bm25.BM25.PartGrows | benchmarks/coderag_bench.py:176-185 | a token adds more to a document the more often it occurs, and with b above 0 the shorter the document, strictly |
| Bm25.BM25.ScoreGrows | benchmarks/coderag_bench.py:171-187 | a document no longer than another with no fewer occurrences of any query token scores no less, and scores more if and only if it has more of some query token, or b is above 0, it is shorter, and some query token is shared |
| Bm25.BM25.LengthIgnoredWithoutB | benchmarks/coderag_bench.py:176-179 | with b = 0 documents with the same occurrences score the same, whatever their lengths |
| Bm25.BM25.ScoreIgnoresOrder | benchmarks/coderag_bench.py:173-185 | the order in which the query's tokens are visited makes no difference |
| Bm25.BM25.FloorNeverBinds | benchmarks/coderag_bench.py:166-169 | every idf is the logarithm itself and positive: the floor at zero never applies |
| Bm25.BM25.ScoreBounds | benchmarks/coderag_bench.py:171-187 | a score is positive if and only if document and query share a token, and then stays strictly below (k1 + 1) times the matched idf sum |
| Bm25.BM25.RankGoldPos | benchmarks/coderag_bench.py:189-193 | the rank is the number of documents that beat gold by score, then by index |
| Inversions.ExactInversions | benchmarks/ab_rerank_combinator.py:131-147 | the double loop counts the inverted pairs |
| Inversions.InvIs | benchmarks/ab_rerank_combinator.py:131-147 | the count is the number of pairs of places whose later document has the strictly higher fused score |
| Inversions.MissingScoreIsZero | benchmarks/ab_rerank_combinator.py:131-147 | a document without a score counts as one with 0 |
| Inversions.ZeroIffSorted | benchmarks/ab_rerank_combinator.py:131-147 | the count is 0 if and only if the list is in non-increasing fused order |
| Inversions.SwapChangesOnePair | benchmarks/ab_rerank_combinator.py:131-147 | an adjacent swap changes a pair count only by the pair it swaps, for any pair predicate |
| Inversions.SwapsAtLeast | benchmarks/ab_rerank_combinator.py:131-147 | no sequence of adjacent swaps sorts with fewer swaps than the count |
| Inversions.BubbleSortMakesInvSwaps | benchmarks/ab_rerank_combinator.py:131-147 | any sort that swaps only inverted neighbours makes exactly that many swaps |
| Inversions.FinishSorting | benchmarks/ab_rerank_combinator.py:131-147 | such a sort exists and can be finished from any point |
| Inversions.GoldInversions | benchmarks/ab_rerank_combinator.py:150-166 | the rank of the first gold, and the number of places before it and inside the top K with a strictly lower score |
| Inversions.GoldInversionsBounded | benchmarks/ab_rerank_combinator.py:150-166 | that number never exceeds the inversions of the emitted order, nor those of the top K when the best gold is inside |
| Inversions.GoldInversionsWithinTopKIff | benchmarks/ab_rerank_combinator.py:150-166 | the inversions of the top K bound the gold inversions for all scores if and only if the best gold is inside the top K or K is 0 |
| Inversions.FaiRow | benchmarks/bench_forward_recall.py:129-138 | one inner loop counts the later, better-ranked genes and skips pairs of missing ones |
| Inversions.Fai | benchmarks/bench_forward_recall.py:117-139 | the count is the number of pairs whose later gene has the better rank, the divisor the number of pairs with a rank at all, the count is also the inversion count of the negated ranks, and the index lies in [0, 1] |
| Inversions.DominatesPointwise | benchmarks/ab_rerank_combinator.py:178-182 | the test over the mentioned tiers is dominance over all tiers, missing ones read as 0 |
| Inversions.DominanceIsStrictPartialOrder | benchmarks/ab_rerank_combinator.py:178-182 | dominance is irreflexive, asymmetric and transitive over all tier maps |
| Inversions.DominatingSumsHigher | benchmarks/ab_rerank_combinator.py:178-182 | a dominating document has the strictly higher tier sum |
| Inversions.StrictDomInversions | benchmarks/ab_rerank_combinator.py:173-192 | the double loop counts the pairs whose later document dominates |
| Inversions.DominatedFirstIs | benchmarks/ab_rerank_combinator.py:173-192 | that count is the number of pairs of places whose later document dominates the earlier |
| Inversions.RerankClassesIgnored | benchmarks/ab_rerank_combinator.py:173-192 | exactly the contributions of the four rerank classes make no difference to a document's tiers |
| Inversions.SortedBySumHasNone | benchmarks/ab_rerank_combinator.py:173-192 | a list in descending order of tier sums has no such pair |
| Percentiles.PercentileMonotone | benchmarks/coderag_bench.py:233-240 | the percentile never falls as pct grows |
| Percentiles.PercentileBounds | benchmarks/bench_shard_recall.py:125-131 | it is the minimum at 0, the maximum at 100 and between the two otherwise |
| Percentiles.PercentileBlends | benchmarks/coderag_bench.py:233-240 | where (n - 1) pct / 100 falls between two positions, the percentile divides the gap between their sorted values in the same ratio, and at a whole position is the value there |
| Percentiles.MedianIs | benchmarks/coderag_bench.py:233-240 | the 50th percentile is the middle value of an odd number and the mean of the two middle ones of an even number |
| Percentiles.PercentileIgnoresOrder | benchmarks/coderag_bench.py:233-240 | it depends only on the multiset of values |
| Text.StripPieces | benchmarks/_citations.py:228 | strip removes only blank text at the two ends |
| Text.SplitJoin | benchmarks/_citations.py:220 | splitting undoes joining for parts that do not contain the separator and cannot form it with what follows |
| Text.SplitParts | benchmarks/_citations.py:220 | splitting joined parts yields the pieces of all of them, when no part's end runs into the separator behind it |
| Text.SplitTrimmed | benchmarks/_citations.py:176 | newlines at the ends can be stripped before splitting: the pieces are the same up to blanks |
| Scrub.WordsAppend | benchmarks/build_gold_from_genome.py:185 | where no two word characters meet, the words of a concatenation are those of its parts |
| Scrub.RemoveFromWords | benchmarks/build_gold_from_genome.py:185-186 | removing a token only deletes words, merges and creates none, and leaves no word equal to it in any casing |
| Scrub.RemoveAllWords | benchmarks/build_gold_from_genome.py:182-186 | the same for all tokens in turn |
| Scrub.CollapseKeepsWords | benchmarks/build_gold_from_genome.py:187 | shortening runs of blank characters keeps every word |
| Scrub.EqFoldIff | benchmarks/build_gold_from_genome.py:185-186 | two texts match case-insensitively if and only if they agree at each place up to the case of an ASCII letter |
| Scrub.WordCharacters | benchmarks/build_gold_from_genome.py:185 | the characters that a token may not touch are the ASCII letters, the digits and the underscore |
| Scrub.SubseqPlaces | benchmarks/build_gold_from_genome.py:185-186 | a subsequence is found at increasing places |
| Scrub.ResultsAreTidy | benchmarks/build_shard_gold.py:162-165 | no result has blanks at its ends or two spaces or tabs in a row, nor the shard builder's three newlines in a row |
| Scrub.CleanTextUntouched | benchmarks/build_gold_from_genome.py:180-188 | a tidy text that contains no token as a whole word in any casing comes through unchanged |
| Scrub.ScrubNeverLeaks | benchmarks/build_shard_gold.py:150-165 | both scrubbers: the words of the result are a subsequence of the input's, and none is a forbidden token in any casing of its letters |
| Scrub.ByLength | benchmarks/build_gold_from_genome.py:182 | the forbidden set, each token once, longest first |
| Scrub.TokenAloneVanishes | benchmarks/build_gold_from_genome.py:182-186 | a text that is itself a forbidden token leaves nothing, whatever shorter tokens inside it are forbidden too |
| Scrub.Scrub | benchmarks/build_gold_from_genome.py:180-188 | the loop returns what removing the tokens longest first, in any casing, collapsing and stripping gives |
| Scrub.ScrubResultNeverLeaks | benchmarks/build_gold_from_genome.py:180-188 | no leak for whatever the scrubber returns, however ties in length are ordered |
| Scrub.TightTokensNeverLeak | benchmarks/build_gold_from_genome.py:180-188 | a token with word characters at both ends, no two others in a row and no space never occurs as a whole word in the result of either scrubber |
| Scrub.RunTokensNeverLeak | benchmarks/build_shard_gold.py:163-164 | nor does a token with two blanks in a row, and for the shard builder one with three newlines, because no result contains such a run |
| Scrub.ComesThrough | benchmarks/build_gold_from_genome.py:182-187 | for every other token a text and a forbidden set, ordered as the source orders it, after whose removal and collapse the token stands as a whole word |
| Scrub.NeverLeaksIff | benchmarks/build_gold_from_genome.py:180-188 | for every token: no text and no further forbidden tokens make the scrubber return it as a whole word if and only if it is of one of these two kinds |
| Scrub.NeverLeaksInShardsIff | benchmarks/build_shard_gold.py:150-165 | the same for the shard builder's scrubber, with its newline runs |
| Scrub.WordTokenRemovesExactly | benchmarks/build_gold_from_genome.py:185-186 | a token of word characters removes exactly the words equal to it up to the case of letters |
| Scrub.LongerWordSurvives | benchmarks/build_shard_gold.py:150-161 | a longer word is not caught by a token it contains |
| Scrub.BuildQuestion | benchmarks/build_gold_from_genome.py:240-260 | the first candidate still long enough after scrubbing, with no path token among its words; none if and only if all are too short |
| Scrub.QueryNeverLeaks | benchmarks/build_shard_gold.py:397-416 | cutting a query after its first sentence leaks nothing either |
| Scrub.QueryIs | benchmarks/build_shard_gold.py:399-416 | there is a query if and only if 40 characters are left; it is the whole text, or its first sentence if that is longer than 40 characters and no question word opens the text |
| LineRecovery.LineCount | benchmarks/cb_cymatix_pred.py:105-106 | a file has one more line than newlines |
| LineRecovery.BeginsBefore | benchmarks/cb_cymatix_pred.py:105 | line k begins at or before a position if and only if at least k newlines precede it |
| LineRecovery.EndsAfter | benchmarks/cb_cymatix_pred.py:106 | line k ends at or after a position if and only if at most k newlines precede it |
| LineRecovery.JoinedLines | benchmarks/cb_cymatix_pred.py:105-107 | a range of lines, joined again, is the stretch of the file from its first line's beginning to its last line's end |
| LineRecovery.CoversIff | benchmarks/cb_cymatix_pred.py:105-107 | a range covers a match if and only if it includes the lines counted around it |
| LineRecovery.RecoveredRangeHolds | benchmarks/cb_cymatix_pred.py:92-107 | the range is inside the file, and its lines joined again contain the matched text at its first occurrence |
| LineRecovery.RecoveredRangeIsMinimal | benchmarks/cb_cymatix_pred.py:92-107 | a line range covers that occurrence if and only if it includes the recovered one, so none shorter does |
| LineRecovery.NothingRecoveredIff | benchmarks/cb_dpacket_clamp_rescore.py:149-163 | no range if and only if the content is blank, the file is missing, or neither the content nor its stripped form occurs |
| LineRecovery.LocateFinds | benchmarks/cb_cymatix_pred.py:97-104 | what is located is the first occurrence of the content, or of its stripped form if the content does not occur, and nothing only if neither occurs |
| BudgetClamp.WithinBudget | benchmarks/cb_dpacket_clamp_rescore.py:257-271 | the injected total is the sum over what was kept, and passes the budget only with a single kept item |
| BudgetClamp.EveryItemAccountedFor | benchmarks/cb_dpacket_clamp_rescore.py:240-271 | every item looked at is unusable, kept or skipped, and items are left unseen only after the budget was reached |
| BudgetClamp.NothingMoreFits | benchmarks/cb_dpacket_clamp_rescore.py:257-271 | maximal: any usable item not kept, skipped or unseen, would pass the budget |
| BudgetClamp.NoEarlierChoice | benchmarks/cb_dpacket_clamp_rescore.py:257-271 | no selection within the budget departs from the kept list by an earlier item |
| BudgetClamp.FillsCompared | benchmarks/cb_cymatix_pred.py:291-297 | the skipping and the non-skipping fill agree up to the item that overshoots, and the skipping one stays within the budget from there |
| BudgetClamp.PrefixTracks | benchmarks/cb_cymatix_pred.py:291-297 | the non-skipping fill passes the budget with a second item if and only if some later usable item oversteps it from below |
| BudgetClamp.SameFillIff | benchmarks/cb_dpacket_clamp_rescore.py:226-229 | the two arms keep the same items if and only if no usable item but the first oversteps the budget from below it |
| BudgetClamp.FillsCanDiffer | benchmarks/cb_dpacket_clamp_rescore.py:226-229 | an input on which they do not |
| BudgetClamp.PrefixTakesAll | benchmarks/cb_cymatix_pred.py:289-297 | the non-skipping fill takes every usable item it looks at, sums them, and ends exactly when the sum reaches the budget |
| PacketClamp.ItemsToPredClamped | benchmarks/cb_dpacket_clamp_rescore.py:223-289 | the loop is the greedy fill over the usable items: spans by file, exact counters, and kept, failed, compressed and clamped together are the items consumed |
| PacketClamp.GatheredByFile | benchmarks/cb_dpacket_clamp_rescore.py:264-266 | a file appears exactly if a span of it was kept, with exactly those spans in delivery order |
| PacketClamp.UsableItemsCost | benchmarks/cb_dpacket_clamp_rescore.py:251-257 | with a tokenizer that is positive on non-blank text every usable item costs something |
| PacketClamp.ClampFile | benchmarks/cb_dpacket_clamp_rescore.py:532-543 | the inner loop continues the greedy fill over one file's spans |
| PacketClamp.PreviewClamp | benchmarks/cb_dpacket_clamp_rescore.py:528-545 | the nested clamp is the greedy fill over all spans in one list; with a budget of 0 it stops after the first file |
| PacketClamp.FingerprintFill | benchmarks/cb_cymatix_pred.py:289-297 | the selection loop is the fill that never skips, over the eligible documents |
| PacketClamp.EligibleSelected | benchmarks/cb_cymatix_pred.py:289-297 | what is selected has a file and text and no compression mark; what is not selected lacks one of these or comes behind the item that reached the budget |
| PacketClamp.SlashesIs | benchmarks/cb_dpacket_clamp_rescore.py:242 | each backslash becomes a slash and nothing else changes |
| PacketClamp.VerdictIs | benchmarks/cb_dpacket_clamp_rescore.py:240-256 | an item is usable if and only if it has a source and no compression mark, and its non-blank text occurs in its file as it is or stripped; compressed if and only if it has a source and the mark |
| PacketClamp.EstimateByLine | benchmarks/cb_dpacket_clamp_rescore.py:533-534 | each line counts four tokens, so a span costs what its parts cost, and a reversed span counts as one line |
| Harvest.UniqueCandidates | benchmarks/bench_needle_1000.py:327-339 | counting and filtering keep exactly the candidates whose pair occurs once |
| Harvest.QuotaIs | benchmarks/bench_needle_1000.py:353-355 | a quota is the largest whole number not above the stratum's share of n |
| Harvest.ChosenAreUnique | benchmarks/bench_needle_1000.py:338-339 | whatever is chosen from them has pairwise distinct pairs, each occurring once among all candidates |
| Harvest.Bucket | benchmarks/bench_needle_1000.py:343-345 | the buckets hold exactly each category's unique candidates |
| Harvest.Stratify | benchmarks/bench_needle_1000.py:353-363 | each stratum contributes exactly the smaller of its quota and its pool, whatever the shuffles |
| Harvest.GatherAll | benchmarks/bench_needle_1000.py:367-369 | the buckets together hold every candidate once |
| Harvest.Remaining | benchmarks/bench_needle_1000.py:367-369 | the comprehension collects, bucket by bucket, what is neither selected nor "other" |
| Harvest.TopUp | benchmarks/bench_needle_1000.py:365-371 | topping up repeats nothing, shrinks no stratum and never adds to "other" |
| Harvest.TopUpCount | benchmarks/bench_needle_1000.py:365-371 | the size after it: all that is not "other" plus the picked "other", at most n |
| Harvest.HarvestNeedles | benchmarks/bench_needle_1000.py:303-375 | for any shuffles: distinct globally unique pairs, every stratum at least its quota or pool, "other" exactly that, the exact size, and a final slice that drops nothing |
| CrossNeedles.VisitsAreEven | benchmarks/build_gold_from_genome.py:369-375 | after v visits every project had v/P, and those passed in this round one more |
| CrossNeedles.EvenUntilExhausted | benchmarks/build_gold_from_genome.py:369-375 | a project with needles left has given at most one fewer than any other |
| CrossNeedles.PickedIsPart | benchmarks/build_gold_from_genome.py:371-373 | nothing is picked twice, and everything is picked once the buckets are empty |
| CrossNeedles.PicksStop | benchmarks/build_gold_from_genome.py:369-375 | once each project had as many visits as needles nothing more is found |
| CrossNeedles.EnoughPicked | benchmarks/build_gold_from_genome.py:369-375 | while a project still has needles left, every completed round has picked one at least |
| CrossNeedles.AtExit | benchmarks/build_gold_from_genome.py:369-377 | the loop ends with as many as wanted, with nothing left, or at the limit, and the count is the smaller of the wanted number and the picks within the limit |
| CrossNeedles.RoundRobin | benchmarks/build_gold_from_genome.py:366-377 | terminates, picks no needle twice, and takes from each project the smaller of its size and its visits, for any wanted number and any visit limit |
| CrossNeedles.MakeShardCrossNeedles | benchmarks/build_shard_gold.py:477-511 | picks up to three times as many and returns a shuffled selection of n without repetition; at least n are found with at most 10 projects, if there are as many |
| CrossNeedles.MakeCrossNeedles | benchmarks/build_gold_from_genome.py:352-380 | terminates, picks no needle twice, takes from each project the smaller of its size and its visits, and returns the smaller of n and the picks within the visit limit; with at most 50 projects that is the smaller of n and the total |
| CrossNeedles.PicksAreShares | benchmarks/build_gold_from_genome.py:369-375 | after any number of visits the picks are the sum over the projects of the smaller of size and visits |
| CrossNeedles.PicksReach | benchmarks/build_gold_from_genome.py:369-375 | for all sizes at least the smaller of the completed rounds and the total is picked |
| CrossNeedles.OneLongProject | benchmarks/build_gold_from_genome.py:369-377 | with one long project and single needles in the others, v visits to k projects pick at most v/k + k |
| CrossNeedles.NeverShortIff | benchmarks/build_gold_from_genome.py:375-377 | a limit of c n + d visits lets k projects give the smaller of n and their total, for all n and all sizes, if and only if k is at most c |
| CrossNeedles.LimitsMatterIff | benchmarks/build_shard_gold.py:502-503 | so the genome builder's limit never matters if and only if there are at most 50 projects, the shard builder's if and only if at most 10 |

## Left out

- Lifecycle.SpawnModeIff: does not model what is done to PYTHONPATH and PYTHONHASHSEED, nor the log file or the working directory of the child.
- Orchestrator.BenchServer.StopBody: signals, `taskkill` and the two waits are one look at the process after which the process is or is not alive; child processes of the server are not modelled.
- Orchestrator.BenchServer.PostSwap: what the schema probe reads and what an HTTP error says is one of two failure outcomes; the read-only flag is not carried.
- Orchestrator.BenchServer.RunMatrix: the bench script and its output are not modelled, only that it may end the loop with an exception.
- Orchestrator.BenchServer.WaitPortFree: deadlines are an arbitrary number of polls, and time itself is not modelled.
- Monitor.BenchmarkMonitor.RunCheck: an exception is modelled only where the check reads the snapshot before it decides anything; the message texts, the heartbeat log and the rounding of progress are not.
- BlockText.ExtractBlockBodies: the response's JSON shape and the legacy form without citations are not modelled.
- BlockText.RenderedBlockParses: a header's parts after the short id are one text without a closing bracket or a separator, as the renderers emit it.
- BlockText.CitationsRecoverBodies: says nothing when a part ends in a line of three dashes, when the outermost pieces are newlines only, or when a later piece opens with a trusted header itself.
- Scrub.BuildQuestion: markup stripping and the symbol-like tokens of a candidate are parameters.
- Scrub.QueryNeverLeaks: whether the text opens with a question word is a parameter.
- Scrub.ScrubNeverLeaks: case folding and white space are ASCII.
- Bm25.BM25.Scores: the query set is visited in an arbitrary order and sums are exact, so rounding and its dependence on that order are not modelled.
- Percentiles.PercentileMonotone: percentages outside 0 to 100 are not modelled.
- Harvest.HarvestNeedles: parsing, the quality filters and the categories are given with each candidate; quotas are integer percentages, so a float product just under an integer is not modelled.
- CrossNeedles.RoundRobin: the visiting order is any list of the projects, which includes the sorted one; the fresh id and type of the returned rows are not modelled.
- PacketClamp.ItemsToPredClamped: a span's file is a path string; sorting the files for output is not modelled.
- Inversions.StrictDomInversions: the rerank classes are the constants that the source lists, and contributions are exact.
- The `eps_band` branch of `_emitted_order` depends on fusion code that is not part of this model.
- `extract_md_sections`, `_path_leak_tokens`, `_symbol_like_tokens`: regular-expression extraction whose results enter here as arbitrary sets and lists.
- `genes_to_pred`, `ndcg_at`, `recall_at`, `precision_at`, `score_question` and the other per-record tallies: they would add only easy members.
- SQLite, HTTP, embeddings, whitening, tokenizer and regular-expression internals, file writing, printing and argument parsing.
