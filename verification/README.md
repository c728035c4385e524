# simllm studies: a verified model

simllm simulates language-model serving on accelerator clusters.  Around the simulator stand *studies*: small programs
that measure hardware, decide what a measurement is allowed to claim, and write the claim into a runtime profile.  This
project models the parts of those programs that other results rest on, and proves what they promise.

| files | what is modelled |
|---|---|
| `Sha256Spec`, `Sha256Constants`, `Sha256` | the streaming SHA-256 object used to fingerprint artifacts, against the one-shot definition of FIPS 180-4 |
| `CreditMachine`, `GrantOrders`, `GrantSteps` | the reference weighted round robin and strict priority that grant operations in order |
| `AttemptFiles`, `AttemptRuns`, `AttemptRunner`, `CodecWitness` | the crash-resumable protocol of write-once attempt directories, over every run of starts, writes, crashes, stops and restarts |
| `GuardScoring`, `RateCeilings`, `PacketFit`, `Publication`, `PublishedResults` | the pipeline from measurement guards to identified parameters to the published profile |
| `DocScanners`, `TaskCounts` | the two independent scanners of the module documents and the progress table |
| `Ranges`, `CaptureReplay`, `PackedExtrema`, `LeastSquares` | range lists, replay of retained backend extrema, line fits |
| `Sorting`, `Decimal`, `Delimited`, `Options` | shared vocabulary: canonical order, numerals, separated text, optional values |

Programs that work by changing things are classes and methods here: the SHA-256 object with its buffer and counters, the
policy object with its credit dictionary, the runner over its directories, the loops that collect guards, ranges, groups
and task ids.  Each is proved equal to a function of what it was given, and the theorems are about those functions.

Facts about the programs that are not visible from reading any one of them:

- **Weights must be at least one.**  Credits stay between zero and the weight in every run if and only if all weights are
  positive; with a zero weight a credit goes below zero.
- **The runner and the pending list look at different fields.**  Resuming compares the recorded binary and not the mode,
  the pending list the mode and not the binary.  For runs whose starts use a given set of arguments, the two views of
  one set of arguments agree in every reachable state if and only if each start with the same implementation, candidate
  and head is in hardware mode exactly when it has the same binary.  The two ways to fail are both reachable: a completed
  mock attempt of the same binary makes the hardware run skip while the cell stays pending however often it is run, and
  after a rebuild the cell is off the pending list although the runner would still run it.
- **The one cut that does not matter** is the loss of the final newline of the COMPLETE marker.  At every other point
  before the end the audit rejects what is there.
- **Fairness is lopsided.**  Of two classes that are always present the lower may be two weight products ahead of its
  share, the higher only one; both bounds are reached for all weights.
- **A registry section the counter does not open loses its tasks.**  The linter accepts any title with the word
  "follow-ups", the counter opens only two prefixes.  The task check of the linter is enough for the two scanners to agree
  on documents whose registry titles are opened; the title check is enough for them to run in lockstep, whatever the
  tasks.  Without either check they can differ.
- **The progress table has no answer for an empty registry**: its percentage divides by the number of registered tasks.
- **The link ceiling implies the other two** whenever a peer has at most four links and an endpoint at most twelve.

Where the code and its documentation differ the model follows the code.

## Model

| member | source | states |
|---|---|---|
| Sha256.Sha256.constructor | examples/a100_nvlink_packet_v2/sha256.h:16-23 | a new object has been fed nothing: initial hash value, empty buffer |
| Sha256.Sha256.Reset | examples/a100_nvlink_packet_v2/sha256.h:18-23 | whatever was fed before, the object is as new |
| Sha256.Sha256.Update | examples/a100_nvlink_packet_v2/sha256.h:25-39 | feeding a chunk of any length appends it: the state is the fold of compression over the full blocks fed so far and the buffer is the rest, shorter than a block |
| Sha256.Sha256.FinishHex | examples/a100_nvlink_packet_v2/sha256.h:41-60 | returns the hexadecimal FIPS 180-4 digest of everything fed since the last reset, and leaves the object as new |
| Sha256.Sha256.CompressTail | examples/a100_nvlink_packet_v2/sha256.h:41-54 | what is compressed at the end is exactly the padding of section 5.1.1 of FIPS 180-4, in one block or two |
| Sha256.FinishInOneBlock | examples/a100_nvlink_packet_v2/sha256.h:41-54 | with at most 55 bytes waiting, the single final buffer is the last block of the padded message |
| Sha256.FinishInTwoBlocks | examples/a100_nvlink_packet_v2/sha256.h:41-54 | with 56 to 63 bytes waiting, the two final buffers are the last two blocks of the padded message |
| Sha256.Sha256.Transform | examples/a100_nvlink_packet_v2/sha256.h:67-136 | the in-place schedule and the eight rotating variables compute the compression of section 6.2.2 of FIPS 180-4, for every block and state |
| Sha256.Sha256.ExtendWords | examples/a100_nvlink_packet_v2/sha256.h:92-101 | the in-place array holds the recursive message schedule |
| Sha256Spec.RotationMovesBits | examples/a100_nvlink_packet_v2/sha256.h:63-65 | for every word and distance the low bits move to the top, the others move down, and none is lost |
| Sha256Constants.ConstantsAreCubeRoots | examples/a100_nvlink_packet_v2/sha256.h:67-84 | each round constant holds the first 32 bits of the fractional part of the cube root of its prime |
| Sha256Constants.InitialValueIsSquareRoots | examples/a100_nvlink_packet_v2/sha256.h:18-21 | the initial hash value holds the first 32 bits of the fractional parts of the square roots of the first eight primes |
| Sha256.StreamedWordIsFixedWidth | examples/a100_nvlink_packet_v2/sha256.h:55-60 | zero-filled stream output of a word is its eight-digit hexadecimal form |
| Sha256.Sha256Hex | examples/a100_nvlink_packet_v2/sha256.h:144-148 | the one-shot call is the digest of its argument |
| Sha256.DigestInPieces | examples/a100_nvlink_packet_v2/sha256.h:25-60 | chunking independence: two messages fed to one object in arbitrary pieces, one after the other, give the digests of the two concatenations |
| Sha256Spec.PadShape | examples/a100_nvlink_packet_v2/sha256.h:41-54 | the padded message extends the message, is a whole number of blocks, is at most 72 bytes longer, and ends in the bit length |
| Sha256Spec.UnpadPad | examples/a100_nvlink_packet_v2/sha256.h:41-54 | taking the padding off gives back the message |
| Sha256Spec.PadInjective | examples/a100_nvlink_packet_v2/sha256.h:41-54 | different messages have different paddings, without a bound on the length |
| Sha256Spec.HexWordsInjective | examples/a100_nvlink_packet_v2/sha256.h:55-60 | the printed digest loses nothing |
| Sha256Spec.FoldAppend | examples/a100_nvlink_packet_v2/sha256.h:25-39 | folding compression is compositional at block boundaries |
| GrantOrders.StrictPriorityIsUnique | examples/arbitrated_order_v1/run_study.py:209-216 | the sorted order is the one and only permutation with lower labels first and graph order within a label |
| GrantOrders.ReferenceWeightedRoundRobin.constructor | examples/arbitrated_order_v1/run_study.py:222-225 | a new policy has stored no credit: every class counts as full |
| GrantOrders.ReferenceWeightedRoundRobin.Select | examples/arbitrated_order_v1/run_study.py:230-253 | a grant refills all present classes when none has credit, charges the lowest class with credit, and picks its candidate of least baseline; without candidates it fails and changes nothing |
| GrantOrders.PickIsLeast | examples/arbitrated_order_v1/run_study.py:246-253 | the chosen candidate has the winning class and the least baseline in it |
| CreditMachine.CreditAfterGrant | examples/arbitrated_order_v1/run_study.py:230-253 | what one grant does to the credit of every class |
| CreditMachine.RangeIffWeightsPositive | examples/arbitrated_order_v1/run_study.py:219-253 | credits stay between zero and the weight in every run exactly when every weight is at least one |
| CreditMachine.Conservation | examples/arbitrated_order_v1/run_study.py:230-253 | over every run: what a class was granted is what it had plus its weight per refill minus what is left |
| CreditMachine.Fairness | examples/arbitrated_order_v1/run_study.py:230-253 | over every window in which two classes are always present, the lower one is at most two weight products ahead of its proportional share, the higher one at most one |
| CreditMachine.FairnessBoundIsTight | examples/arbitrated_order_v1/run_study.py:230-253 | for all weights and every two classes both sides of that bound are reached from reachable states |
| CreditMachine.ConfiguredShares | examples/arbitrated_order_v1/run_study.py:227-253 | the same over the configured numbers: with the entries of the weights, or 1 without an entry, credits stay between zero and the entry and the shares are the configured ones |
| CreditMachine.ConfiguredBurst | examples/arbitrated_order_v1/run_study.py:227-228 | a new class wins exactly its configured number of grants before its first refill |
| CreditMachine.StarvationFreedom | examples/arbitrated_order_v1/run_study.py:230-253 | a class that is always present wins within the weights of all others plus the weights of the lower ones plus one grants, however the others come and go |
| CreditMachine.StarvationBoundIsTight | examples/arbitrated_order_v1/run_study.py:230-253 | that waiting bound is reached: for every class and all weights there is a reachable state and a run of exactly that many grants in which the class, always present, gets none |
| GrantSteps.ReferenceWrrSteps | examples/arbitrated_order_v1/run_study.py:256-277 | the nested loops over one shared policy object emit exactly the modelled orders, an empty graph fails, and the first order is the strict one exactly when the configured weights cover the step |
| GrantSteps.StepsArePermutations | examples/arbitrated_order_v1/run_study.py:256-277 | every order of every step is a permutation of the graph, whatever the weights |
| GrantSteps.WeightedIsStrictExactlyWhenCovered | examples/arbitrated_order_v1/run_study.py:209-277 | from full credit the weighted order is the strict-priority order exactly when each class but the highest can pay for its operations, the lowest also for the ready-seam grant |
| GrantSteps.StrictExactlyWhenConfigured | examples/arbitrated_order_v1/run_study.py:209-277 | the same over the configured numbers: for each class but the highest, its entry or 1 is at least its number of operations, one more for the lowest |
| GrantSteps.CoveredDrainPays | examples/arbitrated_order_v1/run_study.py:256-277 | enough credit is used exactly: each class but the highest pays for its own operations and nothing else |
| GrantSteps.AllStepsStrict | examples/arbitrated_order_v1/run_study.py:256-277 | credit for n steps keeps all n of them in strict priority |
| GrantSteps.BalancedStaysStrict | examples/arbitrated_order_v1/run_study.py:256-277 | credit for all steps is sufficient only: when the weight of every class is what a step costs it, every number of steps stays strict, although credit for two steps is never there |
| AttemptFiles.FilesAfter | examples/a100_nvlink_packet_v2/run_study.py:307-389 | after i writes exactly the first i files exist, each with the text it was created with |
| AttemptFiles.ManifestRecords | examples/a100_nvlink_packet_v2/run_study.py:542-558 | the manifest holds one record per payload file, taken from the text that file was created with |
| AttemptFiles.CrashSafety | examples/a100_nvlink_packet_v2/run_study.py:307-389 | at every point where an attempt may be cut off, the audit passes if and only if the COMPLETE marker is there up to its final newline |
| AttemptFiles.NewlineCutStillVerifies | examples/a100_nvlink_packet_v2/run_study.py:661-662 | every attempt cut off just before the final newline of its marker verifies |
| AttemptFiles.TamperEvident | examples/a100_nvlink_packet_v2/run_study.py:561-583 | while the marker of a finished attempt is kept, the audit passes exactly when the manifest and all nine payloads keep their recorded contents |
| AttemptFiles.ScorerAcceptsOnlyVerified | examples/a100_nvlink_packet_v2/score_hardware.py:260-300 | whatever the scorer's inventory check accepts passes the runner's audit and has exactly the nine required payloads |
| AttemptFiles.CompletedAttemptIsAccepted | examples/a100_nvlink_packet_v2/score_hardware.py:277-300 | an unaltered attempt whose marker was written passes the audit and the inventory check |
| CodecWitness.FaithfulCodecExists | examples/a100_nvlink_packet_v2/run_study.py:661-662 | a rendering, a parser and a digest with the facts these theorems rely on exist |
| AttemptRuns.ReachableSafety | examples/a100_nvlink_packet_v2/run_study.py:280-304 | in every state any run reaches, directories are numbered 1 to n, the next name is free, and an attempt is verified if and only if its marker was written up to the newline |
| AttemptRuns.AttemptNameShape | examples/a100_nvlink_packet_v2/run_study.py:288-290 | an attempt directory is named by its number, with zeros up to four digits |
| AttemptRuns.NothingIsEverOverwritten | examples/a100_nvlink_packet_v2/run_study.py:665-667 | along every run every file keeps its name and text |
| AttemptRuns.DoneIsFinal | examples/a100_nvlink_packet_v2/run_study.py:280-304 | once a verified matching attempt exists, the same call creates nothing, now or after any further run; a cell that left the pending list never returns |
| AttemptRuns.SessionOutcome | examples/a100_nvlink_packet_v2/run_study.py:280-389 | an uninterrupted session either skips and changes nothing, or adds exactly one attempt with all eleven files, verified, that its own arguments recognise |
| AttemptRuns.StaysPendingExactlyWhenSkipped | examples/a100_nvlink_packet_v2/run_study.py:586-632 | completing a pending cell takes it off the list exactly when the runner does not skip it |
| AttemptRuns.CompletingAllPendingEmptiesTheList | examples/a100_nvlink_packet_v2/run_study.py:603-632 | completing every pending cell of a campaign leaves none pending, whatever heads, implementations, candidates and binaries were used before, if the earlier plans with the same binary are hardware plans |
| AttemptRuns.VerifiedIsRecognised | examples/a100_nvlink_packet_v2/run_study.py:586-632 | for any arguments: a verified attempt is recognised by resuming through implementation, candidate, head and binary of its own arguments, by the pending list through the first three and the mode |
| AttemptRuns.ViewsOfTheCell | examples/a100_nvlink_packet_v2/run_study.py:586-632 | skipping and being pending, each exactly in terms of the arguments of the verified attempts |
| AttemptRuns.ViewsAgree | examples/a100_nvlink_packet_v2/run_study.py:586-632 | the two views agree when every recorded plan with the same implementation, candidate and head is in hardware mode exactly when it has the same binary; so whenever all plans are hardware plans of that binary |
| AttemptRuns.ViewsAgreeExactlyWhen | examples/a100_nvlink_packet_v2/run_study.py:586-632 | over all runs whose starts use arguments from a given set, that condition on the set is also necessary for agreement in every reachable state |
| AttemptRuns.MockAttemptBlocksHardware | examples/a100_nvlink_packet_v2/run_study.py:586-632 | in any state: a verified attempt of the same binary in another mode, with no verified hardware attempt beside it, makes every hardware call skip while the cell stays pending |
| AttemptRuns.RebuiltBinaryIsNotPending | examples/a100_nvlink_packet_v2/run_study.py:586-632 | in any idle state: a verified hardware attempt of another binary, with none of this binary beside it, takes the cell off the list although a call would still make a new attempt |
| AttemptRuns.MockThenHardware | examples/a100_nvlink_packet_v2/run_study.py:586-632 | any finished session in another mode reaches the first disagreement |
| AttemptRuns.HardwareThenRebuilt | examples/a100_nvlink_packet_v2/run_study.py:586-632 | any finished hardware session followed by a rebuild reaches the second |
| AttemptRunner.VerifyAttempt | examples/a100_nvlink_packet_v2/run_study.py:561-583 | the audit loop with its early exits decides the audit predicate |
| AttemptRunner.BuildRecords | examples/a100_nvlink_packet_v2/run_study.py:542-558 | the manifest loop yields one record per listed file |
| AttemptRunner.PendingIndices | examples/a100_nvlink_packet_v2/run_study.py:603-632 | in increasing order, exactly the cells without a verified attempt that counts as done; a head that is not forty lower-case hexadecimal digits is refused |
| AttemptRunner.CellRunner.WriteTextExclusive | examples/a100_nvlink_packet_v2/run_study.py:665-667 | succeeds exactly when the file does not exist, and then changes that file only |
| AttemptRunner.CellRunner.RunCell | examples/a100_nvlink_packet_v2/run_study.py:280-304 | skips exactly when a verified attempt matches; otherwise the directories follow the modelled run, cut off wherever the outside decides |
| AttemptRunner.CellRunner.ProduceAttempt | examples/a100_nvlink_packet_v2/run_study.py:307-389 | the writes happen in order, each with the text computed from the directory as it is |
| AttemptRunner.CellRunner.EndEarly | examples/a100_nvlink_packet_v2/run_study.py:291-304 | the ways to end early, with or without a stop record: between files, inside a file, or with the captured outputs of a producer that made no results file |
| GuardScoring.SummarizeGuards | examples/a100_nvlink_packet_v2/score_hardware.py:630-664 | the loop over the ten guards computes their summaries |
| GuardScoring.SummaryMeaning | examples/a100_nvlink_packet_v2/score_hardware.py:630-664 | a guard is summarised as passed exactly when it was observed, decidable and passed on every row and cell |
| GuardScoring.SummaryCounts | examples/a100_nvlink_packet_v2/score_hardware.py:649-658 | the three counts of a summary are the numbers of records that observe the guard, fail it and could not decide it |
| GuardScoring.CompleteValidExactlyWhenGuardsHold | examples/a100_nvlink_packet_v2/score_hardware.py:139-197 | COMPLETE_VALID is published exactly when all 86 cells are complete and all ten guards hold over every observation |
| GuardScoring.StatusMeaning | examples/a100_nvlink_packet_v2/score_hardware.py:177-197 | status and validity of every other campaign: none of the 86 cells, some of them, or all with a guard that did not pass |
| GuardScoring.InvalidMeansNothingIdentified | examples/a100_nvlink_packet_v2/score_hardware.py:667-711 | with a cell missing or a guard failing nothing is identified, the patch is empty, and the results do not depend on the rows |
| GuardScoring.ResultIsOutcome | examples/a100_nvlink_packet_v2/score_hardware.py:704-710 | with a valid measurement every parameter but the structural one has the status and value its rule concluded, or is inconclusive |
| GuardScoring.StructuralResult | examples/a100_nvlink_packet_v2/score_hardware.py:683-703 | the switch mode is reported as structural in every complete campaign, valid or not |
| GuardScoring.RateConfirmed | examples/a100_nvlink_packet_v2/score_hardware.py:763-772 | an identified rate confirms the candidate exactly when it is within ten percent of it |
| GuardScoring.OthersConfirmed | examples/a100_nvlink_packet_v2/score_hardware.py:763-772 | every other parameter is confirmed only by equality |
| GuardScoring.GateOpensExactlyWhenValid | examples/a100_nvlink_packet_v2/score_hardware.py:1448-1482 | the flow-dynamics gate, which never reads the guards, opens exactly for complete valid measurements |
| GuardScoring.ProfilePatchFromResults | examples/a100_nvlink_packet_v2/score_hardware.py:1422-1445 | the loop lists the authorised changes in order and counts the rest |
| GuardScoring.ChangesMeaning | examples/a100_nvlink_packet_v2/score_hardware.py:1422-1445 | a change is in the patch exactly when it comes from an identified result that is authorised |
| RateCeilings.RateCeilingsPass | examples/a100_nvlink_packet_v2/score_hardware.py:605-620 | the accumulating loop passes exactly when every link, every peer pair and every endpoint stays under its ceiling in both directions |
| RateCeilings.RateMeaning | examples/a100_nvlink_packet_v2/score_hardware.py:605-615 | a rate is in gigabytes per second: at that rate the counted bytes take the elapsed microseconds |
| RateCeilings.MaximaDecide | examples/a100_nvlink_packet_v2/score_hardware.py:605-620 | checking the stored maxima is checking every pair and endpoint |
| RateCeilings.MeshNeedsOnlyLinkCeiling | examples/a100_nvlink_packet_v2/score_hardware.py:605-620 | with at most four links per peer and twelve per endpoint the guard is the per-link ceiling alone |
| PacketFit.ScorePacketFit | examples/a100_nvlink_packet_v2/score_hardware.py:790-924 | returns the identified pair if there is one and nothing otherwise |
| PacketFit.VerdictMeaning | examples/a100_nvlink_packet_v2/score_hardware.py:795-835 | the fit starts exactly when both producers have training and holdout rows, and the copy engine is consulted exactly when it has rows |
| PacketFit.WithinMeaning | examples/a100_nvlink_packet_v2/score_hardware.py:853-870 | the three passes together hold exactly when every evidence row, of the first sixteen cases and the three producers, is within its allowance |
| PacketFit.ResidualMeaning | examples/a100_nvlink_packet_v2/score_hardware.py:927-936 | a residual is the distance in bytes of the counted overhead from the headers of the fewest packets that carry the payload |
| PacketFit.GeneratedPairIsIdentified | examples/a100_nvlink_packet_v2/score_hardware.py:790-940 | rows generated by a pair of the grid, with a training payload of exactly the limit and one just above it for each producer, identify that pair and no other |
| PacketFit.TrainingRows | examples/a100_nvlink_packet_v2/score_hardware.py:795-802 | the training rows of a producer are those with ordinals 1 to 15, each as often as it occurs |
| PacketFit.HoldoutRows | examples/a100_nvlink_packet_v2/score_hardware.py:803-810 | the blind holdout is ordinal 16 |
| PacketFit.CopyEngineRows | examples/a100_nvlink_packet_v2/score_hardware.py:811-815 | the copy-engine rows are those with ordinals 1 to 16 |
| PacketFit.AllowanceMeaning | examples/a100_nvlink_packet_v2/score_hardware.py:939-940 | one counter quantum per observed link, and one when there is none |
| PacketFit.BestIsStrictMinimum | examples/a100_nvlink_packet_v2/score_hardware.py:790-924 | the best entry of the sorted ranking is strictly ahead of the second exactly when it is strictly ahead of the whole grid |
| PacketFit.IdentifiedPairIsUnique | examples/a100_nvlink_packet_v2/score_hardware.py:790-924 | at most one pair is identified |
| PacketFit.IdentifiedPairIsInformative | examples/a100_nvlink_packet_v2/score_hardware.py:790-940 | an identified header is never zero, and the identified limit is 4096 or below some training payload of each producer |
| Publication.BuildPublishedProfile | examples/a100_nvlink_packet_v2/publish_score.py:65-149 | succeeds exactly on the accepted inputs and then returns the scored profile with refreshed envelope fields |
| Publication.ValidateCompleteScore | examples/a100_nvlink_packet_v2/publish_score.py:194-225 | the checks made one after another pass exactly on complete scores |
| Publication.PublicationFrame | examples/a100_nvlink_packet_v2/publish_score.py:65-149 | every authorised runtime parameter gets its identified value, every other field of every section keeps its own, none appears or disappears |
| Publication.PublicationAddsUp | examples/a100_nvlink_packet_v2/publish_score.py:112-149 | runtime changes, metadata-only changes and unchanged parameters add up to the number of results |
| Publication.ChangesAreSplit | examples/a100_nvlink_packet_v2/publish_score.py:104-126 | every change is listed once, as runtime change exactly when its key is a runtime parameter |
| Publication.ClaimMeaning | examples/a100_nvlink_packet_v2/publish_score.py:144-147 | a profile with a handoff claims a measurement exactly when some result was authorised |
| Publication.EvidenceMatchesProfile | examples/a100_nvlink_packet_v2/publish_score.py:65-149 | if the score was taken against this profile, each runtime parameter is published with the value its evidence states |
| Publication.EvidenceValue | examples/a100_nvlink_packet_v2/publish_score.py:90-104 | evidence states the measured or structural value, and otherwise the declared candidate |
| Publication.BadGuardBlocksPublication | examples/a100_nvlink_packet_v2/publish_score.py:194-225 | from one unobserved, undecidable or failed guard to refusal: nothing identified, empty patch, no profile accepted |
| Publication.AuditAuthorizesAllIdentified | examples/a100_nvlink_packet_v2/publish_score.py:194-225 | in results of the audit, identified in a runtime section always means authorised, and no key occurs twice |
| PublishedResults.PublishedParameterIsIdentified | examples/a100_nvlink_packet_v2/publish_score.py:65-149 | end to end, for each of the thirteen runtime parameters: in every accepted publication of an audit it has the value its rule identified, or its old value |
| PublishedResults.PublishedPairIsTheFit | examples/a100_nvlink_packet_v2/score_hardware.py:667-711 | end to end: in every accepted publication of an audit the two packet parameters are the pair of the fit, the strict unique minimiser for both producers, or both keep their values when there is no fit |
| PublishedResults.FitRecoversTheTruth | examples/a100_nvlink_packet_v2/score_hardware.py:790-924 | counters generated by one pair are fitted to exactly that pair under the same conditions |
| PublishedResults.ScorePacketOutcomes | examples/a100_nvlink_packet_v2/score_hardware.py:790-924 | the outcomes handed to the scoring: both identified with the pair of the fit, or both inconclusive exactly when no pair is identified |
| DocScanners.Parse | scripts/check_docs_format.py:117-174 | the loop with its fence flag and current sections computes the modelled parse |
| DocScanners.ParserRecords | scripts/check_docs_format.py:117-174 | the recorded headings are the unfenced headings and the body lines the unfenced entries and prose, each with its line number |
| DocScanners.FirstContentMeaning | scripts/check_docs_format.py:131-132 | the first content line is the first line that is not blank, fenced or not |
| DocScanners.OpenIds | scripts/task_progress.py:66-80 | the loop with its single flag finds exactly the entries whose last level-2 heading begins with "Open tasks" or "Backend-repo follow-ups", in any casing |
| DocScanners.OpensListMeaning | scripts/task_progress.py:62 | a title opens a list exactly when it begins with one of the two headings, in any casing |
| DocScanners.HeadingsOpen | scripts/task_progress.py:62 | both headings open a list, whatever follows them |
| DocScanners.RegistryMeaning | scripts/check_docs_format.py:65 | a registry title begins with the words "open tasks" or contains the word "follow-ups", in any casing |
| DocScanners.Linter.CheckTitle | scripts/check_docs_format.py:177-196 | appends exactly the title errors to the shared list, and nothing if and only if the title is clean |
| DocScanners.TitleErrorKinds | scripts/check_docs_format.py:177-196 | which title error is reported, and at which line |
| DocScanners.Linter.CheckTasks | scripts/check_docs_format.py:286-330 | appends exactly the task errors, keeping the dictionary of first sightings |
| DocScanners.TaskErrorKinds | scripts/check_docs_format.py:286-330 | which errors a task gets: repeated id, outside a registry, without a bucket, in the wrong bucket |
| DocScanners.CleanTitleMeaning | scripts/check_docs_format.py:177-196 | no title error exactly when one heading and no other has level 1, it is on the first non-blank line, and a body line lies between it and the first section |
| DocScanners.CleanTasksMeaning | scripts/check_docs_format.py:286-330 | no task error exactly when ids are distinct and every task sits in a registry section and in a bucket, and in a standard bucket only if its tag, or "Uncategorized" without a tag, names it |
| DocScanners.SideBySide | scripts/task_progress.py:59-80 | the invariant of both scanners on the same lines: the flag of one is the section of the other seen through its title |
| DocScanners.CleanTitleMeansLockstep | scripts/check_docs_format.py:177-196 | on a document with a clean title whose fences hide nothing, whatever its tasks, at every line the flag of the counter is up exactly inside a section it opens and it has found exactly the tasks of such sections |
| DocScanners.ScannersAgreeExactly | scripts/check_docs_format.py:117-174 | on a clean task list whose fences hide nothing, the scanners find the same ids exactly when the counter opens every section that holds a task |
| DocScanners.CleanDocumentsAgree | scripts/task_progress.py:59-80 | if every registry title is one the counter opens, a clean document gives both scanners the same ids and the same count |
| DocScanners.CounterFinds | scripts/task_progress.py:66-80 | on every document the counter finds exactly the entries whose last level-2 heading, fenced or not, is one it opens |
| DocScanners.LinterFinds | scripts/check_docs_format.py:117-174 | on every document the parser finds exactly the unfenced entries |
| DocScanners.TaskPlacement | scripts/check_docs_format.py:117-174 | each task is an unfenced entry with its tag, under the section and the bucket in force there: the last unfenced heading of level 2, or 3, not ended by a higher one |
| DocScanners.ScannersAgreeIff | scripts/task_progress.py:66-80 | on every document the two find the same ids if and only if every unfenced entry has an entry under an opened heading and every fenced entry under one repeats an unfenced entry; on a clean task list the counts then agree too |
| DocScanners.OtherFollowUpsAreLost | scripts/task_progress.py:59-63 | under every registry title the counter does not open, a task that lints clean is lost |
| DocScanners.LateTitleBreaksLockstep | scripts/check_docs_format.py:117-174 | without a clean title they fall out of step: a level-1 heading ends the section for the linter only |
| DocScanners.StrayTaskIsLost | scripts/task_progress.py:66-80 | without a clean task list the scanners differ: a task before any section is seen by the linter alone |
| DocScanners.FencedExamplesAreCounted | scripts/task_progress.py:66-80 | in every task list the counter opens, a fenced example entry is ignored by the linter and counted by the counter |
| DocScanners.FenceConditionIsOneWay | scripts/check_docs_format.py:117-174 | the fence condition of the theorems is sufficient only: a fenced entry outside every task list does no harm |
| TaskCounts.Render | scripts/task_progress.py:100-152 | refused exactly on ids both open and closed, no answer for an empty registry, otherwise the totals and the per-module split |
| TaskCounts.RowsAddUpExactlyWhenPrefixesKnown | scripts/task_progress.py:45-57 | the module rows add up to the headline totals exactly when every id carries a known prefix |
| TaskCounts.RowsFollowModules | scripts/task_progress.py:45-57 | each row of the table holds only prefixes of its module |
| TaskCounts.PrefixOfScanned | scripts/task_progress.py:110-114 | the owner of a scanned id is looked up by the prefix the scanner matched |
| Ranges.CompressIndices | examples/a100_nvlink_packet_v2/score_hardware.py:1601-1613 | the text reads back as exactly the given list, in order, for every list |
| Ranges.CompactOrdinals | examples/a100_nvlink_packet_v2/build_expectations.py:813-828 | "none" exactly for the empty list, otherwise the text reads back as the same ordinals in ascending order |
| Ranges.RunsMeaning | examples/a100_nvlink_packet_v2/score_hardware.py:1601-1613 | the ranges expand to the list and no two neighbours could be merged |
| Ranges.RunsAreUnique | examples/a100_nvlink_packet_v2/score_hardware.py:1601-1613 | any list of unmergeable ranges is the one computed from what it stands for |
| Ranges.SameTextExactlyWhenSameOrdinals | examples/a100_nvlink_packet_v2/build_expectations.py:813-828 | two case lists print alike exactly when they hold the same ordinals, in whatever order |
| CaptureReplay.Retained.Capture | examples/bottleneck_report_v1/run_study.py:147-161 | stores the entry of the run under its artifact name and touches no other; a run without flows raises and stores nothing |
| CaptureReplay.Retained.Run | examples/bottleneck_report_v1/run_study.py:164-177 | replays the stored entry, with the missing artifact, the bad count and the missing witness as errors |
| CaptureReplay.WitnessCount | examples/bottleneck_report_v1/run_study.py:147-161 | between one and four rows are kept, all of them flows of the run, never more than there were flows |
| CaptureReplay.WitnessesAscend | examples/bottleneck_report_v1/run_study.py:151-158 | the kept rows ascend by start, completion and flow completion time |
| CaptureReplay.FourWitnessesCanBeNeeded | examples/bottleneck_report_v1/run_study.py:152-158 | the bound of four rows is reached |
| CaptureReplay.ReplayPreservesProjection | examples/bottleneck_report_v1/run_study.py:147-177 | replaying a captured run is never refused and keeps job time, flow count, least start, greatest completion, least and greatest completion time of a flow |
| CaptureReplay.ProjectionMeaning | examples/bottleneck_report_v1/run_study.py:151-159 | what the projection reads are the extrema over all flows |
| CaptureReplay.ReplayShape | examples/bottleneck_report_v1/run_study.py:166-176 | a replay is the witnesses followed by copies of the first, refused exactly without a witness or with too small a count |
| CaptureReplay.CaptureThenReplay | examples/bottleneck_report_v1/run_study.py:147-177 | the same through the shared dictionary, whatever was captured before |
| PackedExtrema.CanonicalInjective | examples/bottleneck_report_v1/run_study.py:65-66 | different entries have different canonical texts |
| PackedExtrema.Pack | examples/bottleneck_report_v1/run_study.py:180-187 | groups in key order, names in order within a group, together exactly the entries of the dictionary |
| PackedExtrema.PackIgnoresOrder | examples/bottleneck_report_v1/run_study.py:180-187 | there is one packed form per dictionary: insertion order does not show |
| PackedExtrema.UnpackPack | examples/bottleneck_report_v1/run_study.py:190-191 | unpacking gives back the dictionary that was packed |
| LeastSquares.NormalEquations | examples/a100_graph_launch_v1/score_expectations.py:108-122 | the residuals of the fitted line are balanced, plainly and weighted by x, also when all x agree |
| LeastSquares.OlsMinimises | examples/a100_graph_launch_v1/score_expectations.py:108-122 | no line has a smaller sum of squared residuals; with two different x values every other line has a larger one |
| LeastSquares.ExactRecovery | examples/a100_graph_launch_v1/score_expectations.py:108-122 | points on a line give back that line, with R-squared 1 |
| LeastSquares.RSquaredRange | examples/a100_graph_launch_v1/score_expectations.py:117-122 | R-squared lies between 0 and 1, and is 1 exactly when the points lie on the fitted line |
| LeastSquares.RSquaredIsExplainedShare | examples/a100_graph_launch_v1/score_expectations.py:117-122 | R-squared times the total sum of squares is the explained sum of squares, and the rest is what the line leaves over |
| LeastSquares.FitsAgree | examples/a100_hardware_envelope_v1/score_expectations.py:54-73 | the envelope fit answers exactly when x is spread, and then with the launch fit's line, bandwidth the reciprocal of its slope, and the same R-squared where defined |

## Left out

- The simulator core, its adapters, plotting and report rendering: large, but made of tables, formatting and arithmetic without a law that spans functions.
- Subprocesses, signals, job submission, Git and clocks of the packet study: their effect enters as the texts an attempt writes and the point where it is cut off.
- Several runners on one cell at once: the protocol is modelled with a single runner, as its comments assume.
- JSON rendering, parsing and collision resistance in the attempt protocol: a codec of which only this is used: an object parses back with or without its final newline, no shorter prefix of its text parses, and the digest is injective; documents that parse to something other than an object raise in the program and count as rejected here.
- The scoring rules for links, rates, credits, delivery and queue scope: their conclusions are arbitrary inputs to the pipeline, so its theorems hold for any rules.
- Floating-point rounding in scores, rates and fits: exact integers and reals.
- The envelope comparison of the simulator during publication: a parameter that may fail.
- Regular expressions, line splitting and Unicode in the document scanners: lines come classified; titles are matched character by character with ASCII case folding and word characters.
- The required-section and registry-order checks of the linter: a list of presence and order checks that the agreement of the scanners does not need.
- The progress bar and the percentage of the progress table beyond its division by zero.
- Copying the GOAL and CSV files during replay.
- Free-text fields of evidence and publication records: reasons, paths, job and head identifiers.
- Frozen expectation tables, sweep catalogues and the earlier near-copy of the packet study.
- Python's sort algorithm: any sort by a total order gives the same result, and the model uses insertion.
- GrantSteps.WeightedIsStrictExactlyWhenCovered: for graphs without repeated operations and weights of at least one, because operation names are unique in the studies and a zero weight already breaks the credit range.
- The reason texts of the single guard verdicts: the summaries are proved for arbitrary verdicts.
- DocScanners.ScannersAgreeExactly: its condition on fences is sufficient and not necessary; the exact condition for every document is ScannersAgreeIff.
- Sha256Constants.ConstantsAreCubeRoots: the list of primes is written out; that it holds the first sixty-four primes is not proved.
- GrantSteps.AllStepsStrict: sufficient and not necessary beyond one step, because a joint refill between steps can replace missing credit.
- AttemptFiles.CrashSafety: a cut inside a file leaves a proper prefix of its text; partial writes that leave other contents are not modelled.
- LeastSquares.FitsAgree: for lists of equal length; the envelope fit itself is modelled for all lengths, where it pairs up to the shorter list.
