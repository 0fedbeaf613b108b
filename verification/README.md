# Orket: verified models of its scheduling, leasing, dispatch and authorization cores

This project models eight parts of Orket whose correctness is a statement over all inputs or
over whole runs, and proves those statements. `dafny verify dfyconfig.toml` checks all of it.

| part | modules | main results |
|---|---|---|
| execution graph of a backlog | `KahnSort`, `ExecutionGraph` | the reported order is the lexicographically least admissible one; a cycle is reported exactly when there is one; the reported nodes are exactly those on or below a cycle |
| leased cards | `CardStore`, `LeaseRuns`, `LeaseWorker` | lazy expiry answers like eager expiry over every run; one finish per card, by its holder, which settles every later reply; holds of different nodes do not overlap; attempts are conserved; a punctual worker always finishes its card |
| impact weights and the priority queue | `ImpactWeight`, `PriorityQueue` | the guarded recursion counts simple paths on every graph and is the unguarded one on acyclic graphs; stable order by score; prerequisites go first exactly on acyclic graphs |
| canonical JSON | `Utf8Order`, `JsonText`, `CanonicalJson`, `PythonJson`, `JsonReader` | a reader written from the JSON grammar reads every canonical text back to the value printed; equal text exactly for equal JSON values; the JavaScript and Python printers give the same text; UTF-8 byte order is code-point order |
| rate limiter | `RateLimiter` | the pruned deque decides as the whole history would; no window holds more than the limit |
| controller dispatch | `ControllerContract`, `Dispatcher`, `NestedDispatch` | fail-fast shape, validated summaries read off the inputs, and bounds on nesting and on the total number of child runs, with what breaks them |
| SDK capabilities | `Authorization`, `CapabilityRegistry`, `GovernedRegistry`, `CapabilityTracker`, `SdkChild` | from the host's envelope to the provider: whatever is configured and done, first-slice code runs only behind admitted capabilities, unchecked probes included; result and failure class as functions of envelope, configuration and actions |
| token summary | `TokenSummary` | four-way conservation of tokens; exactly when regrouping is faithful |

`Collections`, `Digraph` and `PyText` hold what several parts share: repeat-free lists and stable
sorting, walks and cycles, and Python's `strip`. What a filtering loop leaves is said by `Picks`: exactly the
items that are to be kept, in order.

## How the source is read

- Code that updates state is modelled by methods with loops, or by classes whose methods state the
  whole new state as a function of the old one. What is promised about runs is proved about those
  functions.
- Clocks, the iteration order of Python sets, and everything a child workload or a provider does
  are inputs. Every statement holds for all of them, under a clock that never goes back where
  time matters.
- A card operation reads the clock at its expiry check and again at its grant; both readings are
  inputs, the second no earlier than the first. A listing reads it once per card.
- Ids in the graph parts are of any type with equality; `ReadBacklog` gives the reading of texts.
- Python and JavaScript strings are sequences of Unicode scalar values, JavaScript numbers are
  integers printed in plain decimal, priorities are reals.

## Where the code departs from what it, or its documentation, suggests

- `claim` marks the card before it computes the lease. A lease too long for a `datetime` raises an
  error there, and the card stays claimed, without a lease, until the marking node itself finishes it
  or renews it for an expressible lease; nobody else can end it (`OverflowingClaimSticks`). The
  count "attempts = expiries + current hold" is therefore true exactly when no claim overflowed
  (`AttemptsCountHolds`); with overflowed claims counted in, it always balances (`AttemptsBalance`).
- `docs/specs/CONTROLLER_WORKLOAD_V1.md` gives the clamp rule min(requested, policy) and denies a
  depth above `max_depth`. The code coerces a `max_depth` of 0 to 1; the rule holds exactly when that
  minimum is not 0 (`ClampRuleHoldsUnlessZero`).
- The same document says a run is `failed` when a contract guard fails. The code says `blocked`
  exactly when a gate refuses the envelope or the first child ends with a blocking code
  (`SummaryMeaning`). That includes a first child that was started and merely raises a text which
  names only such codes (`RaisedBlockingCodeBlocks`).
- `normalize_controller_error` takes the first match in the iteration order of a set, so a message
  has a fixed result exactly when it names at most one known code (`NormalizeIsFixedIffOneName`).
- Children inherit depth, ancestry and controller id only where their payload does not name its own.
  Depth bounds hold while a nested controller's named depth exceeds its dispatcher's
  (`NestingIsBounded`); one no greater allows nesting of every length (`NamedDepthRemovesTheBound`).
  Ancestries stay free of repeats exactly when the named ones are (`AncestriesStayDistinct`).
- The cycle checks ask for declared ids, and a payload's `controller_workload_id` wins over the
  workload's own. No workload runs below itself while nested controllers declare their own ids and
  inherit ancestries (`NestingClosesNoCycle`). A workload can start itself exactly when its payload
  makes it declare another id (`RestartsItselfIffRenamed`), and start its dispatcher again exactly
  when it is given an ancestry that names neither (`RestartsDispatcherIffHidden`), under every policy
  that allows two levels.
- The priority queue puts a prerequisite before a dependent of less than one more base priority for
  all priorities exactly when the dependency graph is acyclic; for every cyclic graph,
  holding its issues back and adding two READY ones under ids it already has, which leaves the graph
  the same, gives a queue with such a dependent first (`PrecedenceHoldsIffAcyclic`).
- `is_available` and `list_voices` go to a provider without a check and without a record. That they
  still reach none outside the admitted capabilities rests on the drift check (`EndToEnd`).
- A drifted child makes no call, yet its run is BLOCKED, by one blocked record per drifted
  capability (`ResultMeaning`).
- The two memory capabilities share one provider: an admitted writer that is not falsy stands for
  both, and if it is no memory provider, neither is available (`UnavailableIffUnserved`).
- A role with a colon in it is split at the wrong place in the combined token breakdown. Regrouping
  that breakdown by role is right exactly when no such role carries tokens (`RegroupingIsFaithful`).

## Model

| member | source | states |
|---|---|---|
| `Collections.SortIsStable` | orket/core/critical_path.py:42 | sorting gives the same entries with the same multiplicities, in order, every group of ties as it stood |
| `KahnSort.PendingAfter` | orket/interfaces/api.py:1824-1825 | listing a node takes off each target exactly as many pending edges as the node has to it, repeats counted |
| `KahnSort.Release` | orket/interfaces/api.py:1824-1827 | after the inner loop the degrees count exactly the edges from unlisted nodes, and the queue holds exactly the ready nodes, each once |
| `KahnSort.Turn` | orket/interfaces/api.py:1822-1828 | one turn lists the ready node standing first in the backlog and keeps the sort's invariant |
| `KahnSort.TopologicalSort` | orket/interfaces/api.py:1815-1828 | the order is admissible, picks the first ready node at every position, and ends only when nothing is ready; a node's degree stays positive exactly when it is not listed |
| `KahnSort.DependenciesComeFirst` | orket/interfaces/api.py:1815-1828 | every dependency of a listed node is listed strictly before it |
| `KahnSort.GreedyIsLeast` | orket/interfaces/api.py:1815-1828 | against any other admissible order, the reported one has the earlier backlog item at the first difference, and no admissible order extends it |
| `KahnSort.GreedyIsUnique` | orket/interfaces/api.py:1815-1828 | only one order picks the first ready node everywhere |
| `KahnSort.ListedIsNotBelowCycle` | orket/interfaces/api.py:1821-1830 | nothing on or below a cycle is ever listed |
| `KahnSort.UnlistedExactlyBelowCycle` | orket/interfaces/api.py:1830-1836 | the unlisted nodes are exactly those on a cycle or reachable from one |
| `KahnSort.CycleIffUnlisted` | orket/interfaces/api.py:1830 | the order falls short of the node count exactly when the graph has a cycle |
| `KahnSort.LeftOver` | orket/interfaces/api.py:1831-1836 | the nodes with positive degree, each once, in backlog order |
| `ExecutionGraph.IndexItems` | orket/interfaces/api.py:1768-1775 | every non-blank id is indexed at its first item; blank ids are not |
| `ExecutionGraph.BuildEdges` | orket/interfaces/api.py:1778-1792 | adjacency and in-degree count every mention of a dependency between known ids, pooled over items with the same id |
| `ExecutionGraph.EdgesMeaning` | orket/interfaces/api.py:1782-1792 | an edge stands for exactly a `depends_on` entry between two backlog ids |
| `ExecutionGraph.BuildExecutionGraph` | orket/interfaces/api.py:1766-1836 | edges are exactly the waits; the order is the greedy one; `has_cycle` exactly when there is a cycle; `cycle_nodes` exactly the nodes on or below one, in backlog order |
| `ExecutionGraph.BuildFromTexts` | orket/interfaces/api.py:1766-1836 | the same report over ids and dependencies given as texts, stripped |
| `ExecutionGraph.SpacingIsIrrelevant` | orket/interfaces/api.py:1771 | stripping once is enough: a backlog that has been read reads as itself |
| `CardStore.InMemoryCardStore.constructor` | mesh_orchestration/coordinator.py:44-53 | the store starts with one open, never attempted card |
| `CardStore.InMemoryCardStore.NormalizeForExpiry` | mesh_orchestration/coordinator.py:59-68 | a claimed card whose lease lies strictly in the past becomes open and unheld; nothing else changes |
| `CardStore.InMemoryCardStore.ListCards` | mesh_orchestration/coordinator.py:70-77 | expires every card as it is looked at and shows, in order, those that pass the filter |
| `CardStore.InMemoryCardStore.ClaimCard` | mesh_orchestration/coordinator.py:79-96 | whole new store and reply, including the overflow after the card is marked |
| `CardStore.InMemoryCardStore.RenewCard` | mesh_orchestration/coordinator.py:98-112 | whole new store and reply of a renewal |
| `CardStore.InMemoryCardStore.CompleteCard` | mesh_orchestration/coordinator.py:114-132 | whole new store and reply of a completion, repeated completions included |
| `CardStore.InMemoryCardStore.FailCard` | mesh_orchestration/coordinator.py:134-147 | whole new store and reply of a failure report |
| `LeaseRuns.EagerStepSimulates` | mesh_orchestration/coordinator.py:59-147 | one request on the lazy store answers as on the swept store and commutes with sweeping |
| `LeaseRuns.LazyRefinesEager` | mesh_orchestration/coordinator.py:59-147 | over every timed run each reply equals that of a store whose leases vanish the instant they run out |
| `LeaseRuns.ListingIsARun` | mesh_orchestration/coordinator.py:70-77 | a listing is a run of looks, so the refinement covers it |
| `LeaseRuns.ListingMeaning` | mesh_orchestration/coordinator.py:70-77 | a listing shows, in dictionary order, exactly the cards that pass the filter at the instant they are looked at |
| `LeaseRuns.CardsAreIndependent` | mesh_orchestration/coordinator.py:79-147 | a run of the store, seen from one card, is that card's run on its own requests, replies and times included |
| `LeaseRuns.FinishedStays` | mesh_orchestration/coordinator.py:114-147 | a finished card never changes |
| `LeaseRuns.FinishedExactlyOnce` | mesh_orchestration/coordinator.py:114-147 | a card that ends finished was finished by one request, its claimant's with an unexpired lease, and not before; its state, claimant and result are that request's |
| `LeaseRuns.FinishSettlesReplies` | mesh_orchestration/coordinator.py:114-147 | over every run the finishing request is answered with the final card; after it the node whose completion finished the card gets that card each time it completes again, other completions are told it was done by another, and nothing else is granted |
| `LeaseRuns.HeldCardAnswers` | mesh_orchestration/coordinator.py:79-147 | while a lease is in force only the holder is served, and each request leaves exactly the card it asked for |
| `LeaseRuns.FreeCardAnswers` | mesh_orchestration/coordinator.py:59-147 | a card nobody holds can be claimed for any expressible lease, and nothing else is granted |
| `LeaseRuns.UnknownStaysUnknown` | mesh_orchestration/coordinator.py:79-147 | no run adds or removes a card, and requests for unknown ones are refused as not found |
| `LeaseRuns.AttemptsBalance` | mesh_orchestration/coordinator.py:59-96 | attempts plus overflowed claims balance expiries plus the current hold, over every run from every card |
| `LeaseRuns.AttemptsCountHolds` | mesh_orchestration/coordinator.py:59-96 | the plain count is right exactly when no claim overflowed, and none does while every lease end is representable |
| `LeaseRuns.OverflowIsOverreach` | mesh_orchestration/coordinator.py:88-95 | the claims counted as overflowed, by the guard on the request, are exactly those that fail after marking the card |
| `LeaseRuns.RunsKeepCoherence` | mesh_orchestration/coordinator.py:59-147 | over every run an open card has no claimant, lease or result, any other has a claimant, and id and payload never change |
| `LeaseRuns.OverflowingClaimSticks` | mesh_orchestration/coordinator.py:92-95 | the refused claim leaves the card claimed without a lease; over every later run it stays exactly so, and every claim is refused, if and only if the marking node sends no finish and no expressible renewal |
| `LeaseRuns.GrantsAreSeparate` | mesh_orchestration/coordinator.py:79-112 | of two neighbouring grants on a card, the same node goes on or the earlier lease had run out |
| `LeaseRuns.HoldsDoNotOverlap` | mesh_orchestration/coordinator.py:79-112 | when a later grant goes to another node, the last of the earlier node's unbroken renewals had run out first |
| `LeaseWorker.PunctualClaimantFinishes` | mesh_orchestration/coordinator.py:98-132 | a claimant whose checks meet every deadline is served each time, everyone else is refused, and its finish is accepted |
| `LeaseWorker.PacedKeepsUp` | mesh_orchestration/worker.py:10-34 | the half-lease pause meets every deadline while delays stay within half a lease |
| `LeaseWorker.WorkerFinishesItsCard` | mesh_orchestration/worker.py:37-126 | from a granted claim on, such a worker finishes the card with its own result, whatever others send |
| `LeaseWorker.HalfALeaseIsTight` | mesh_orchestration/worker.py:19 | one microsecond more delay and another node can claim the card in between |
| `ImpactWeight.CalculateWeight` | orket/core/critical_path.py:47-64 | stops on every graph and returns the number of simple paths out of the issue that avoid the visited set |
| `ImpactWeight.PathsMeaning` | orket/core/critical_path.py:47-64 | the counted paths are exactly the non-empty walks with no repeated and no visited vertex after the start |
| `ImpactWeight.ViaOneMore` | orket/core/critical_path.py:56-62 | each unvisited child adds one plus its own weight under the branch's visited set |
| `ImpactWeight.WeightCoversBlocked` | orket/core/critical_path.py:47-64 | the weight is at least the number of distinct issues transitively blocked |
| `ImpactWeight.AcyclicWeight` | orket/core/critical_path.py:48-51 | on an acyclic graph the weight solves the documented recursion, the sum of (1 + weight(child)) in any order of the children, with no visited set |
| `ImpactWeight.UnguardedIsWeight` | orket/core/critical_path.py:47-64 | on an acyclic graph any function that solves the recursion without a visited set is the weight |
| `ImpactWeight.PrerequisiteOutweighs` | orket/core/critical_path.py:47-64 | on an acyclic graph an issue weighs at least one more than each issue it blocks |
| `ImpactWeight.WeightsDescendIffAcyclic` | orket/core/critical_path.py:47-64 | weights drop along every edge exactly when the graph has no cycle |
| `PriorityQueue.BuildDependencyGraph` | orket/core/critical_path.py:67-88 | the map records exactly the dependencies between non-blank ids, and has no empty entry |
| `PriorityQueue.Weigh` | orket/core/critical_path.py:20-23 | every issue's id has its weight in the table |
| `PriorityQueue.ScoreMeaning` | orket/core/critical_path.py:26-32 | the score is the priority, 2.0 where that is no number, plus the number of simple paths of blocked work |
| `PriorityQueue.QueueDescends` | orket/core/critical_path.py:42 | along the queue, priority plus number of simple paths never rises |
| `PriorityQueue.ReadyMeaning` | orket/core/critical_path.py:35-40 | the candidates are exactly the issues that are ready, in list order |
| `PriorityQueue.GetPriorityQueue` | orket/core/critical_path.py:11-44 | the queue is the READY issues in stable order, and priority plus number of simple paths never rises along it |
| `PriorityQueue.PrerequisiteFirst` | orket/core/critical_path.py:11-44 | on an acyclic graph a READY prerequisite stands before a READY dependent of less than one more priority |
| `PriorityQueue.CycleBreaksPrecedence` | orket/core/critical_path.py:11-64 | for every cyclic graph there is a list of issues with that graph whose queue puts a READY dependent before its READY prerequisite |
| `PriorityQueue.PrecedenceHoldsIffAcyclic` | orket/core/critical_path.py:11-64 | the queue puts prerequisites first for all issues over a graph exactly when the graph is acyclic |
| `Utf8Order.CharOrder` | conformance/ts/test.js:6-11 | the smaller scalar value has the smaller encoding, whatever follows either |
| `Utf8Order.EncodeMeaning` | conformance/ts/test.js:6-7 | the lead byte tells the length, and the bits after the markers are the scalar value |
| `Utf8Order.BeforeMeaning` | orket_extension_sdk/controller.py:29 | in code-point order the first difference decides, or else the length |
| `Utf8Order.BytesAgree` | conformance/ts/test.js:5-13 | byte order of the encodings is code-point order of the strings |
| `Utf8Order.Utf8Injective` | conformance/ts/test.js:6-7 | different strings have different encodings |
| `Utf8Order.CompareBytes` | conformance/ts/test.js:8-12 | the index loop returns a number with the sign byte order demands |
| `Utf8Order.CompareUtf8Bytes` | conformance/ts/test.js:5-13 | negative, zero or positive exactly as code-point order says |
| `Utf8Order.PythonOrderIsTotal` | orket_extension_sdk/controller.py:25-30 | code-point order is total and transitive |
| `Utf8Order.KeyOrdersAgree` | conformance/ts/test.js:25 | JavaScript's key sort gives the sequence Python's gives, for every list of keys |
| `JsonText.IntPrefix` | conformance/ts/test.js:18-21 | an integer's text can be read back in front of anything that may follow a value |
| `JsonText.QuotePrefix` | conformance/ts/test.js:22 | a quoted string can be read back in front of anything |
| `JsonText.EscapeForm` | conformance/ts/test.js:22 | seven characters have a short escape, the other control characters four lower-case hex digits, and everything else stands for itself |
| `JsonText.JoinPrefix` | conformance/ts/test.js:23-27 | a joined list can be read back in front of its closing bracket |
| `CanonicalJson.CanonicalizeRenders` | conformance/ts/test.js:15-30 | the printed text is a function of the JSON value alone |
| `CanonicalJson.SucceedsIffSupported` | conformance/ts/test.js:15-30 | printing throws exactly when some part is a fraction or of an unsupported type |
| `CanonicalJson.ErrorNamesAPart` | conformance/ts/test.js:15-30 | the error says non-integer only of a value with a fraction in it, and unsupported only of one with an unsupported part |
| `CanonicalJson.RenderPrefix` | conformance/ts/test.js:15-30 | two values whose texts agree in front of a delimiter are equal, through strings, arrays and objects |
| `CanonicalJson.CanonicalIffEqual` | conformance/ts/test.js:15-30 | two supported values print to the same text exactly when they are equal as JSON values |
| `CanonicalJson.EntryOrderIsIrrelevant` | conformance/ts/test.js:24-27 | the order in which entries were written does not show |
| `PythonJson.QuotesAgree` | orket_extension_sdk/controller.py:44 | Python's string quoting, with non-ASCII kept, equals JavaScript's |
| `PythonJson.NormalizeKeeps` | orket_extension_sdk/controller.py:25-39 | rebuilding a value with sorted keys changes no part of what it denotes |
| `PythonJson.DumpsRenders` | orket_extension_sdk/controller.py:44 | Python's sorted dump depends on the denoted value alone |
| `PythonJson.TextsAgree` | orket_extension_sdk/controller.py:42-44 | `canonical_json` and the JavaScript `canonicalize` print every supported value to the same text |
| `JsonReader.OnlyZeroStartsWithZero` | conformance/ts/test.js:18-21 | an integer's digits start with 0 only for 0 |
| `JsonReader.ReadsInt` | conformance/ts/test.js:18-21 | the text of an integer denotes that integer, to a reader of `-` and decimal digits |
| `JsonReader.ReadsQuote` | conformance/ts/test.js:22 | the text of a string denotes that string, to a reader of JSON escapes |
| `JsonReader.ReadsRendered` | conformance/ts/test.js:15-30 | every value's text is read back, nested to any depth, in front of anything a value may be followed by |
| `JsonReader.CanonicalReadsBack` | conformance/ts/test.js:15-30 | the grammar's reader gets from `canonicalize`'s text the value that was printed, with the keys of every object in ascending order |
| `JsonReader.PythonReadsBack` | orket_extension_sdk/controller.py:42-44 | and the same from `canonical_json`'s text |
| `RateLimiter.SlidingWindowRateLimiter.constructor` | orket/webhook_server.py:150-154 | the limit is at least 1 and the history empty |
| `RateLimiter.SlidingWindowRateLimiter.Prune` | orket/webhook_server.py:158-161 | pruning leaves exactly the admissions inside the window |
| `RateLimiter.SlidingWindowRateLimiter.Allow` | orket/webhook_server.py:156-165 | admits exactly when fewer than `limit` past admissions lie in the window that ends now; the deque stays the window of the full history |
| `RateLimiter.AllowAll` | orket/webhook_server.py:156-165 | a new limiter asked at any nondecreasing readings makes exactly the admissions of the rule over the whole history, and answers accordingly |
| `RateLimiter.SuffixIsWindow` | orket/webhook_server.py:160-161 | dropping an outdated front of a nondecreasing history leaves the entries in the interval |
| `RateLimiter.WithinMeaning` | orket/webhook_server.py:158-161 | the entries counted are exactly those in the closed interval, in order |
| `RateLimiter.AdmissionsMeaning` | orket/webhook_server.py:156-165 | a run admits exactly the readings that find fewer than `limit` admissions in the window ending there |
| `RateLimiter.EveryWindowIsBounded` | orket/webhook_server.py:147-165 | over every run no closed interval one window long holds more than `limit` admissions |
| `ControllerContract.FirstMatchWins` | orket/extensions/controller_dispatcher_contract.py:58-62 | the first code in iteration order that the text contains is the result |
| `ControllerContract.NormalizePicks` | orket/extensions/controller_dispatcher_contract.py:58-62 | the result is contained in the text, or is the execution failure, and then the text contains no known code |
| `ControllerContract.ContainsMeaning` | orket/extensions/controller_dispatcher_contract.py:60 | a code is named exactly when it stands somewhere in the text |
| `ControllerContract.FirstNamedWins` | orket/extensions/controller_dispatcher_contract.py:58-62 | every known code a text names is its result under some repeat-free iteration order of the known codes |
| `ControllerContract.NormalizeIsFixedIffOneName` | orket/extensions/controller_dispatcher_contract.py:58-62 | all repeat-free iteration orders give the same code exactly when the text names at most one known code |
| `ControllerContract.RuntimePolicy` | orket/extensions/controller_dispatcher.py:339-362 | refused exactly when some variable does not parse or is below its minimum; otherwise a set variable decides its cap, else the given caps, 0 counting as missing, else 1, 5 and 900 |
| `ControllerContract.EnforcedWithinPolicy` | orket/extensions/controller_dispatcher.py:364-392 | no request lifts a cap above the policy, and every enforced cap is at least 1 |
| `ControllerContract.CapsMeaning` | orket/extensions/controller_dispatcher.py:364-392 | every enforced cap is the smaller of what is asked and what the policy allows, with the defaults 1, 5 and 900 for missing and 0 values; the request is recorded as made |
| `ControllerContract.ClampRuleHoldsUnlessZero` | orket/extensions/controller_dispatcher.py:380-383 | the documented clamp rule holds of the depth exactly when its value is not 0 |
| `ControllerContract.TimeoutWithinPolicy` | orket/extensions/controller_dispatcher_contract.py:161-174 | every attempted child has a timeout: its own request or the run's, cut down to the enforced one, and so within both |
| `ControllerContract.FailedSummaryValidates` | orket/extensions/controller_dispatcher_contract.py:177-193 | a failed summary passes the validator whatever its children did |
| `Dispatcher.RunChild` | orket/extensions/controller_dispatcher.py:194-337 | the child's error is that of the first check that fails; the workload is started exactly when guard, manifest and contract checks pass |
| `Dispatcher.RunChildren` | orket/extensions/controller_dispatcher.py:155-182 | successes up to the first failure, that failure, then not attempted; started children are exactly those up to it |
| `Dispatcher.DispatchEnvelope` | orket/extensions/controller_dispatcher.py:108-192 | the whole summary and the started children, and that the summary passes the validator |
| `Dispatcher.GateMeaning` | orket/extensions/controller_dispatcher.py:118-153 | which gate refuses an envelope, exactly when, in the order of the checks |
| `Dispatcher.ChildMeaning` | orket/extensions/controller_dispatcher.py:194-337 | a child succeeds exactly when it is neither controller nor ancestor, follows the SDK contract and finishes well; every error has its exact cause; a child is started exactly when it passes the guard and is known as an SDK workload |
| `Dispatcher.ChildrenMeaning` | orket/extensions/controller_dispatcher.py:155-182 | results match the children one to one in fail-fast shape, each with its error, caps and timeouts |
| `Dispatcher.SummaryMeaning` | orket_extension_sdk/controller.py:130-140 | over envelope, caps and answers: success exactly when the gates pass and every child passes the guard and finishes well; blocked exactly when a gate refuses or the first child is refused, is no SDK workload, or raises a code other than the two non-blocking ones; always consistent |
| `Dispatcher.RaisedBlockingCodeBlocks` | orket/extensions/controller_dispatcher.py:279-291 | a started first child whose error text names only blocking codes makes the run blocked |
| `Dispatcher.OutcomeIsDetermined` | orket/extensions/controller_dispatcher.py:108-192 | an envelope and its answers have one outcome |
| `NestedDispatch.AncestriesStayDistinct` | orket/extensions/controller_dispatcher.py:137-155 | no workload stands twice in any ancestry of a tree of dispatches exactly when none does in the root's and in those payloads name |
| `NestedDispatch.DeclaredIdsDoNotRepeat` | orket/extensions/controller_dispatcher.py:137-155 | while ancestries are inherited, no declared controller id repeats on the way down, whatever ids are named |
| `NestedDispatch.NestingClosesNoCycle` | orket/extensions/controller_dispatcher.py:137-155 | while nested controllers declare their own ids and inherit ancestries, no started workload stands among the ancestry, the root and the workloads started above it, whatever depths are named |
| `NestedDispatch.StartsThroughIff` | orket_extension_sdk/workloads/controller.py:60-142 | a child of the root can, as a controller, start a given workload exactly when neither its declared id nor its ancestry names that workload, the id is not in the ancestry, and two levels are allowed |
| `NestedDispatch.RestartsItselfIffRenamed` | orket_extension_sdk/workloads/controller.py:62-70 | with depth and ancestry inherited, a workload can start itself exactly when its payload names another, non-blank controller id and the policy allows two levels |
| `NestedDispatch.RestartsDispatcherIffHidden` | orket/extensions/controller_dispatcher.py:251-253 | with id and depth inherited, a child can start its dispatcher again exactly when its payload names an ancestry with neither of them and the policy allows two levels |
| `NestedDispatch.NestingIsBounded` | orket/extensions/controller_dispatcher.py:127-135 | children run on no more levels than the policy depth leaves below the root, while depths named for nested controllers exceed their dispatcher's, whatever ancestries and ids are named |
| `NestedDispatch.RunsAreBounded` | orket/extensions/controller_dispatcher.py:115-155 | a tree starts at most f + f^2 + ... + f^d children, under the same condition |
| `NestedDispatch.RootIsBounded` | orket/extensions/controller_dispatcher.py:115-155 | from depth 0: depth at most max(1, policy depth), the power sum of the fanout, and distinct ancestries, if depths named for nested controllers exceed their dispatcher's and named ancestries are free of repeats |
| `NestedDispatch.NamedDepthRemovesTheBound` | orket/extensions/controller_dispatcher.py:251-253 | naming any depth no greater than its dispatcher's allows nesting of every length, under every policy that allows the dispatcher at all, with ancestries inherited and ids kept |
| `Authorization.NormalizeCapabilityList` | orket/extensions/sdk_capability_authorization.py:206-215 | exactly the distinct non-blank stripped names, sorted |
| `PyText.StripMeaning` | orket/extensions/sdk_capability_authorization.py:210 | stripping takes away the spaces at both ends, only spaces, and all of them |
| `Authorization.BuildHostAuthorizationEnvelope` | orket/extensions/sdk_capability_authorization.py:112-146 | refused exactly for names outside the vocabulary, which it reports; an empty narrowing admits everything declared, any other admits of the first slice exactly what is declared and in it, and everything else declared |
| `Authorization.FromPayload` | orket/extensions/sdk_capability_authorization.py:80-91 | the child reads the same fields and normalises the lists |
| `Authorization.PayloadRoundTrip` | orket/extensions/sdk_capability_authorization.py:68-91 | an envelope survives unchanged exactly when its lists are normal |
| `CapabilityRegistry.Registry.Register` | orket_extension_sdk/capabilities.py:50-55 | a blank or taken id is refused and changes nothing |
| `CapabilityRegistry.RegisterEnabled` | orket/extensions/workload_artifacts.py:47-57 | adds exactly the enabled non-blank ids, each with the provider first listed for it, and replaces no provider |
| `CapabilityRegistry.BuildRegistry` | orket/extensions/workload_artifacts.py:31-198 | the registry holds the two roots, the enabled configured ids and the enabled first slice, and nothing else; a root wins over a configured provider, and that over the fallback |
| `CapabilityRegistry.FirstForIsFirst` | orket/extensions/workload_artifacts.py:48-57 | of several items under one key the first counts |
| `CapabilityRegistry.BuiltMeaning` | orket/extensions/workload_artifacts.py:31-198 | under an admission an id is registered exactly when it is a root, an admitted or extra first-slice one, or configured and outside the first slice |
| `CapabilityRegistry.BuiltUnrestricted` | orket/extensions/workload_artifacts.py:31-198 | without an admission everything configured and the whole first slice are registered |
| `CapabilityRegistry.FirstSliceIsWhatWasEnabled` | orket/extensions/workload_artifacts.py:43-45 | its first-slice part is (admitted or extra) and first-slice, whatever is configured |
| `CapabilityRegistry.DriftIsTheUnadmittedExtra` | orket/extensions/sdk_capability_authorization.py:157-167 | revalidation passes exactly when every extra first-slice capability was admitted; otherwise it names exactly the others |
| `GovernedRegistry.BuildGovernedRegistry` | orket/extensions/sdk_capability_runtime.py:369-445 | filled by registrations that are all accepted, since no built registry holds the blank id; every first-slice capability is governed, with its delegate or none, and everything else keeps its provider |
| `GovernedRegistry.FirstSliceIsAdmitted` | orket/extensions/sdk_capability_authorization.py:157-167 | in a child that passed revalidation a first-slice capability is registered exactly when it was admitted |
| `GovernedRegistry.DelegatesAreAdmitted` | orket/extensions/sdk_capability_runtime.py:389-444 | in such a child every delegate is the registered provider of an admitted and declared capability, its own or the other memory one |
| `GovernedRegistry.UnavailableIffUnserved` | orket/extensions/sdk_capability_runtime.py:389-444 | an admitted capability is unavailable exactly when the configured provider that would serve it lacks the interface; for memory, which provider that is depends on the admissions and on whether the writer is true |
| `CapabilityTracker.SdkCapabilityTracker.Invoke` | orket/extensions/sdk_capability_runtime.py:76-109 | one record and one used capability per call; the operation is run exactly when nothing denies the call |
| `CapabilityTracker.DenialCauses` | orket/extensions/sdk_capability_runtime.py:83-98 | each denial has its one cause: undeclared, not admitted, or without a delegate |
| `CapabilityTracker.RecordMeaning` | orket/extensions/sdk_capability_runtime.py:128-201 | a record is blocked exactly when its call was refused; otherwise it tells success, side effect and error as the operation went |
| `SdkChild.Act` | orket/extensions/sdk_capability_runtime.py:237-366 | one action through the governed registry: what is recorded and whose code runs, for checked uses, unchecked probes and ungoverned ids |
| `SdkChild.RunWorkload` | orket/extensions/sdk_capability_runtime.py:76-109 | any sequence of actions, errors swallowed, is recorded call by call in order |
| `SdkChild.RunRequest` | orket/extensions/sdk_workload_subprocess.py:161-247 | the child's whole run: registry, revalidation, then either the drift report with nothing run, or the workload over the governed registry |
| `SdkChild.RunOnHost` | orket/extensions/workload_executor.py:230-290 | envelope, payload and child run in one: the child works with exactly the envelope the host built, and first-slice code is reached only behind declared capabilities inside the narrowing |
| `SdkChild.EndToEnd` | orket/extensions/sdk_capability_runtime.py:237-445 | over every run, first-slice code is reached only behind admitted and declared capabilities inside the narrowing, and is what was registered for one of them; other ids reach their own provider |
| `SdkChild.ReachedIff` | orket/extensions/sdk_capability_runtime.py:237-366 | an action on a first-slice capability reaches code exactly when it is admitted, served, and a use or one of the two probes |
| `SdkChild.PlainReachedIff` | orket/extensions/sdk_capability_runtime.py:379-382 | outside the first slice an action reaches code exactly when its id is a root or configured |
| `SdkChild.UseMeaning` | orket/extensions/sdk_capability_runtime.py:99-109 | a use that is let run leaves one record, which tells how the provider answered or what it threw |
| `SdkChild.ResultMeaning` | orket/extensions/workload_executor_support.py:239-249 | BLOCKED exactly when an extra first-slice capability was not admitted, and then nothing ran and each such capability has a blocked record, or some use is not admitted or not served; otherwise SUCCESS or FAILED as the workload ended |
| `SdkChild.FailureNamesFirstRefusal` | orket/extensions/workload_executor_support.py:252-265 | without drift the failure class names the denial of the first refused use: undeclared, denied or unavailable |
| `SdkChild.FailureNamesDrift` | orket/extensions/workload_executor_support.py:252-265 | on drift the failure class names the drift |
| `SdkChild.FailureNamesEnding` | orket/extensions/workload_executor_support.py:252-265 | with neither drift nor refused use the failure class is the type the workload raised, with its fallback, or the plain failure |
| `SdkChild.SideEffectMeaning` | orket/extensions/sdk_capability_runtime.py:237-366 | a side effect is reported exactly when there is no drift and a use is let run that is a successful memory write or turn control, or a player that is not a null player |
| `TokenSummary.Remember` | orket/interfaces/api.py:1382-1386 | the table holds the latest selected model of every trace |
| `TokenSummary.ReadTurn` | orket/interfaces/api.py:1391-1421 | a turn's model is the one last selected for its trace, else the record's own |
| `TokenSummary.FirstTextMeaning` | orket/interfaces/api.py:1380-1401 | the first text that is not empty counts, or the fallback |
| `TokenSummary.FirstCountMeaning` | orket/interfaces/api.py:1408-1412 | the first count that is not 0 counts |
| `TokenSummary.LatestSelectionDecides` | orket/interfaces/api.py:1382-1386 | the latest earlier record of the session that selects a model for the trace decides it |
| `TokenSummary.NoSelection` | orket/interfaces/api.py:1382-1386 | without such a record nothing is selected |
| `TokenSummary.TurnMeaning` | orket/interfaces/api.py:1391-1421 | a turn's fields are its record's own, but for a model selected for its trace |
| `TokenSummary.TurnsMeaning` | orket/interfaces/api.py:1371-1389 | the turns are exactly those of the session's completing records, one each, in log order |
| `TokenSummary.Accumulate` | orket/interfaces/api.py:1422-1427 | one turn is added to the total and to all three breakdowns |
| `TokenSummary.TotalsGrow` | orket/interfaces/api.py:1423-1427 | totals start at nothing and grow by each turn's tokens, under its own key only |
| `TokenSummary.Summarize` | orket/interfaces/api.py:1371-1427 | the turns are those of the log, and every breakdown adds up the turns by its key, with no other keys |
| `TokenSummary.RowsConserve` | orket/interfaces/api.py:1430-1441 | the rows of a breakdown add up to the total, for any key |
| `TokenSummary.FourWayConservation` | orket/interfaces/api.py:1443-1451 | total, turns and the rows of all three breakdowns carry the same tokens |
| `TokenSummary.RegroupingIsFaithful` | orket/interfaces/api.py:1438-1441 | regrouping the combined breakdown by role gives the breakdown by role exactly when no turn with tokens has a colon in its role |

## Left out

- FastAPI routes, websockets, command lines, log files, subprocess and git calls: input and output plumbing.
- The worker's HTTP transport, threads and polling: only the order of its requests and the instants at which the store checks them are modelled.
- Spawn and handoff edges, the per-node `blocked` fields and graph snapshots: they do not affect the order or the cycle report.
- SHA-256 digests: the envelope's digest is an opaque input.
- Building a configured provider from its settings, the interpreter's import hooks, audit cases and the log events of the tracker: a provider is its interfaces and its truth value.
- Host-side checks and failures around the child (import validation, a missing or unreadable result file, artifact validation, control-plane publishing): they end the run before a result class is formed.
- Python floats in `canonical_json`: the values compared with JavaScript are the ones both printers support.
- JavaScript numbers outside the safe integers, lone surrogates and objects with accessors or prototypes: `String(value)` and UTF-8 differ from the model there.
- Artifact references and summary payloads of child results, and exceptions that `_run_child` does not catch: they carry no decision.
- A `TypeError` when two configured capability keys differ only in surrounding space and their providers cannot be compared: the model takes the configured items already stripped and sorted.
- Unicode case folding: `lower` is a parameter of the token summary; reading numbers out of log fields, the sort of the turn rows and the removal of duplicate log records are input normalisation.
- The pydantic parsing of envelopes: an envelope that does not parse never reaches the dispatcher.
- Floating-point rounding of priorities and of clock readings: reals and integers of microseconds stand for them.
