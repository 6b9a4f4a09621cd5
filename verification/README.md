# Attacknet: a Dafny model of the planner, the health checks and the fault lifecycle

Attacknet plans chaos tests for Ethereum networks, injects the faults, and checks whether the network stays in
consensus. This project models its decision logic in Dafny and proves what it does on every input and every run.

- **Planner.** `NetworkBuilder`, `FillerLoop` and `NetworkTopology` build a network (bootnode, target nodes, filler
  nodes) in which the targets are a requested share. `Targeting` and `NodeIds` turn an attack size into nodes and pod
  ids, `Suite` composes the tests, `SuiteProofs` and `SuiteOrder` say when a suite is composed, what it covers and
  hits, and which test stands where, `Serialization` writes and reads topologies, and `Planner` carries the results
  over to whole plans.
- **Health checks.** `ForkConsensus` is the two-level plurality vote, `BlockConsensus` its bounded retry and report,
  `RecoveryLedger` the record of failures and recoveries over polling rounds, and `HealthChecks` the grace-period loop.
- **Faults.** `FaultSessions` is the session kept per fault, `SessionProofs` its properties over any sequence of polls,
  `TestExecution` the run of a test plan against a clock, `PlanRuns` and `PlanProofs` what its waits and steps come to
  as functions of the replies and when they succeed, and `HealthCheckSet` the choice of pods to check.
- `Common` and `Strings` hold shared datatypes, splitting, decimal numerals and string order.

How the model reads the program:

- A loop over a Go map takes its keys in an order the method leaves open; `Orders` describes all of them, and the
  lemmas quantify over it.
- Calls to Kubernetes, Chaos Mesh and the clients' RPC are inputs: polls, records, labels, replies with the time they
  took, and the clock. Where a wait can go on forever the replies are a finite tape, and `Unfinished` is the outcome of
  a wait that outlasts it.
- Run-time panics and a call that never returns are outcomes (`IndexPanic`, `NilPanic`, `StatePanic`, `InvalidState`,
  `NilTestPanic`, `Hangs`), so what leads to them is proved, not assumed away.
- Ratios are exact: float32 arithmetic on node counts is read as rational arithmetic, with `0.333333333` and
  `0.666666666` as 1/3 and 2/3. The requested share is a `real`.

Where the code does not do what its names, comments or documentation suggest, the model follows the code:

- `pkg/plan/suite/types.go` documents strict bounds for the share of each attack size. The counts the code accepts
  keep to them except that a superminority is exactly a third when the number of nodes is divisible by three and below
  150, and a supermajority of at most three nodes is all of them (`DocumentedIff`). Testing a majority against 66
  percent instead of two thirds makes no difference (`MajorityEndsAtTwoThirds`).
- A share that the bootnode and the targets meet on their own leaves no filler to add, and then the filler loop never
  returns (`HangsIff`, `TwoThirdsHangs`).
- An attack size can be refused although its band has a count that is available: exactly if the available nodes reach
  the least count of the band but not the one the code settles on (`RefusedThoughMeetableIff`,
  `RefusesAMeetableBand`).
- An i/o fault on a target of several pods is injected once per pod with a selector for all of them
  (`NoPodHitTwiceIff`).
- A session does not always record the pods its fault hits. `checkTargetSelectionCompleted` returns true as soon as a
  Selected condition is listed, whatever its status, and records are looked at once at most. A pod is recorded exactly
  if the one recording poll is well formed and finds it injected already (`PodRecordedIff`), and a session without
  targets stays so for good exactly if a poll listed a Selected condition that was true or came with records
  (`LostForGoodIff`, `EarlyPollLosesTargets`).
- The volume path of an i/o fault ends at the first hyphen of the client's name (`VolumePathOf`).
- The committed suites name validators `cl-2-lighthouse-nethermind-validator`; the ids the code writes for validators
  begin with `val-` (`PrefixTellsKind`).
- `GetPodsUnderTest` merges flags into copies it does not return (`FlagsMergedIff`, `KilledPodExpectedAlive`).
- The recovery ledger compares each failing map with its own predecessor, so a client that turns from a wrong height
  to a wrong hash is entered as recovered (`RecordedWhileFailing`, `MovingBetweenMapsCountsAsRecovery`).
- The panic that `GetStatus` calls impossible is reachable with expected deaths or failed recoveries (`RunPanicsIff`):
  a killed pod whose record recovers after all is enough (`RecoveredKilledPodPanics`), and once a recovery is known to
  have failed, so is a poll whose records have all recovered (`AllRecoveredIff`, `FailureThenRecoveryPanics`).

The expected values of `pkg/plan/suite/targeting_test.go` and the counts and ids of the committed plans are the lemmas
`UnitTestCases`, `CommittedCounts` and `CommittedId`.

`dafny verify dfyconfig.toml` checks the whole project.

## Model

| member | source | states |
|---|---|---|
| ForkConsensus.DetermineForkConsensus | pkg/health/ethereum/consensus.go:46-95 | the four lists are those of some iteration order of the height map and of the hash map, and split the votes without loss at both levels |
| ForkConsensus.Plurality | pkg/health/ethereum/consensus.go:61-73 | the loop over a vote map scores every group once, in some order of the keys |
| ForkConsensus.GroupVotes | pkg/health/ethereum/consensus.go:52-56 | the vote map holds for each reported value exactly the votes for it, in voting order |
| ForkConsensus.VotesForIsFilter | pkg/health/ethereum/consensus.go:52-56 | a group is exactly the votes for its value, each as often as cast, in voting order |
| ForkConsensus.ConsensusIsPlurality | pkg/health/ethereum/consensus.go:46-95 | for every iteration order both levels partition the votes as multisets, the right lists are exactly the votes for one height and one hash with maximal count, and no wrong vote agrees with them |
| ForkConsensus.EveryTieCanWin | pkg/health/ethereum/consensus.go:61-93 | every height tied for the lead, and every hash tied for the lead at it, is the consensus under some iteration order |
| ForkConsensus.OrderIndependentIffStrict | pkg/health/ethereum/consensus.go:46-95 | consensus lists and multisets of wrong votes are independent of the iteration order if and only if the plurality is strict at both levels |
| ForkConsensus.NothingWrongIffUnanimous | pkg/health/ethereum/consensus.go:46-95 | for every order, no wrong heights iff all heights agree, and nothing wrong iff all votes are for one block |
| BlockConsensus.FinalPoll | pkg/health/ethereum/execution_rpc.go:27-35 | the reported poll is the first that does not disagree on the height, or the last attempt allowed |
| BlockConsensus.Report | pkg/health/ethereum/execution_rpc.go:37-46 | a failing map holds the last report of each pod on the list of wrong votes |
| BlockConsensus.GetBlockConsensus | pkg/health/ethereum/execution_rpc.go:20-54 | the answer is that of the reported poll: its RPC error, the index panic if no client answered, or a report of its votes |
| BlockConsensus.ReportIsExact | pkg/health/ethereum/execution_rpc.go:37-53 | the failing maps hold exactly the pods off the reported height and the pods at it with another hash; some pod agrees |
| BlockConsensus.ReportIsPlurality | pkg/health/ethereum/execution_rpc.go:48-50 | the reported height and hash are pluralities |
| BlockConsensus.ReportedVotes | pkg/health/ethereum/execution_rpc.go:37-46 | with distinct pod names each failing pod is listed with its own vote |
| BlockConsensus.LastReportWins | pkg/health/ethereum/execution_rpc.go:37-46 | a pod listed several times is reported with its last wrong vote |
| BlockConsensus.PassIffUnanimous | pkg/health/ethereum/beacon_rpc.go:25-59 | both failing maps are empty iff all clients reported one block |
| BlockConsensus.PodsAddUp | pkg/health/ethereum/execution_rpc.go:20-54 | with distinct pod names, pods failing by height, failing by hash and agreeing are disjoint and add up to those polled |
| RecoveryLedger.ConvertResultToArtifact | pkg/health/ethereum/network_checker.go:82-134 | the artifact equals the specified one: leavers get the current time, earlier entries win, and the flags report clients outside the fault |
| RecoveryLedger.MarkRecovered | pkg/health/ethereum/network_checker.go:91-101 | clients of the previous map that are missing from the new one get the current time, all others keep their entry |
| RecoveryLedger.AnyOutside | pkg/health/ethereum/network_checker.go:109-126 | true iff some client is not under test |
| RecoveryLedger.LedgerIsExact | pkg/health/ethereum/network_checker.go:86-107 | after any run the ledger holds exactly the clients that dropped out of a failing map between two rounds, with the seconds of the first such round |
| RecoveryLedger.LedgerOnlyGrows | pkg/health/ethereum/network_checker.go:103-114 | ledger entries never change or vanish, and the flag that unfaulted nodes needed to recover never goes back to false |
| RecoveryLedger.FlagsAreExact | pkg/health/ethereum/network_checker.go:109-126 | over any run the flags hold iff a client outside the fault fails now, or ever left a failing map |
| RecoveryLedger.PassingLedgerIsEveryFailure | pkg/health/ethereum/network_checker.go:89-107 | when the last round passes, the ledger's clients are exactly those that failed in any earlier round |
| RecoveryLedger.RecordedWhileFailing | pkg/health/ethereum/network_checker.go:91-101 | a client enters the ledger while still failing iff it moves from one failing map to the other |
| RecoveryLedger.MovingBetweenMapsCountsAsRecovery | pkg/health/ethereum/network_checker.go:91-101 | a run of two rounds in which a client still failing is entered as recovered |
| HealthChecks.RunAllChecks | pkg/health/ethereum/network_checker.go:35-80 | a round reports all four checks, each converted against its own previous artifact, or ends with the dial error, or with the RPC error or index panic of the first check without an answer |
| HealthChecks.RunCheck | pkg/health/ethereum/network_checker.go:46-50 | one check is answered iff its deciding poll met no error and some client, and is then converted against its previous artifact; otherwise it ends with that error, or the index panic |
| HealthChecks.PollsAllowed | pkg/health/ethereum/network_checker.go:46-76 | at most 16 polls for a latest block and 4 for a finalized one; all before the deciding poll found two heights, and an earlier deciding poll found one |
| HealthChecks.RunChecks | pkg/health/checker.go:35-62 | a result ends a run whose earlier rounds all failed within the grace period and whose last round passed or exceeded it, in no more rounds than its seconds allow; an error or panic is that of the next round |
| HealthChecks.PassedIffAllUnanimous | pkg/health/checker.go:64-91 | all checks pass iff in each of the four the deciding poll was unanimous |
| HealthChecks.ArtifactsAreFolds | pkg/health/checker.go:40-46 | in any run each returned artifact is the fold of its own check's rounds |
| HealthChecks.PassingRun | pkg/health/checker.go:35-62 | when a run passes, each returned ledger lists exactly the clients that failed that check in an earlier round, dated from their first recovery |
| NetworkBuilder.ComposeConsensusClient | pkg/plan/network/consensus.go:41-75 | the image holds no comma after the split, and a sidecar is present iff it has a cpu request |
| NetworkBuilder.BuiltAsConfigured | pkg/plan/network/clients.go:7-13 | a node has its clients' names, images and default resources, with the image up to the first comma as beacon image and the next part as validator image |
| NetworkBuilder.PopulateClientMap | pkg/plan/network/network_builder.go:8-32 | succeeds iff names are distinct, mapping each name to its configuration; the error names a client listed twice |
| NetworkBuilder.ComposeNodesForElTesting | pkg/plan/network/execution.go:23-35 | each consensus client is paired with the target multiplier times, numbered from 2 |
| NetworkBuilder.ComposeNodesForClTesting | pkg/plan/network/consensus.go:27-39 | each execution client is paired with the target multiplier times, numbered from 2 |
| NetworkBuilder.AppendRow | pkg/plan/network/network_builder.go:119-128 | one execution client is paired with each consensus candidate in turn, until the count is reached |
| NetworkBuilder.OthersIsFilter | pkg/plan/network/network_builder.go:115-121 | the filler candidates are exactly the clients other than the target, in order |
| NetworkBuilder.PickExtraNodeClients | pkg/plan/network/network_builder.go:108-132 | filler k has index start + k, execution client (k / number of consensus candidates) modulo the execution candidates, consensus client k modulo the consensus candidates |
| FillerLoop.ReturnsIff | pkg/plan/network/network_builder.go:112-130 | the loop reaches its exit iff at least one node is wanted and both lists have a client other than the target |
| FillerLoop.UsesExactly | pkg/plan/network/network_builder.go:114-128 | how often each client pair is used by n fillers |
| FillerLoop.FillersAreBalanced | pkg/plan/network/network_builder.go:114-128 | any two client pairs are used a number of times that differs by at most one |
| NetworkTopology.CalcNodesNeededToSatisfyTarget | pkg/plan/network/network_builder.go:152-172 | accepted iff 0 < p <= 1 and one node more than the targets still meets the share; the network is then the largest that does |
| NetworkTopology.ComposeNetworkTopology | pkg/plan/network/network_builder.go:34-91 | rejected with an error that names what is wrong, never returning, or a planned network, each exactly under its stated condition |
| NetworkTopology.ComposeBootnodeAndTargets | pkg/plan/network/network_builder.go:35-75 | succeeds iff the clients are configured, with bootnode 1 and the nodes under test |
| NetworkTopology.AddFillers | pkg/plan/network/network_builder.go:93-106 | rejected iff the share does not fit, hangs iff the filler loop never returns, else the core followed by the fillers |
| NetworkTopology.SomeTarget | pkg/plan/network/network_builder.go:59-75 | an acceptable request has at least multiplier, hence at least one, target node |
| NetworkTopology.NodePlaces | pkg/plan/network/network_builder.go:52-90 | node i has index i + 1, and after the bootnode exactly the T target nodes, placed first, run the target client |
| NetworkTopology.TargetsExactly | pkg/plan/network/network_builder.go:58-75 | a planned network has exactly m times as many nodes under test as there are clients of the other kind, m being the configured multiplier, or 1 if that is 0 |
| NetworkTopology.PairsExactly | pkg/plan/network/network_builder.go:58-75 | node i pairs the target with client (i - 1) / m of the other kind, up to the last such client, and no later node runs the target |
| NetworkTopology.PairedOften | pkg/plan/network/network_builder.go:58-75 | every client of the other kind is paired with the target exactly m times |
| NetworkTopology.FillersInTurn | pkg/plan/network/network_builder.go:108-132 | filler k runs other execution client (k / c) modulo e and other consensus client k modulo c, for e and c of them |
| NetworkTopology.NodesAsConfigured | pkg/plan/network/clients.go:7-25 | every node is set up as two of the configured clients are, and the first runs the bootnode clients |
| NetworkTopology.SizeMeetsShare | pkg/plan/network/network_builder.go:77-90 | N * p <= T < (N + 1) * p for the N nodes of a planned network, with at least one filler |
| NetworkTopology.HangsIff | pkg/plan/network/network_builder.go:93-132 | composing never returns iff (T + 2) * p > T or a list has no client but the target |
| NetworkTopology.TwoThirdsHangs | pkg/plan/network/network_builder.go:93-132 | a valid request, two targets to be two thirds of the network, that never returns |
| NodeIds.TagIsInjective | pkg/plan/suite/step_builder.go:20-42 | a tag determines the node number and the kind of client, whatever the client names |
| NodeIds.TagReads | pkg/plan/suite/step_builder.go:20-42 | an id spelled out: prefix of the kind, node number padded to the digits of the node count (at most three), the client's own type, its partner's type |
| NodeIds.OrderKeptIffSmall | pkg/plan/suite/step_builder.go:23-29 | string order of the padded numbers is numeric order across the network iff it has fewer than 1000 nodes |
| NodeIds.PrefixTellsKind | pkg/plan/suite/step_builder.go:32-41 | an id shows its kind of client in its prefix, so no validator id is of the committed form |
| Targeting.CountNodesToTarget | pkg/plan/suite/targeting.go:45-104 | the count or refusal is that of the specification the band lemmas are about |
| Targeting.ChooseTargetsUsingAttackSize | pkg/plan/suite/targeting.go:45-111 | the targets are those of the specification `ChoiceIff` is about, or the refusal |
| Targeting.ChoiceIff | pkg/plan/suite/targeting.go:45-111 | chosen are the first targetable nodes, as many as the size stands for: one, all, or the settled count in its band; exactly when there are that many; a refusal names the size and the network size or the targetable nodes |
| Targeting.RawCountSettles | pkg/plan/suite/targeting.go:53-90 | the count settled on is 32, 34, 51 or 67 percent rounded down, or for the larger three the least count of the band if that is more |
| Targeting.SelectTargets | pkg/plan/suite/targeting.go:192-214 | the choice is made among exactly the matching nodes; only the execution filter reports an empty match |
| Targeting.FilterNodes | pkg/plan/suite/targeting.go:35-43 | keeps the nodes that meet the criteria, in order |
| Targeting.FilteredIsFilter | pkg/plan/suite/targeting.go:35-43 | the kept nodes are exactly the matching ones, each as often as listed, in order |
| Targeting.AcceptedIsInBand | pkg/plan/suite/targeting.go:53-97 | every accepted count lies in the band of its attack size and is available, for every network size |
| Targeting.RefusedIff | pkg/plan/suite/targeting.go:61-96 | an attack size is refused iff no count lies in its band or the count it settles on exceeds the nodes available |
| Targeting.NeverRefused | pkg/plan/suite/targeting.go:85-96 | the test against a ratio of 1 never fires, and a fully targetable minority is refused iff the network has under four nodes |
| Targeting.RefusedThoughMeetableIff | pkg/plan/suite/targeting.go:53-97 | an attack size is refused although its band has an available count iff the available nodes reach the least count of the band but not the one settled on |
| Targeting.RefusesAMeetableBand | pkg/plan/suite/targeting.go:61-72 | for example, 100 available of 300 nodes are refused as a superminority |
| Targeting.DocumentedIff | pkg/plan/suite/types.go:27-30 | an accepted count is strictly within the documented share, except a superminority of exactly a third (n divisible by 3, below 150) and a supermajority of all of at most 3 nodes |
| Targeting.MajorityEndsAtTwoThirds | pkg/plan/suite/targeting.go:73-84 | the test against 66 percent refuses exactly the networks without a count between a half and two thirds, which are those of 1 to 4 and 6 nodes |
| Targeting.BandsIncrease | pkg/plan/suite/targeting.go:53-97 | on one network the accepted counts strictly increase from minority to supermajority |
| Targeting.PanicsIff | pkg/plan/suite/targeting.go:106-110 | the choice indexes past the targetable nodes iff one node is asked for and there is none |
| Targeting.BuildChaosMeshTargetSelectors | pkg/plan/suite/targeting.go:227-238 | one selector per chosen node, in order, as `TargetsExact` describes them, or the refusal |
| Targeting.ImpactSelectors | pkg/plan/suite/targeting.go:233-237 | the selector of each target, in order |
| Targeting.TargetIdsExact | pkg/plan/suite/targeting.go:113-176 | an id is selected iff it is that of a pod of the node on the side of the target, or of any pod of a whole node; a validator counts iff there is a sidecar |
| Targeting.ClientPodsHit | pkg/plan/suite/targeting.go:136-176 | under a matching client every selected pod runs the client under test, and its main pod is selected |
| Targeting.IdsOfOneNode | pkg/plan/suite/targeting.go:113-176 | the ids of a target are distinct, at least one, and tags of its node |
| Targeting.NoIdTwice | pkg/plan/suite/targeting.go:113-176 | across all targets of a test with distinct node numbers no id is selected twice |
| Suite.BuildIOLatencyFault | pkg/plan/suite/faults.go:248-282 | one step per id with the whole selector, or the first id's error |
| SuiteProofs.OneStepPerPod | pkg/plan/suite/faults.go:248-282 | step i injects on the volume path of pod i with the selector of all pods |
| Suite.AreExprSelectorsMatchingIdIn | pkg/plan/suite/step_builder.go:79-89 | true iff every expression selects by pod id with the In operator |
| Suite.ComposeIOLatencySteps | pkg/plan/suite/step_builder.go:91-113 | the i/o steps of all expressions of a target in order, or the first error |
| Suite.ComposeInjectSteps | pkg/plan/suite/step_builder.go:48-143 | the inject steps of all targets in order, or the first error, for any selectors |
| SuiteProofs.OneStepPerTarget | pkg/plan/suite/step_builder.go:48-143 | all other faults take one step per target with its whole selector, and never fail |
| SuiteProofs.ComposedIff | pkg/plan/suite/suite_builder.go:127-229 | a test is composed iff the fault type is known, its settings parse and, for i/o faults, every id has a volume path; it then waits last, carries the grace period and hits what its injections hit |
| SuiteProofs.TargetsExact | pkg/plan/suite/targeting.go:113-238 | a size selects the first of the nodes that run the client under test, as many as it stands for, and of each exactly the pods of that client or of the node, by pod id |
| Suite.ComposeTestsFor | pkg/plan/suite/suite_builder.go:47-73 | one test per fault configuration, or the first error |
| Suite.ComposeDimension | pkg/plan/suite/suite_builder.go:28-74 | the tests of a targeting dimension, skipping refused sizes and target counts already met |
| Suite.ComposeTestSuite | pkg/plan/suite/suite_builder.go:13-80 | the suite or the first failure is that of the specification the suite lemmas are about |
| SuiteOrder.SuiteIsExact | pkg/plan/suite/suite_builder.go:23-75 | which test stands where: dimension by dimension, size by size, only the first to come to its number of targets, configuration by configuration, and no others |
| SuiteProofs.SuiteSucceedsIff | pkg/plan/suite/suite_builder.go:23-75 | a suite is composed iff all dimensions are supported and each size is refused or its tests compose in each |
| SuiteProofs.SuiteFailsWith | pkg/plan/suite/suite_builder.go:23-75 | a failed suite reports the failure of an unsupported dimension or of a size in a dimension |
| SuiteProofs.DedupLosesNoCoverage | pkg/plan/suite/suite_builder.go:23-75 | for every dimension, satisfiable attack size and configuration some test has exactly the targets that attack size would have chosen |
| SuiteProofs.TestsWereAskedFor | pkg/plan/suite/suite_builder.go:23-75 | every test of a suite is the one composed for a requested dimension, size and configuration |
| SuiteProofs.TestShape | pkg/plan/suite/test_builder.go:8-29 | a test injects into its targets and ends with the wait for the faults |
| SuiteProofs.SuiteSize | pkg/plan/suite/suite_builder.go:23-75 | the number of tests is dimensions times distinct target counts times configurations |
| SuiteProofs.NoPodHitTwiceIff | pkg/plan/suite/faults.go:248-282 | no pod is hit twice by one test, except that an i/o fault does so iff some target has several pods |
| Serialization.SerializeNodes | pkg/plan/serialization.go:87-124 | participant i is the written form of node i |
| Serialization.RequestsAreLimits | pkg/plan/serialization.go:97-118 | each pod's requirements are written both as minimum and as limit |
| Serialization.OneInstancePerNode | pkg/plan/serialization.go:91-121 | the written participants stand for as many instances as there are nodes |
| Serialization.DeserializeNetworkTopology | pkg/plan/serialization.go:33-85 | node i is the read form of participant i |
| Serialization.RoundTripIff | pkg/plan/serialization.go:33-124 | a round trip keeps any node list, up to validator images and votes, iff indices are positions, labels empty, sidecars those with cpu, and their images without comma |
| Serialization.PlannedTopologyRoundTrips | pkg/plan/serialization.go:33-124 | every planned topology round trips, and a second trip changes nothing |
| Serialization.SecondTripIff | pkg/plan/serialization.go:42-84 | for any nodes a second trip changes nothing iff no validator image is split off, and a third never does |
| Planner.BuildPlan | pkg/plan/plan.go:10-76 | the written network is the planned topology and the suite is that of the nodes after the bootnode; it never returns iff an acceptable request asks for a share that the bootnode and targets meet alone, or a list has no client but the target |
| Planner.PlannedChoices | pkg/plan/plan.go:27-30 | on a planned network no attack size runs past the targetable nodes or finds none; it chooses the first nodes after the bootnode |
| Planner.PlannedTestShape | pkg/plan/suite/suite_builder.go:23-75 | every test of a planned suite injects into as many nodes right after the bootnode as its attack size stands for in the network, then waits |
| Planner.PlannedHitsIff | pkg/plan/suite/targeting.go:113-176 | a planned test hits exactly the pods of its nodes, or those of the client under test on them |
| Planner.PlannedClientPods | pkg/plan/suite/targeting.go:136-176 | on every target node the pods hit at client level run the target, and there is one |
| Planner.BootnodeNeverHit | pkg/plan/plan.go:27-30 | no id hit by a planned test belongs to node 1 |
| Planner.PlannedPodsHitOnceIff | pkg/plan/suite/suite_builder.go:23-75 | a planned test hits no pod twice, unless it is an i/o fault on targets of several pods |
| Planner.PlannedSuiteSucceeds | pkg/plan/suite/suite_builder.go:13-80 | a planned network, supported dimensions and well-formed faults always give a suite |
| Planner.VolumeRefusedIff | pkg/plan/suite/faults.go:232-246 | a planner-built pod id never has too few parts, and is refused for i/o faults iff its last part is "validator" |
| Planner.VolumePathOf | pkg/plan/suite/faults.go:232-246 | the volume path is that of the pod's client, whole iff its name has no hyphen |
| FaultSessions.FilterInjectedPods | pkg/chaos-mesh/session.go:327-339 | the pod names of the injected records, or the error of the first malformed id |
| FaultSessions.BuildPodsUnderTestSlice | pkg/chaos-mesh/session.go:304-323 | one pod per name with its labels and the flag, or the first pod without labels |
| FaultSessions.FaultSession.constructor | pkg/chaos-mesh/session.go:47-94 | a new session knows nothing, and ends at its start plus its duration if it has one |
| FaultSessions.FaultSession.CheckTargetSelectionCompleted | pkg/chaos-mesh/session.go:111-131 | true iff selection was not complete and a Selected condition is listed; complete iff the first is true |
| FaultSessions.FaultSession.CheckForFailedRecovery | pkg/chaos-mesh/session.go:167-191 | the messages reported are exactly the recovery failures not known before, which are now known |
| FaultSessions.FaultSession.PopulatePodsUnderTest | pkg/chaos-mesh/session.go:196-228 | only the first call records targets, even if it fails |
| FaultSessions.FaultSession.GetFaultRecords | pkg/chaos-mesh/session.go:133-164 | the records, after completing target selection and recording targets as the conditions allow |
| FaultSessions.FaultSession.CountRecords | pkg/chaos-mesh/session.go:243-263 | the three counts of the records, and the failures known after looking at the unrecovered ones |
| FaultSessions.FaultSession.GetStatus | pkg/chaos-mesh/session.go:233-280 | new state and outcome are those of the poll function that `StatusIff` and the other session lemmas are about; what is logged as new is exactly what became known |
| SessionProofs.InvalidStateIff | pkg/chaos-mesh/session.go:265-279 | the exact counts that reach the panic |
| SessionProofs.PanicsIff | pkg/chaos-mesh/session.go:243-279 | the same for record lists, and never without expected deaths and failures |
| SessionProofs.RunPanicsIff | pkg/chaos-mesh/session.go:233-279 | for every poll of every run, the panic is reached iff the poll counts records and the counts, with the failures and deaths known then, are the impossible ones |
| SessionProofs.StatusIff | pkg/chaos-mesh/session.go:243-276 | for every poll of every run that counts records: Starting iff some record is not injected; InProgress iff all are, none recovered and more than the expected deaths; Completed iff otherwise those outstanding number failures and deaths; Stopping iff some recovered and another number is outstanding |
| SessionProofs.UncountedIff | pkg/chaos-mesh/session.go:133-240 | a poll that counts none reports Starting iff it reads a resource without records, conditions listed or selection complete, and an error otherwise |
| SessionProofs.AllRecoveredIff | pkg/chaos-mesh/session.go:265-279 | when all records have recovered, the session is completed iff no recovery is known to have failed and no death is expected, and panics otherwise |
| SessionProofs.FailureThenRecoveryPanics | pkg/chaos-mesh/session.go:167-279 | once a recovery is known to have failed, a poll whose records have all recovered panics |
| SessionProofs.FailureKnownIff | pkg/chaos-mesh/session.go:167-191 | a failure message is known after a run iff some poll counted an unrecovered record that reports it |
| SessionProofs.FailsInIff | pkg/chaos-mesh/session.go:167-191 | a message counts iff an event of a failed recovery carries it, of a record whose fault is still in place |
| SessionProofs.RecoveredKilledPodPanics | pkg/chaos-mesh/session.go:265-279 | a run of two polls of a pod kill: its death expected, the fault is reported completed, and when its record recovers the session panics |
| SessionProofs.RunExtends | pkg/chaos-mesh/session.go:111-228 | over any polls known failures, completed selection and recorded targets are kept |
| SessionProofs.ReportedOnce | pkg/chaos-mesh/session.go:167-191 | each failure message is reported as new by at most one poll |
| SessionProofs.RunsAreConsistent | pkg/chaos-mesh/session.go:196-228 | over any polls recorded pods expect death iff the fault is a pod kill, and then number the pods expected missing |
| SessionProofs.TargetsWrittenOnce | pkg/chaos-mesh/session.go:196-228 | pods under test and their expected number are changed by at most one poll |
| SessionProofs.RecordedTargets | pkg/chaos-mesh/session.go:111-228 | after any run, whether selection is complete, whether targets were recorded, and which pods and deaths, are given by the first poll that listed a Selected condition that was true or came with records |
| SessionProofs.SelectionIff | pkg/chaos-mesh/session.go:111-131 | what is looked at is whether some condition is Selected, and whether the first such is true |
| SessionProofs.RecordedInOrder | pkg/chaos-mesh/session.go:196-228 | the recorded pods are those of the injected records, one each and in order, with their labels, flagged exactly for pod kills, and as many deaths are expected |
| SessionProofs.PodRecordedIff | pkg/chaos-mesh/session.go:111-228 | a pod is recorded iff that poll came with records, its injected records are well formed, and the pod was injected in it |
| SessionProofs.PodOfId | pkg/chaos-mesh/session.go:331-336 | splitting a record id finds a pod iff the id is namespace, pod and rest, separated by slashes |
| SessionProofs.LostForGoodIff | pkg/chaos-mesh/session.go:111-161 | a session without targets records none in any continuation iff a poll listed a Selected condition that was true or came with records |
| SessionProofs.EarlyPollLosesTargets | pkg/chaos-mesh/session.go:111-161 | a first poll during selection, or after it but before injection, or before records are listed, loses the targets for good |
| SessionProofs.StatusNeverGoesBack | pkg/chaos-mesh/session.go:243-276 | without failures and pod kills, and with counts that only step from 0 to 1 between successful queries, statuses never go back and Completed is final |
| TestExecution.WaitForInjectionCompleted | pkg/test_executor/executor.go:142-187 | ends as `InjectionDecided` says, after at most 41 polls; a timeout only after ten seconds, or five with target selection incomplete |
| PlanProofs.InjectionDecided | pkg/test_executor/executor.go:142-187 | from the replies alone: the wait goes on while statuses are errors or Starting and time is left; it succeeds iff a poll in time reports another status, panics iff GetStatus does, fails iff a time limit is passed, at the exact poll and time |
| TestExecution.WaitForFaultRecovery | pkg/test_executor/executor.go:189-213 | ends as `RecoveryDecided` says; success means Completed was observed, after exactly the time of the polls and ten seconds between them |
| PlanProofs.RecoveryDecided | pkg/test_executor/executor.go:189-213 | from the replies alone: the first status that is neither InProgress nor Stopping decides; success iff Completed, failure iff an error or Starting, panic iff GetStatus does, no end iff there is none, at the exact time |
| TestExecution.WaitForOneFault | pkg/test_executor/executor.go:115-130 | ends as `FaultDecided` says; success leaves the fault ended, and the clock at the later of the start and its end time plus the polling time |
| PlanProofs.FaultDecided | pkg/test_executor/executor.go:115-130 | the nil panic iff there is no end time, else the wait for recovery begun at the end time or now |
| TestExecution.TestExecutor.RunWaitForFaultCompletion | pkg/test_executor/executor.go:112-134 | success leaves every session observed Completed at or after its end time, and the clock between the latest end time and that plus the polling time; the nil panic needs a session without end time |
| PlanProofs.FaultsDecided | pkg/test_executor/executor.go:112-134 | the faults are waited for in turn; success iff each wait succeeds, otherwise the end of the first that does not |
| PlanProofs.FaultsInBudget | pkg/test_executor/executor.go:112-134 | a successful wait leaves the clock between the latest end time and that plus the polling time |
| PlanProofs.LatestEndIsMaximum | pkg/test_executor/executor.go:114-126 | the latest end time is the maximum of the start and the end times |
| PlanProofs.SleepsAloneReachLatestEnd | pkg/test_executor/executor.go:114-126 | without polling time the clock ends exactly at the latest end time |
| TestExecution.TestExecutor.RunInjectFaultStep | pkg/test_executor/executor.go:101-110 | a started fault is kept with its end time even if the wait for injection fails, and was seen past Starting iff the step succeeds |
| TestExecution.TestExecutor.RunTestPlan | pkg/test_executor/executor.go:26-68 | ends as `PlanDecided` says; success alone completes the plan, takes at least its durations and means every injected fault was seen past Starting; a plan ending with the wait is completed only if all its faults have ended; one session per injection |
| TestExecution.TestExecutor.RunStep | pkg/test_executor/executor.go:36-61 | a step ends as `StepDecided` says, keeping earlier sessions |
| PlanProofs.PlanDecided | pkg/test_executor/executor.go:26-68 | a plan succeeds iff every step succeeds in turn, and otherwise ends as the first that does not |
| PlanProofs.StepDecided | pkg/test_executor/executor.go:36-61 | what each kind of step does: a duration passes exactly, an injection waits on a new session of that fault, a malformed step or failed start changes nothing |
| PlanProofs.PlanTakesTime | pkg/test_executor/executor.go:136-140 | a plan that succeeds takes at least the sum of its durations |
| TestExecution.TestExecutor.GetPodsUnderTest | pkg/test_executor/executor.go:70-99 | the first appearances of all sessions' pods, or an error before completion |
| TestExecution.FirstAppearancesExact | pkg/test_executor/executor.go:77-98 | every name once, as the pod that carried it first, in the order of first appearances |
| TestExecution.MergePods | pkg/test_executor/executor.go:78-97 | the pods of one session add the first appearances among them |
| TestExecution.FlagsMergedIff | pkg/test_executor/executor.go:79-95 | returned pods reflect every expected death iff the first pod of each name already did |
| TestExecution.KilledPodExpectedAlive | pkg/test_executor/executor.go:79-95 | a pod slowed down and then killed is returned as one that should survive |
| HealthCheckSet.CreateLookup | pkg/health/ethereum/network_checker.go:19-33 | the lookup has exactly the names of the pods under test |
| HealthCheckSet.GetPodsToHealthCheck | pkg/health/ethereum/util.go:17-38 | the surviving pods under test, then the bystanders outside the lookup, or the query's error |
| HealthCheckSet.HealthCheckSetIsExact | pkg/health/ethereum/util.go:17-38 | no name is checked twice, and the pods checked are exactly the matching first appearances not expected to die and the untouched bystanders |
| HealthCheckSet.CheckedInOrder | pkg/health/ethereum/util.go:17-38 | the faulted pods that survive come first, then the bystanders, each in their order, with their names and labels |

## Left out

- Kubernetes, Chaos Mesh and RPC calls, port forwarding, Kurtosis and Grafana: inputs of the model.
- `getBeaconClientConsensus`: the same body as `getExecBlockConsensus`; one model serves both.
- Reflection on Chaos Mesh resources: condition list and record list are inputs; a failing cast is not modelled.
- YAML and JSON: taken as the identity; the omitted zero sidecar fields read back as zero.
- The contents of fault specifications and test names: a step carries the fault configuration it was built from, and
  reading a configuration's fields is the function `parse` of the request.
- Bit-level float32 rounding and integer overflow: ratios are exact rationals.
- `filterNodesByClientCombo` and `pickClient`: no caller.
- Order of the messages of one failing record, and of the keys of Go maps in logs: sets.
- Waits with no end: a recovery wait is modelled up to the end of a finite tape of replies; that Chaos Mesh ever
  completes a fault is not claimed.
- Logging, runtime estimate, descriptions of targets and tests, command line, project files, artifact files, terraform.
