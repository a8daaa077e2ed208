# Verified model of the upgrade operator and the bare-metal provider

This project models the decision logic of the cluster version operator (CVO) and
of the bare-metal infrastructure provider (CAPBM) in Dafny and proves properties
of it. The API server, SSH, remote jobs, clocks and health checks are oracles:
every result they can give is covered. Iteration over Go maps and the unstable
`sort.Slice` may yield any order.

`dafny verify dfyconfig.toml` checks the whole project.

| file | part of the system |
|---|---|
| DependencyGraph.dfy | the depth-first dependency sort, on arbitrary graphs |
| UpgradePath.dfy, GraphExecutor.dfy | path validation and the phased upgrade graph |
| RollingUpgrade.dfy | batches, goroutines, semaphore, error channel and WaitGroup as a transition system |
| AddonUpgrades.dfy, ClusterVersion.dfy | addon upgrades in dependency order and the ClusterVersion reconcile over whole runs |
| ComponentOrder.dfy, SelfUpgrade.dfy | the SelfUpgrade component order and its phase machine |
| HostInventory.dfy, HostAllocation.dfy | the host inventory, its counters, and allocation under interleaving |
| SshPool.dfy, ShellQuoting.dfy | the shared connection pool and the quoting of remote scripts |
| DeepMerge.dfy, BackendSync.dfy, StatusText.dfy | value merging, load balancer sync, status text |
| Wrappers.dfy, Sequences.dfy | the Option type; sizes of sequences without repetitions |

## What the code does not do

Where a property one would expect is false of the code, the model keeps the code
and the project states exactly when the property holds.

- A dependency on a component of the same phase always fails the phase, because names count as completed only after their phase (`GraphExecutor.SamePhaseDependencyIsNeverMet`).
- An empty desired version is never validated: a completed move breaks the rule of its path exactly when it leaves a version for such a target without force or without a readable path (`UpgradePath.UncheckedExactlyWhenEmpty`, `ClusterVersion.RunsFollowThePath`), and a version blocked from every other is reached exactly through it (`ClusterVersion.ForbiddenReachedExactly`). The first update of a cluster without a recorded version needs force (`UpgradePath.FirstUpdateNeedsForce`).
- A stored addon object that refers to another definition than its name does not reach its target (`AddonUpgrades.SuccessReachesTarget`). A completed upgrade is a fixed point exactly when each definition asks for the version the addon phase is bound to store for its name; otherwise, for instance when a release defines an addon twice with different versions, it never settles (`ClusterVersion.SuccessIsFixedPoint`, `ClusterVersion.NeverSettles`, `AddonUpgrades.UnsettledByConflict`).
- An addon that is new in a release, has a version and asks for a backup makes every upgrade fail, because there is no current definition to back up (`AddonUpgrades.SomeRunSucceedsExactly`).
- Cyclic SelfUpgrade components pass the validation, and the sort then never ends (`ComponentOrder.AcceptedCycle`, `ComponentOrder.SortEndsExactly`, `SelfUpgrade.RunsEndExactly`).
- Pausing a SelfUpgrade is final (`SelfUpgrade.PauseIsFinal`). Its rollback is the reverse of the upgrade only for a declared list that respects dependencies (`SelfUpgrade.FullRollbackOrder`).
- Releasing a host whose entry is no longer Allocated makes the counters drift (`HostInventory.SequencesConserve`), and the life of one machine on a host whose Name equals its HostName is enough for that (`HostAllocation.ConservedExactlyWhenNothingIsFreed`); a host whose two names differ can be given to two machines (`HostAllocation.UniqueExactlyWhenNamesMatch`).
- The first allocation from an inventory that was never recounted blocks all its other hosts until a recount (`HostInventory.FirstAllocationBlocksTheRest`).
- An open SSH connection leaves the pool when another one to its endpoint is inserted or closed, and no cleanup reaches it any more (`SshPool.EvictedExactly`, `SshPool.StraysStayOpen`).
- The sudo password is quoted without escaping (`ShellQuoting.PasswordIntactExactlyWithoutQuotes`).
- A sync removes one entry per undesired name, and a backend kept by name keeps its old address and port; the pool becomes the desired one exactly when neither matters (`BackendSync.SyncBackends`).

## Model

| member | source | states |
|---|---|---|
| DependencyGraph.VisitNode | modules/cvo/internal/upgrader/graph_executor.go:386-403 | The recursive closure ends on every graph and computes the depth-first visit, whatever is visited or in progress when it is called |
| DependencyGraph.TopologicalSort | modules/cvo/internal/upgrader/graph_executor.go:380-410 | For every graph and iteration order: each name reachable from the keys exactly once; a dependency comes first unless it reaches its dependant; without cycles always first |
| DependencyGraph.SortedIsCorrect | modules/cvo/internal/upgrader/graph_executor.go:405-410 | The same three facts about the sort as a function of the iteration order, cycles and unknown names included |
| DependencyGraph.AcyclicSortedHasDependenciesFirst | modules/cvo/internal/controllers/clusterversion_controller.go:494-521 | On an acyclic graph every direct dependency of a listed name is listed before it and every key is listed |
| DependencyGraph.TransitiveDependenciesFirst | modules/cvo/internal/upgrader/graph_executor.go:393-402 | In such a list every transitive dependency precedes its dependant |
| DependencyGraph.OrderedListIsKept | modules/cvo/internal/upgrader/graph_executor.go:405-410 | The sort returns its input order unchanged exactly when that order already respects the dependencies |
| UpgradePath.ValidateUpgradePath | modules/cvo/internal/upgrader/graph_executor.go:55-94 | Accepts exactly: no or empty target, same version, or (forced or first matching edge recommended) and no blocked pair matches |
| UpgradePath.MatchMeansPrefix | modules/cvo/internal/upgrader/graph_executor.go:421-430 | A non-empty version matches exactly when it equals the pattern or extends what stands before a trailing star |
| UpgradePath.FirstEdgeDecides | modules/cvo/internal/upgrader/graph_executor.go:72-85 | The first matching edge decides whether a move is recommended, whatever later edges say |
| UpgradePath.BlocksOverrideForce | modules/cvo/internal/upgrader/graph_executor.go:87-91 | A forced update is accepted exactly when no block matches it, with or without an edge |
| UpgradePath.FirstUpdateNeedsForce | modules/cvo/internal/upgrader/graph_executor.go:421-430 | A cluster without a recorded version matches no edge and no block: its first update is accepted exactly when forced |
| UpgradePath.UncheckedExactlyWhenEmpty | modules/cvo/internal/upgrader/graph_executor.go:56-58 | An accepted change of version breaks the path's own rule exactly when the target is empty and not forced |
| GraphExecutor.BuildDependencyGraph | modules/cvo/internal/upgrader/graph_executor.go:372-378 | The keys are the component names and each holds the dependencies of the last component of that name |
| GraphExecutor.FindComponent | modules/cvo/internal/upgrader/graph_executor.go:412-419 | Finds a component of that name exactly when one is listed |
| GraphExecutor.FindsTheFirst | modules/cvo/internal/upgrader/graph_executor.go:412-419 | Of several components with one name the first is found |
| GraphExecutor.SortPhases | modules/cvo/internal/upgrader/graph_executor.go:132-135 | The phases, rearranged so that their order does not decrease; phases of equal order may come in any arrangement |
| GraphExecutor.ExecutePhase | modules/cvo/internal/upgrader/graph_executor.go:153-177 | Given the results of the components: each call is of a listed component with its dependencies completed and has that result; components run once, in dependency order up to cycles, none after a failed blocking one; the phase passes exactly when all dependencies are completed and no blocking component fails, and then has run every component, otherwise it stopped at a component that waits or right after the failure |
| GraphExecutor.HandlePhase | modules/cvo/internal/upgrader/graph_executor.go:139-148 | The same for one phase of a run, blocking or not, whose completed names are those of earlier phases |
| GraphExecutor.ExecuteUpgradeGraph | modules/cvo/internal/upgrader/graph_executor.go:131-151 | Phases are handled in non-decreasing order up to the first blocking one that does not pass, and no further; the run succeeds exactly when there is none, told from the components and their results; for every handled phase the calls are as stated for a phase |
| GraphExecutor.NamesBeforeAreEarlier | modules/cvo/internal/upgrader/graph_executor.go:145-147 | A name counts as completed in a phase exactly when an earlier handled phase lists it |
| GraphExecutor.SamePhaseDependencyIsNeverMet | modules/cvo/internal/upgrader/graph_executor.go:163-167 | A dependency on a component of the same or a later phase makes the phase fail in every run |
| RollingUpgrade.NewCoordinator | modules/cvo/internal/upgrader/rolling_upgrade_coordinator.go:34-45 | Positive limits are kept and others become one |
| RollingUpgrade.CreateBatches | modules/cvo/internal/upgrader/rolling_upgrade_coordinator.go:68-80 | The batches concatenate to the node list; batch k is the k-th slice of maxUnavailable nodes and none is missing |
| RollingUpgrade.StepKeeps | modules/cvo/internal/upgrader/rolling_upgrade_coordinator.go:83-119 | Every step of every goroutine and of the coordinator keeps the invariant on batches, semaphore, WaitGroup, errors, starts and outcome |
| RollingUpgrade.RunKeeps | modules/cvo/internal/upgrader/rolling_upgrade_coordinator.go:51-119 | The invariant holds in every state of every interleaving |
| RollingUpgrade.ConcurrencyBound | modules/cvo/internal/upgrader/rolling_upgrade_coordinator.go:87-102 | At every moment at most min(maxConcurrent, maxUnavailable) calls of the upgrade function have begun and not returned |
| RollingUpgrade.Barrier | modules/cvo/internal/upgrader/rolling_upgrade_coordinator.go:58-62 | The call for a node begins only after every node of all earlier batches has left the WaitGroup |
| RollingUpgrade.FailureStopsTheRollout | modules/cvo/internal/upgrader/rolling_upgrade_coordinator.go:58-65 | If some call returns an error, no call for a node of a later batch begins in the whole run |
| RollingUpgrade.EachNodeStartsOnce | modules/cvo/internal/upgrader/rolling_upgrade_coordinator.go:90-102 | The upgrade function is called at most once per node |
| RollingUpgrade.SendNeverBlocks | modules/cvo/internal/upgrader/rolling_upgrade_coordinator.go:86-101 | A goroutine that has to report an error always finds room in the channel |
| RollingUpgrade.NoDeadlock | modules/cvo/internal/upgrader/rolling_upgrade_coordinator.go:90-106 | Whichever nodes fail, some step is enabled until the coordinator returns |
| RollingUpgrade.StepDecreases | modules/cvo/internal/upgrader/rolling_upgrade_coordinator.go:90-119 | Every step lowers a measure that stays non-negative |
| RollingUpgrade.RunsAreBounded | modules/cvo/internal/upgrader/rolling_upgrade_coordinator.go:51-119 | No interleaving over n nodes has more than 7n + 1 steps |
| RollingUpgrade.RunRecords | modules/cvo/internal/upgrader/rolling_upgrade_coordinator.go:96-103 | Which calls were begun, have returned and have failed shows in the state exactly as the steps taken say |
| RollingUpgrade.ReturnedResult | modules/cvo/internal/upgrader/rolling_upgrade_coordinator.go:105-118 | An error is returned exactly when some call returned one, and names the batch and exactly its failed nodes, once each; without error the call for every node returned without one |
| RollingUpgrade.OutcomeIsDetermined | modules/cvo/internal/upgrader/rolling_upgrade_coordinator.go:58-118 | The result does not depend on the interleaving: the first batch with a failing node ends the rollout with exactly the failing nodes of that batch |
| RollingUpgrade.EveryOutcomeHappens | modules/cvo/internal/upgrader/rolling_upgrade_coordinator.go:83-119 | For any set of failing nodes there is a complete run |
| AddonUpgrades.ExecuteHooks | modules/cvo/internal/addon/upgrader.go:509-525 | Hooks pass exactly when each failing hook is marked Ignore or Continue |
| AddonUpgrades.Upgrade | modules/cvo/internal/addon/upgrader.go:63-111 | The version of the definition named by the record is written exactly when the definition exists and all stages pass; a backup passes only if the current release defines the addon too |
| AddonUpgrades.GraphHoldsDependencies | modules/cvo/internal/controllers/clusterversion_controller.go:485-491 | The addon graph holds the dependencies of the last definition of each name |
| AddonUpgrades.HandleAddon | modules/cvo/internal/controllers/clusterversion_controller.go:440-479 | One iteration reports no error exactly when the object can be read or created and is at its target or every stage of its upgrade went well; it leaves the object as found unless every stage went well, and touches no other |
| AddonUpgrades.ExecuteAddonUpgrades | modules/cvo/internal/controllers/clusterversion_controller.go:425-482 | The loop over the sorted addons computes the run whose properties are below |
| AddonUpgrades.FindsTheFirst | modules/cvo/internal/addon/upgrader.go:661-671 | Of several definitions with one name the first counts |
| AddonUpgrades.SucceedsExactlyWhenAllPass | modules/cvo/internal/controllers/clusterversion_controller.go:440-481 | The upgrade returns nil exactly when every defined addon passes on its own, told from the store before it |
| AddonUpgrades.EveryRunLeaves | modules/cvo/internal/controllers/clusterversion_controller.go:440-481 | After every run, failed or not, each record is as before or as the handling of its own name leaves it: created, as found, or with the version it refers to if every stage went well |
| AddonUpgrades.FailedAddonStaysNeeded | modules/cvo/internal/controllers/clusterversion_controller.go:476-478 | A failed run has an addon to blame that keeps its version, or has none if just created; if it needed an upgrade the next check still finds one needed |
| AddonUpgrades.SuccessCallsExactly | modules/cvo/internal/controllers/clusterversion_controller.go:470-478 | A run without error calls Upgrade exactly for the addons that are missing or not at their target |
| AddonUpgrades.RunReaches | modules/cvo/internal/controllers/clusterversion_controller.go:440-481 | A run without error stores for each handled addon the version foretold from the store before it, which is its target exactly when its record agreed |
| AddonUpgrades.DependenciesUpgradedFirst | modules/cvo/internal/controllers/clusterversion_controller.go:428-481 | With acyclic dependencies, at every Upgrade call each direct or transitive dependency is at its target exactly when its own record agreed when the run began |
| AddonUpgrades.DependenciesUpgradedFirstUpToCycles | modules/cvo/internal/controllers/clusterversion_controller.go:428-481 | The same on any graph for every direct dependency that does not reach the upgraded addon itself |
| AddonUpgrades.SuccessReachesTarget | modules/cvo/internal/controllers/clusterversion_controller.go:440-481 | A nil result leaves every defined addon at target exactly when each stored object refers to a definition with the version its name asks for |
| AddonUpgrades.FurtherRunsChangeNothing | modules/cvo/internal/controllers/clusterversion_controller.go:459-481 | After a result without error no further run of the release, failed or not, changes any stored addon |
| AddonUpgrades.SomeRunSucceedsExactly | modules/cvo/internal/addon/upgrader.go:63-82 | Some remote results let the addons be upgraded exactly when each one is at target or refers to a definition that, if it asks for a backup, the current release has too |
| AddonUpgrades.NeedsAddonUpgrade | modules/cvo/internal/controllers/clusterversion_controller.go:535-559 | True exactly when some readable defined addon with a version is missing or at another version |
| AddonUpgrades.NothingNeededAtTarget | modules/cvo/internal/controllers/clusterversion_controller.go:535-559 | With all addons at target an upgrade is still needed exactly when two definitions of one name ask for different versions |
| AddonUpgrades.NeededAfterSuccess | modules/cvo/internal/controllers/clusterversion_controller.go:535-559 | After a result without error an upgrade is still needed exactly when some definition with a version differs from the version stored for its name, foretold from the store before |
| AddonUpgrades.UnsettledByConflict | modules/cvo/internal/controllers/clusterversion_controller.go:535-559 | With agreeing records that happens exactly when two definitions of one name ask for different versions |
| ClusterVersion.Controller.Reconcile | modules/cvo/internal/controllers/clusterversion_controller.go:49-177 | Nothing changes while the reconcile is hindered (deleted, paused, not synchronised, no target or release, refused by the path, nodes not ready, nothing needed); a failed upgrade graph leaves version and addons alone and completes nothing; otherwise a Partial entry is recorded, and it completes with the version exactly when the graph and every addon succeed and the patch is stored |
| ClusterVersion.OutcomeExactly | modules/cvo/internal/controllers/clusterversion_controller.go:99-177 | The same about the step function: when it moves nothing, what it records and when it completes |
| ClusterVersion.MoveIsValidated | modules/cvo/internal/controllers/clusterversion_controller.go:115-120 | ActualVersion changes only to the desired version and only in a reconcile that accepted the move |
| ClusterVersion.CompletedTrail | modules/cvo/internal/controllers/clusterversion_controller.go:618-623 | Starting an upgrade leaves the completed versions of the history alone; completing it puts exactly that version on top |
| ClusterVersion.NewestIsActual | modules/cvo/internal/controllers/clusterversion_controller.go:166-171 | In every run, whatever its paths, targets and failures, the newest completed version of the history is ActualVersion |
| ClusterVersion.RunsFollowThePath | modules/cvo/internal/controllers/clusterversion_controller.go:99-176 | In every run the i-th newest completed version is the target of the i-th latest completing reconcile, which began at the version below it, unpaused, with every addon passing and, for a change of version, ready nodes and a successful graph; the move obeys the path and force flag read in that reconcile exactly unless it leaves a version for an unchecked empty target, so with a named target it never crosses a block and, unforced, follows a recommended first match |
| ClusterVersion.MoveIsLegalExactly | modules/cvo/internal/controllers/clusterversion_controller.go:115-120 | The same for a single completing reconcile |
| ClusterVersion.ThroughEmpty | modules/cvo/internal/upgrader/graph_executor.go:56-58 | Under any path two reconciles lead from any version over the empty one to any target; without force the first of them breaks the rule of the path |
| ClusterVersion.ForbiddenReachedExactly | modules/cvo/internal/upgrader/graph_executor.go:55-94 | A target blocked from every other version is reached from a named one exactly when the updates asked for include an empty one and a forced one to the target |
| ClusterVersion.RunsKeepHistory | modules/cvo/internal/controllers/clusterversion_controller.go:132-171 | In every reachable state no entry sits directly above a Partial entry of the same version |
| ClusterVersion.RetriesAddOneEntry | modules/cvo/internal/controllers/clusterversion_controller.go:149-154 | Any number of unsuccessful reconciles to one version leaves the history as it was or with one more entry, and ActualVersion unchanged |
| ClusterVersion.SuccessIsFixedPoint | modules/cvo/internal/controllers/clusterversion_controller.go:107-113 | A stored success is left unchanged by every further reconcile of the same target and release exactly when every definition asks for the version the addon phase stores for its name; the addons stay unchanged in any case |
| ClusterVersion.NeverSettles | modules/cvo/internal/controllers/clusterversion_controller.go:107-171 | Otherwise each later reconcile that looks at the addons begins again, for ever, and each one that completes adds a completed entry to the history |
| ComponentOrder.VisitComponent | modules/cvo/internal/controllers/selfupgrade_controller.go:375-393 | With a stack of any depth, cycles included, the closure computes the unguarded visit of that depth or runs out of stack |
| ComponentOrder.SortComponents | modules/cvo/internal/controllers/selfupgrade_controller.go:370-402 | If the sort ends, there is no cycle and the result is the declared components in the upgrade order, dependencies first; without a cycle and with stack for every component it ends |
| ComponentOrder.SortEndsExactly | modules/cvo/internal/controllers/selfupgrade_controller.go:373-399 | For validated components some depth of the stack is enough exactly when there is no cycle |
| ComponentOrder.AcceptedCycle | modules/cvo/internal/controllers/selfupgrade_controller.go:328-346 | Two components that need each other are accepted, and no depth of the stack is enough to sort them |
| ComponentOrder.RollbackReversesUpgrade | modules/cvo/internal/controllers/selfupgrade_controller.go:277-287 | The declared list read backwards is the reverse of the upgrade order exactly when the declared list respects the dependencies |
| SelfUpgrade.ValidateComponents | modules/cvo/internal/controllers/selfupgrade_controller.go:328-346 | Accepts exactly distinct names with known dependencies; cycles are not rejected |
| SelfUpgrade.Controller.IsComponentCompleted | modules/cvo/internal/controllers/selfupgrade_controller.go:404-411 | True exactly when some status entry records the component as completed |
| SelfUpgrade.Controller.UpdateComponentStatus | modules/cvo/internal/controllers/selfupgrade_controller.go:413-437 | Overwrites the first entry of the name or appends one |
| SelfUpgrade.Controller.UpgradeComponent | modules/cvo/internal/controllers/selfupgrade_controller.go:211-228 | A failure that matters is recorded and leads to RollingBack; otherwise the component is recorded as completed and the last one leads to Verifying |
| SelfUpgrade.Controller.ExecutePreUpgrade | modules/cvo/internal/controllers/selfupgrade_controller.go:159-192 | Leads to Upgrading exactly when every failed hook has a policy other than Abort and the default and, with automatic rollback, the backup succeeds; otherwise to RollingBack or Failed |
| SelfUpgrade.Controller.ExecuteUpgrade | modules/cvo/internal/controllers/selfupgrade_controller.go:194-234 | Upgrades the first component in order that is not completed, and only that one; where the sort runs out of stack nothing is stored |
| SelfUpgrade.Controller.VerifyUpgrade | modules/cvo/internal/controllers/selfupgrade_controller.go:236-271 | Completes with the target version exactly when every component with a health check is healthy; otherwise leads to RollingBack or Failed |
| SelfUpgrade.Controller.ExecuteRollback | modules/cvo/internal/controllers/selfupgrade_controller.go:273-296 | Rolls the declared components back from last to first, up to the first that fails |
| SelfUpgrade.Controller.Reconcile | modules/cvo/internal/controllers/selfupgrade_controller.go:58-107 | The switch over the phase computes the step function of the state machine; with stack for every component it fails to end exactly in the Upgrading phase of a cyclic spec |
| SelfUpgrade.PhaseExactly | modules/cvo/internal/controllers/selfupgrade_controller.go:125-271 | When a reconcile begins a rollback, fails, completes or lets the upgrade begin, told from the spec, the hooks, the backup, the attempt and the health checks |
| SelfUpgrade.ValidatedFirst | modules/cvo/internal/controllers/selfupgrade_controller.go:125-157 | In every run the spec was accepted on ready nodes before anything else |
| SelfUpgrade.PreparedFirst | modules/cvo/internal/controllers/selfupgrade_controller.go:159-192 | In every run no component is touched before a PreUpgrade reconcile whose failed hooks were all tolerated and whose backup, with automatic rollback, succeeded |
| SelfUpgrade.AttemptSource | modules/cvo/internal/controllers/selfupgrade_controller.go:204-228 | Each attempt was made by one Upgrading reconcile, of the component next in order, and has the result of that reconcile |
| SelfUpgrade.GoodRunCompletes | modules/cvo/internal/controllers/selfupgrade_controller.go:83-271 | If nothing goes wrong an accepted acyclic spec is Completed after n + 5 reconciles |
| SelfUpgrade.RunKeeps | modules/cvo/internal/controllers/selfupgrade_controller.go:89-296 | In every state of every unpaused run, cyclic components included, the attempts and the recorded statuses are exactly a prefix of the upgrade order |
| SelfUpgrade.StepDecreases | modules/cvo/internal/controllers/selfupgrade_controller.go:89-106 | Every reconcile that is not yet at an end lowers the measure of phase and open components |
| SelfUpgrade.RunsEnd | modules/cvo/internal/controllers/selfupgrade_controller.go:89-296 | Every unpaused run over n acyclic components, and every run that is not accepted, is Completed or Failed after n + 5 reconciles |
| SelfUpgrade.RunsEndExactly | modules/cvo/internal/controllers/selfupgrade_controller.go:89-296 | Some number of reconciles bounds all runs of a spec, and then n + 5 does, exactly when the spec is rejected or acyclic |
| SelfUpgrade.CompletedRun | modules/cvo/internal/controllers/selfupgrade_controller.go:194-271 | On Completed every component was attempted exactly once, in upgrade order, and every failed attempt was non-blocking and without automatic rollback |
| SelfUpgrade.CompletedIsVerified | modules/cvo/internal/controllers/selfupgrade_controller.go:240-264 | A completed run passed a verification that found every checked component healthy, and reports the target version |
| SelfUpgrade.DependenciesDoneFirst | modules/cvo/internal/controllers/selfupgrade_controller.go:204-211 | At every upgrade call, across reconciles, all direct and transitive dependencies are already recorded as completed |
| SelfUpgrade.RollbacksStopAtStuck | modules/cvo/internal/controllers/selfupgrade_controller.go:277-287 | The rollback calls are the declared names from last to first, up to and including the first that fails |
| SelfUpgrade.FullRollbackOrder | modules/cvo/internal/controllers/selfupgrade_controller.go:273-296 | A rollback of a run in which nothing fails visits the components in the reverse of the upgrade order exactly when the declared list respects the dependencies |
| SelfUpgrade.RollbackCanRunInUpgradeOrder | modules/cvo/internal/controllers/selfupgrade_controller.go:277-287 | Two components for which the rollback order equals the upgrade order |
| SelfUpgrade.PauseIsFinal | modules/cvo/internal/controllers/selfupgrade_controller.go:83-87 | After one paused reconcile no later reconcile, paused or not, changes anything |
| HostInventory.Object.Recount | modules/capbm/internal/controllers/baremetalhostinventory_controller.go:57-88 | Each entry is Maintenance, Allocated or Available exactly as its list failed, named the host or did not; the counters agree |
| HostInventory.Object.Allocate | modules/capbm/internal/controllers/baremetalmachine_controller.go:360-406 | Takes the first host that fits, whose entry is free and that no live machine names: that entry becomes Allocated, the others stay, the counters move by one; nothing changes otherwise |
| HostInventory.Object.Release | modules/capbm/internal/controllers/baremetalmachine_controller.go:423-440 | Frees the entry of the first host of that name and no other, and moves the counters, never below zero allocated; an unknown name changes nothing |
| HostInventory.ChoiceIsFirst | modules/capbm/internal/controllers/baremetalmachine_controller.go:360-377 | The search ends at the first host that fits the role, has a free entry and is not named by a live machine; it is chosen unless its list of machines failed |
| HostInventory.ReleaseKeepsExactlyWhenAllocated | modules/capbm/internal/controllers/baremetalmachine_controller.go:425-433 | A release keeps the counters right exactly when the entry it frees was Allocated |
| HostInventory.SequencesConserve | modules/capbm/internal/controllers/baremetalhostinventory_controller.go:57-88 | From a recount on, a sequence of recounts, allocations and releases keeps entries and counters in agreement throughout exactly when every release is of an Allocated entry or of no host |
| HostInventory.AllocatedNeverNegative | modules/capbm/internal/controllers/baremetalmachine_controller.go:431-433 | No sequence of operations makes AllocatedHosts negative |
| HostInventory.FirstAllocationBlocksTheRest | modules/capbm/internal/controllers/baremetalmachine_controller.go:380-395 | The first allocation from an inventory without entries leaves zero-valued entries for all other hosts, so nothing more can be allocated until a recount |
| HostAllocation.ScanRefinesChoose | modules/capbm/internal/controllers/baremetalmachine_controller.go:360-377 | Without interference the interleaved scan, whichever of its lists fail, ends at the host the search chooses or gives up where it does |
| HostAllocation.HostIsKept | modules/capbm/internal/controllers/baremetalmachine_controller.go:142-164 | In every run no step changes the host of a machine that has one with its address, and only machines marked for deletion disappear |
| HostAllocation.DeletionRemoves | modules/capbm/internal/controllers/baremetalmachine_controller.go:330-348 | A deletion removes the machine whether or not the release of its host could be written |
| HostAllocation.RecountReflectsMachines | modules/capbm/internal/controllers/baremetalhostinventory_controller.go:61-77 | Without interference a recount marks a host Allocated exactly when a live machine names it |
| HostAllocation.StepKeeps | modules/capbm/internal/controllers/baremetalmachine_controller.go:142-164 | Every step of the worker, the recount and the environment keeps the invariant behind uniqueness |
| HostAllocation.MismatchIsGivenTwice | modules/capbm/internal/controllers/baremetalmachine_controller.go:156-156 | For any host whose two names differ, a run in which two live machines get it |
| HostAllocation.UniqueExactlyWhenNamesMatch | modules/capbm/internal/controllers/baremetalmachine_controller.go:445-458 | No interleaving lets two live machines name the same host exactly when Name equals HostName for every host |
| HostAllocation.WriteReplacesWhatWasRead | modules/capbm/internal/controllers/baremetalmachine_controller.go:399-401 | A status write that goes through replaces exactly the status that was read |
| HostAllocation.StepsAreOperations | modules/capbm/internal/controllers/baremetalhostinventory_controller.go:88-90 | No update is lost: every stored status is its predecessor or one recount, allocation of a free host or release applied to it |
| HostAllocation.RunsConserve | modules/capbm/internal/controllers/baremetalmachine_controller.go:396-401 | In every interleaving whose releases are of Allocated entries all inventories keep their counters right |
| HostAllocation.DeletionDrifts | modules/capbm/internal/controllers/baremetalmachine_controller.go:330-345 | A run of the controllers over one machine, created, given a host, marked for deletion, recounted and released, that leaves more hosts available than there are |
| HostAllocation.ConservedExactlyWhenNothingIsFreed | modules/capbm/internal/controllers/baremetalmachine_controller.go:423-440 | From balanced inventories of named hosts the counters stay right in every interleaving exactly when no HostName is the Name of a host, that is when no release ever finds its host |
| SshPool.KeyIsInjective | modules/cvo/pkg/ssh/manager.go:74-74 | Two endpoints with the same pool key are the same host and port |
| SshPool.Manager.Reuse | modules/cvo/pkg/ssh/manager.go:76-86 | A hit is open, for the requested host and port, answers and was used within the timeout, and only its time of use changes; every pooled connection like that is reused; otherwise nothing changes |
| SshPool.Manager.Insert | modules/cvo/pkg/ssh/manager.go:121-123 | The new connection replaces whatever is pooled under its key and keeps the pool sound if it is open |
| SshPool.Manager.Close | modules/cvo/pkg/ssh/manager.go:129-141 | Closes the connection, drops its key and keeps the pool sound |
| SshPool.Manager.Cleanup | modules/cvo/pkg/ssh/manager.go:144-154 | Closes and drops exactly the expired connections, in any iteration order |
| SshPool.CleanupEffect | modules/cvo/pkg/ssh/manager.go:148-153 | A cleanup leaves exactly the connections that are not expired, unchanged, and closes what it drops |
| SshPool.PoolIsSound | modules/cvo/pkg/ssh/manager.go:73-154 | In every interleaving each pooled connection sits under its own key and was never closed by the manager; every hit was for the requested host and port |
| SshPool.ConnectServesItsRequest | modules/cvo/pkg/ssh/manager.go:73-126 | In every interleaving what a Connect pools and returns after dialling is a connection to the host and port its own lookup asked for |
| SshPool.DialledExactly | modules/cvo/pkg/ssh/manager.go:106-119 | A connection comes to exist exactly by a dial that succeeds |
| SshPool.EvictedExactly | modules/cvo/pkg/ssh/manager.go:121-141 | An open connection leaves the pool exactly when another one of its key is inserted or closed |
| SshPool.EvictedByEarlierStep | modules/cvo/pkg/ssh/manager.go:121-141 | The connections counted as evicted in a run are exactly those that some earlier step drove out |
| SshPool.OpenIsAccountedFor | modules/cvo/pkg/ssh/manager.go:157-161 | In every interleaving each open connection is pooled, held by a Connect about to insert it, or evicted, never two of these; the connection count plus the held plus the evicted open ones is the number of open connections |
| SshPool.StraysStayOpen | modules/cvo/pkg/ssh/manager.go:144-154 | An evicted connection stays open, whatever is cleaned up, until its holder closes it |
| DeepMerge.DeepMerge | modules/cvo/internal/addon/values.go:55-75 | The loops, in any iteration order, compute the recursive merge |
| DeepMerge.MergeValues | modules/cvo/internal/addon/values.go:32-52 | Equals the merge of the two top-level objects restricted to entries that decode |
| DeepMerge.Idempotent | modules/cvo/internal/addon/values.go:55-75 | Merging a value over itself changes nothing |
| DeepMerge.Absorbs | modules/cvo/internal/addon/values.go:55-75 | Applying an override a second time changes nothing |
| DeepMerge.PathLaw | modules/cvo/internal/addon/values.go:55-75 | At every path the merge shows what the override shows, or what the base shows where the override does not shadow it, and nothing else |
| DeepMerge.CoveredMeansNoEffect | modules/cvo/internal/addon/values.go:63-74 | A base object has no effect exactly when the override supplies everything it holds |
| DeepMerge.AssociativeExactly | modules/cvo/internal/addon/values.go:55-75 | The two ways of merging three values agree exactly when the middle one puts a non-object between two objects only where the last covers the first |
| ShellQuoting.QuotedScriptIsOneWord | modules/cvo/pkg/ssh/client.go:80-80 | The operand of bash -c reads as exactly one word, equal to the script |
| ShellQuoting.CommandRunsTheScript | modules/cvo/pkg/ssh/client.go:87-93 | Without a separate sudo password the command reads as (sudo) bash -c and the original script |
| ShellQuoting.CommandPassesThePassword | modules/cvo/pkg/ssh/client.go:84-86 | With a separate sudo password free of single quotes the command reads as the intended pipeline |
| ShellQuoting.PasswordIntactExactlyWithoutQuotes | modules/cvo/pkg/ssh/client.go:86-86 | The password operand reads as the password exactly when it holds no single quote |
| BackendSync.Provider.RegisterBackend | modules/capbm/internal/lb/keepalived.go:77-95 | Appends the backend unless one of the same name and address is present |
| BackendSync.RegisterEffect | modules/capbm/internal/lb/keepalived.go:77-95 | Afterwards the name and address are present; a second registration changes nothing; a new address for a known name is added beside the old one |
| BackendSync.Provider.UnregisterBackend | modules/capbm/internal/lb/keepalived.go:98-107 | Removes the first backend of the same name and address |
| BackendSync.UnregisterEffect | modules/capbm/internal/lb/keepalived.go:98-107 | Removing a member takes away one entry of its name; every backend of another name or another address stays |
| BackendSync.SyncBackends | modules/capbm/internal/controllers/baremetalcluster_controller.go:479-517 | Current and desired backends stay in the pool at every moment; registrations come first; the names agree afterwards exactly when no undesired name occurs twice, and the backends with their addresses exactly when, besides, every backend kept by name already was the desired one; no call is made exactly when the names agreed before |
| BackendSync.SyncTwice | modules/capbm/internal/controllers/baremetalcluster_controller.go:479-517 | On a name-unique pool one sync makes the names agree with kept backends unchanged, and a second makes no call |
| StatusText.ParseComponentStatus | modules/capbm/internal/helm/status.go:196-226 | The loop computes the parse; a parsed status has trimmed one-line fields and a non-empty status |
| StatusText.ParseIsWellFormed | modules/capbm/internal/helm/status.go:206-225 | The same about the parse as a function, for every text |
| StatusText.ParsedFields | modules/capbm/internal/helm/status.go:206-219 | Each field is what the last line for it says around its first colon and blank, trimmed, and empty when no line does |
| StatusText.ParsedExactly | modules/capbm/internal/helm/status.go:222-224 | A text is accepted exactly when the last line for the status gives a non-empty one |
| StatusText.TrimSpaceExactly | modules/capbm/internal/helm/status.go:212-213 | Trimming takes away the white space at both ends and nothing else |
| StatusText.RoundTripExactly | modules/capbm/internal/helm/status.go:116-120 | A status survives printing and parsing exactly when its status is non-empty and its fields are trimmed and free of newlines |

## Left out

- Remote effects: bash scripts, installers, node upgrade scripts, Jobs, manifests, OCI pulls and HTTP checks are results of oracles, nothing more.
- Generated deepcopy code, scheme registration, API types, `main.go` files, metrics, logging, events, conditions and timestamps: no decision depends on them.
- The upgrade graph inside the reconcile: the ClusterVersion model takes its result as an oracle; the executor is modelled on its own.
- Other writers of addon versions (the ClusterAddon controller): the fixed point speaks of stored addons that only this reconcile has written in between.
- SelfUpgrade: a change of the spec during a run and a lost status patch are not modelled; runs assume stack for one nested visit per component.
- Post-upgrade hooks of a SelfUpgrade: their failures are only logged. Deleting a SelfUpgrade only drops its finalizer.
- Host inventory: a change of `Spec.Hosts` during a run, stale cache reads, several machine workers at once and host names written by users are not modelled; an empty list of host entries and a missing one are the same.
- Credentials of pooled connections: a hit ignores them, and so does the model; data races on `LastUsed` under the read lock are not modelled, each locked section is one step.
- Key and version strings are sequences of characters, not bytes; JSON numbers are reals and decoding is an oracle per entry.
- F5, HAProxy and MetalLB providers, and the Keepalived provider with a Kubernetes client: device and API traffic around the same list.
- `ComputeAvailableUpdates`, `DiffComponents`, retry loops, preflight checks, encryption, manifest templates: easy members next to the core.
