# rocker-compose core, modelled in Dafny

rocker-compose brings the Docker containers of one namespace to the state a compose file describes.
This project models three parts of it:

- **The reconciliation engine**, `NewDiff().Diff(namespace, desired, actual)` (module `Reconcile`,
  with graph helpers in `Graph`). It compares the desired containers with the actual ones and
  returns a plan of actions:
  - Remove the actual containers of the namespace that are no longer wanted.
  - Ensure the containers in other namespaces that a desired container takes volumes from.
  - Create, in dependencies-first order, each desired container that is missing or whose
    configuration drifted. A drifted container is removed just before it is recreated.
  - If the volumes-from relation among the managed containers has a cycle, return an error
    instead of a plan.
- **The action runner**, `NewDockerClientRunner(client).Run(actions)` (module `Runner`). It sends the
  actions to a Docker client one after another. When a call fails, every later action that depends on
  it is skipped, directly or transitively. Unrelated actions still run. The run returns an error when
  any call failed.
  - The client (`Runner.Client`) is a class. It has the set of actions it will fail, like the scripted
    answers of the tests' mock, and a log of the calls it received.
  - `Runner.DockerClientRunner.Run` is an imperative loop. It is proved against the specification
    function `Runner.Replay`, and the cascade properties are proved about `Replay`.
- **Two value routines of the configuration type** (module `Config`):
  - `ConfigMemory.Int64` parses a memory size such as `100k`. It is a loop, proved against
    `Config.MemoryBytes`.
  - `ConfigContainer.IsEqualTo` compares two configurations field by field. An absent list or map
    equals an empty one, and pointer scalars compare by the value they point to.

Module `Types` holds the shared data model: `ContainerName`, `ContainerState`, the cut-down
`ConfigContainer` and `Action`. Module `Scenarios` restates the repository's diff tests as lemmas that
combine `Diff` and the runner.

The model is built from the behaviour that `src/compose/diff_test.go` and
`src/compose/config_test.go` fix. Each model member cites the test lines whose expectations it
states. Where the tests leave a behaviour open, the choice made is listed under "Left out".

## Model

| member | source | states |
|---|---|---|
| Config.Int64 | src/compose/config_test.go:26-35 | the parsing loop returns exactly the memory size the specification function assigns to the string |
| Config.MemoryOfDigits | src/compose/config_test.go:28-29 | a string of digits only is read as a plain byte count |
| Config.MemoryWithSuffix | src/compose/config_test.go:30-34 | a digit run followed by any other character is the run's value times that character's factor: 1 for `b` and for unknown characters, 1024, 1024² and 1024³ for `k`, `m` and `g` |
| Config.MemoryNonNegative | src/compose/config_test.go:26-35 | every size except `-1` (unlimited) is non-negative |
| Config.MemoryPlainExamples | src/compose/config_test.go:27-30 | "-1" is -1, "0" is 0, "100" is 100, and "100x" is 100 |
| Config.MemorySuffixExamples | src/compose/config_test.go:31-34 | "100b", "100k", "100m" and "100g" are 100, 102400, 104857600 and 107374182400 |
| Config.HundredWithSuffix | src/compose/config_test.go:30-34 | "100" followed by a non-digit is 100 times that character's factor |
| Config.FirstDifference | src/compose/config_test.go:70-197 | reports no attribute exactly when all attributes compare equal; otherwise it names an attribute that differs |
| Config.FirstDifferenceIsEarliest | src/compose/config_test.go:70-197 | the reported attribute differs, and every attribute visited before it compares equal |
| Config.SliceEqualIsEquality | src/compose/config_test.go:119-161 | the element-wise list comparison holds exactly when the lists are equal |
| Config.MapEqualIsEquality | src/compose/config_test.go:163-197 | the size-and-entries map comparison holds exactly when the maps are equal |
| Config.IsEqualToIsCanonicalEquality | src/compose/config_test.go:70-197 | two configurations compare equal exactly when they are equal after reading absent lists and maps as empty ones |
| Config.IsEqualToReflexive | src/compose/config_test.go:70-75 | every configuration equals itself, the empty one included |
| Config.IsEqualToSymmetric | src/compose/config_test.go:119-197 | the comparison gives the same answer in either argument order |
| Config.IsEqualToScalarExamples | src/compose/config_test.go:70-94 | empty configurations are equal; the same image is equal; a different image, or one set on one side only, is unequal |
| Config.IsEqualToPointerExamples | src/compose/config_test.go:96-117 | the same pointed-to CPU shares are equal; a different value, or a value on one side only, is unequal |
| Config.IsEqualToSliceExamples | src/compose/config_test.go:119-161 | for DNS lists: absent equals empty; a different length, a different element, or absence against a non-empty list is unequal, in either order |
| Config.IsEqualToMapExamples | src/compose/config_test.go:163-197 | for label maps: absent equals empty; a different key, an extra entry, or empty against non-empty is unequal, in either order |
| Graph.Index | src/compose/diff_test.go:55-69 | the by-name index of a container list has exactly the list's names as keys; each key maps to a container of that name, the last one listed |
| Graph.IndexOfUnique | src/compose/diff_test.go:55-69 | when names are unique, the index finds every container of the list under its own name |
| Graph.Dedup | src/compose/diff_test.go:18-53 | keeps one container per name, namely the one the index holds |
| Graph.TopoOrder | src/compose/diff_test.go:18-36 | on success, returns a permutation of the containers in which every container comes after those it takes volumes from; on failure, returns a stuck subset in which no container is ready |
| Graph.StuckHasCycle | src/compose/diff_test.go:129-138 | a non-empty stuck set of containers contains a volumes-from cycle |
| Graph.CycleBlocksOrder | src/compose/diff_test.go:129-138 | if there is a volumes-from cycle, no dependencies-first order exists |
| Graph.TopoOrderFailsIffCycle | src/compose/diff_test.go:129-138 | ordering fails exactly when the containers contain a volumes-from cycle |
| Reconcile.Managed | src/compose/diff_test.go:18-53 | the managed containers have unique names and cover every name the namespace's desired containers use; they are exactly the namespace's desired containers that are the last listed under their name |
| Reconcile.ManagedOfUnique | src/compose/diff_test.go:38-53 | when desired names are unique, the managed containers are exactly the desired containers of the namespace |
| Reconcile.Obsolete | src/compose/diff_test.go:55-69 | removes exactly those actual containers of the namespace whose name is no longer managed |
| Reconcile.DiffEmpty | src/compose/diff_test.go:10-16 | with nothing desired and no actual containers, the plan is empty and there is no error |
| Reconcile.DiffFailsIffCycle | src/compose/diff_test.go:129-138 | Diff fails exactly when the managed containers have a volumes-from cycle; the error names desired containers of the namespace, and a volumes-from cycle runs through the containers it names |
| Reconcile.DiffCreates | src/compose/diff_test.go:18-69 | a container is created exactly when it is managed and either has no namesake among the actual containers or its actual namesake's configuration is not equal to it |
| Reconcile.DiffRemoves | src/compose/diff_test.go:55-69 | an actual container is removed exactly when it is the one the actual list holds under its name, it is in the namespace, and it is no longer desired or its configuration drifted |
| Reconcile.DiffEnsures | src/compose/diff_test.go:83-99 | an Ensure is issued exactly for each foreign-namespace volumes-from dependency, on the actual container of that name (a placeholder when there is none) |
| Reconcile.DiffScope | src/compose/diff_test.go:71-99 | Creates and Removes act only inside the reconciled namespace, and Ensures only outside it |
| Reconcile.DiffOneActionPerName | src/compose/diff_test.go:140-157 | two actions share a name only as a Remove immediately followed by a Create |
| Reconcile.DiffOrdered | src/compose/diff_test.go:18-36 | every action that a Create takes volumes from, or that removes its old version, comes before it |
| Runner.Client.CreateContainer | src/compose/diff_test.go:236-239 | logs the call; fails exactly when the client is scripted to fail that create |
| Runner.Client.RemoveContainer | src/compose/diff_test.go:231-234 | logs the call; fails exactly when the client is scripted to fail that remove |
| Runner.Client.EnsureContainer | src/compose/diff_test.go:241-244 | logs the call; fails exactly when the client is scripted to fail that ensure |
| Runner.DockerClientRunner.Run | src/compose/diff_test.go:101-127 | the client receives exactly the calls of the replayed plan, in order; the result is an error exactly when some call failed, and it lists the failed calls |
| Runner.DockerClientRunner.Invoke | src/compose/diff_test.go:226-244 | sends the action to the matching client method; fails exactly when the client fails it |
| Runner.ReplayPrefix | src/compose/diff_test.go:101-127 | the outcome of an action does not depend on the actions after it |
| Runner.OutcomeAt | src/compose/diff_test.go:116-127 | an action is skipped exactly when an earlier action it depends on did not succeed; otherwise it fails exactly when the client fails it |
| Runner.OutcomeIsCascade | src/compose/diff_test.go:101-127 | an action is skipped exactly when a failure reaches it through a chain of dependencies |
| Runner.FailureUpstream | src/compose/diff_test.go:116-127 | every action that did not succeed is at or after an action the client failed |
| Runner.RunErrsIffSomeActionFails | src/compose/diff_test.go:101-127 | the run reports an error exactly when the plan holds an action the client fails |
| Runner.InvokedAfterPrerequisites | src/compose/diff_test.go:116-127 | an action that is not skipped runs only after every earlier action it depends on has succeeded |
| Runner.RunWithoutFailures | src/compose/diff_test.go:18-99 | with no failing call, the client receives the whole plan in order and the run succeeds |
| Runner.SkippedNotCalled | src/compose/diff_test.go:116-127 | a skipped action is never sent to the client |
| Runner.CalledIffUntainted | src/compose/diff_test.go:101-127 | an action is sent to the client exactly when no failure reaches it through its dependencies |
| Runner.IndependentAllCalled | src/compose/diff_test.go:101-114 | when no action depends on an earlier one, every action is sent to the client whatever fails |
| Runner.ReplayFailed | src/compose/diff_test.go:116-127 | the failed-name set is exactly the names of the actions that were skipped or failed |
| Runner.ReplayCalls | src/compose/diff_test.go:101-127 | the calls are the actions that were not skipped, and the errors are the actions that failed, both in plan order |
| Scenarios.FreshPlan | src/compose/diff_test.go:18-53 | against an empty runtime the plan removes nothing and creates every managed container |
| Scenarios.CreateAllOnEmptyRuntime | src/compose/diff_test.go:18-53 | with no actual containers and no failures, the client receives one CreateContainer per desired container and no other call, each after its dependencies, and the run succeeds |
| Scenarios.NoDependenciesNoCycle | src/compose/diff_test.go:38-53 | without volumes-from edges, Diff always yields a plan |
| Scenarios.FreshCreatesOnly | src/compose/diff_test.go:18-53 | against an empty runtime, a plan for internal containers holds only Creates |
| Scenarios.IndependentCreatesAllRun | src/compose/diff_test.go:101-114 | for independent containers and an empty runtime, every create is sent whichever calls fail, and the run errs exactly when one of them fails |
| Scenarios.FailedDependencyBlocksDependant | src/compose/diff_test.go:116-127 | when a call the dependant waits for fails, that call is earlier in the plan, the dependant is never sent, and the run errs |
| Scenarios.PlanCalledIffUntainted | src/compose/diff_test.go:101-127 | an action of a Diff plan is sent exactly when no failure reaches it through its dependencies |
| Scenarios.DriftRecreates | src/compose/diff_test.go:140-157 | a managed container whose actual namesake has a different configuration is removed and immediately recreated from the desired value |
| Scenarios.ForeignUntouched | src/compose/diff_test.go:71-81 | a container of another namespace that no managed container depends on gets no action |
| Scenarios.UnchangedGetsNoAction | src/compose/diff_test.go:197-213 | a managed container whose actual namesake has an equal configuration gets no action at all, whatever the plan does for the other containers |
| Scenarios.UnchangedRuntimeOnlyEnsures | src/compose/diff_test.go:10-16 | when the runtime already holds exactly the desired containers, the plan holds only Ensures; the lemma assumes the containers have unique names |
| Scenarios.RingOfThreeFails | src/compose/diff_test.go:129-138 | three containers of one namespace with volumes-from edges 1→2→3→1 make Diff fail, whatever the actual containers are |
| Scenarios.RingOfThreeExample | src/compose/diff_test.go:129-138 | the test's ring, with 1 and 3 already present unchanged, makes Diff fail |

## Left out

- YAML loading, `extends` inheritance and label merging (`ReadConfigFile`, `Config.GetContainers`): these are file I/O and a YAML parser, and they are not part of this model.
- `GetApiConfig` / `GetApiHostConfig` and the JSON fixtures they are compared against: this is file I/O and `encoding/json`.
- `NewContainerConfigFromDocker` and the rest of `src/compose/config_convert_test.go`: these depend on the foreign go-dockerclient types.
- The client's `GetContainers`, `PullImage` and `PullAll`: the runner never calls them. The testify mock machinery is replaced by the `Client` class, with a scripted failure set and a call log.
- Parallel execution in the runner: the model runs actions one at a time in plan order, and a skipped action is the concurrency-free reading of "a dependant of a failure is never invoked".
- Config.FirstDifference: the comparator's mutable `LastCompareField` record is returned as a value, the name of the first differing attribute, instead of being stored.
- ConfigContainer: only the attributes the tests compare are modelled (image, cpuset, CPU shares, DNS, labels, volumes-from). The other attributes of the Go struct are left out. They compare by the same four rules: scalar, pointer, list and map.
- Config.Int64: int64 overflow of very long digit runs is not modelled, because sizes are unbounded integers. A string with no leading digit reads as 0.
- Reconcile.DiffCreates: the container's running state is not compared, only its configuration, because every test container is running.
- Reconcile.DiffEnsures: an external dependency that is absent from the actual containers is ensured on a placeholder that holds only its name and an empty configuration; one that is listed, running or not, is ensured on its actual value. The tests never exercise the absent case.
- Reconcile.Managed: when several desired containers share a name, the last one listed wins, as with assignment into a Go map. The same holds for the actual containers indexed by name.
- Reconcile.DiffFailsIffCycle: the cycle check covers every managed container, not only those queued for creation. TestDiffForCycles expects the error although containers 1 and 3 already run unchanged.
- Runner.DockerClientRunner.Run: the Go `error` is modelled as `Option<RunError>`, and `RunError` lists the failed actions. A client error is a boolean, because its message is not observed.
- Reconcile.DiffRemoves: a container of the namespace that a desired container takes volumes from, but that is itself not desired, is still removed as obsolete. Its Remove comes before the dependant's Create, and if that Remove fails the Create is skipped. No test decides this case.
- Reconcile.DiffFailsIffCycle: a container that names itself in its own volumes-from list forms a one-container cycle, so Diff fails. No test decides this case.
- The exact order of independent actions within the plan is fixed by the model (Removes, then Ensures, then Creates in dependency order) but the tests do not depend on it, so no lemma promises more than dependency order.
