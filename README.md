# goava/slice bootstrap core, modelled in Dafny

The core of the `slice` application bootstrap modelled here has five parts:

- **Bundle dependency ordering** (`sort.go`). `sortBundles` runs a depth-first topological sort keyed by bundle name. Each name carries a mark: temporary while its dependencies are being visited, permanent once it is in the result. Meeting a temporary mark means a cycle, and the sort fails.
- **Start and shutdown hook sequencing** (`lifecycle.go`).
  - `beforeStart` walks the bundles in order and checks the context before each one. It invokes every `BeforeStart` hook and collects failures without stopping. It records the paired `BeforeShutdown` hooks.
  - `beforeShutdown` invokes the recorded hooks last to first and aggregates their errors. `errShutdown.Error` joins the messages with `"; "`.
- **Environment parsing** (`env.go`). `parseEnv` maps a string, case-insensitively, onto `Prod`, `Dev` or `Test`.
- **The mutable context** (`context.go`). It is a key/value store that answers from its parent first. `Set` updates the values map in place. `Join` builds a new context over the same map.
- **The bundle builder** (`bundle/bundle.go`). `New` applies functional options, in order, to an empty bundle.

Files:

| file | module | models |
|---|---|---|
| `bundle_model.dfy` | `BundleModel` | the bundle record, hooks, and opaque container values |
| `sort.dfy` | `Sort` | `sortBundles` and `visit` |
| `lifecycle.dfy` | `Lifecycle` | `beforeStart`, `beforeShutdown`, `hook` and `errShutdown` |
| `env.dfy` | `Environment` | `Env`, `parseEnv`, `Env.String` |
| `context.dfy` | `MutableContext` | `Context` and its values map |
| `builder.dfy` | `Builder` | `New` and the `With*` options |

Loops and in-place updates in the source are imperative Dafny in the model:

- `Sort.Sorter.Visit` and `Sort.SortBundles` thread a marks map and a sorted list through recursion and a loop.
- `Lifecycle.BeforeStart` and `Lifecycle.BeforeShutdown` are loops. The inner loop of `beforeStart` over one bundle's hooks is the method `Lifecycle.StartHooks`.
- `MutableContext.Store` is the heap object that `Context` values share.
- `Builder.BundleBox` is the pointer `New` fills in.

Each of these is proved equal to a specification function: `VisitSpec`, `SortSpec`, `StartSpec`, `ShutdownSpec`, `Lookup` or `Build`. The properties are then proved about those functions as lemmas.

Inputs the model takes instead of doing I/O:

- **Container calls.** The dependency-injection container is outside the model. Invoking a hook gives `invoke(invocation)`: `None` for success, `Some(error)` for failure.
- **The start context.** `ctxErr(i)` is what `ctx.Err()` reports before bundle `i`.
- **The shutdown context.** `ctxDone` says whether the shutdown context finished before the hooks did.

Behaviour of the code worth knowing:

- **Failed start hooks.** A `BeforeShutdown` is recorded whenever its `BeforeStart` is non-nil, whether or not that call succeeds (lifecycle.go:35-45). A `BeforeShutdown` without a `BeforeStart` is never recorded.
- **How a failed start pass ends.** There are two ways:
  - Some hooks failed and the context stayed fine through the last bundle. Then no records are returned (lifecycle.go:48-50), so nothing is shut down.
  - The context is done before some bundle. Then the records of the earlier bundles are returned (lifecycle.go:31-33), including those of hooks whose `BeforeStart` failed. The caller shuts those down (slice.go:146-153). Start errors collected before that bundle are dropped. `Lifecycle.ContextDoneAt` states this case.
- **Cycle errors.** A cycle is reported only as `false`, with no error naming the bundle (sort.go:25-28). The caller reports it as a cyclic bundle (slice.go:100-102).
- **Cycles are checked on names.** A failed sort always means some bundle has a bundle of its own name below it (`Sort.SortFailsOnCycle`). The reverse does not hold: a name cycle does not fail the sort once another bundle of a name on the cycle has been sorted, because the first bundle under a name wins (`Sort.NameCycleHiddenByEarlierName`). When bundles that share a name are equal, the sort always succeeds (`Sort.ConsistentSorts`).
- **Empty names.** An empty bundle name is not rejected.

## Model

| member | source | states |
|---|---|---|
| `Sort.VisitSpec` | sort.go:21-43 | whatever a visit does, the sorted list it leaves starts with the one it was given (entries are only appended) |
| `Sort.VisitDepsSpec` | sort.go:35-39 | the loop over the first k dependencies only appends to the sorted list |
| `Sort.Sorter.Visit` | sort.go:21-43 | visiting b from the current marks and list gives exactly the outcome, marks and list of `VisitSpec` |
| `Sort.SortBundles` | sort.go:9-18 | the result equals `SortSpec`; the sorted names are distinct; every dependency comes before its dependent; everything sorted lies in the dependency tree of some input; on success every input's name is sorted |
| `Sort.VisitMarks` | sort.go:22-41 | a visit never changes a temporary or permanent mark; a successful visit leaves b permanent and creates no new temporary mark; a leaf bundle is never marked temporary |
| `Sort.VisitDepsMarks` | sort.go:34-39 | the dependency loop keeps marks, and when it succeeds every visited dependency is permanent |
| `Sort.VisitDepsFailed` | sort.go:35-38 | once a dependency's visit has failed, the loop's result does not change |
| `Sort.AppendGood` | sort.go:30-31 | appending a bundle with a new name whose dependencies are all sorted keeps the invariant (distinct names, permanent exactly for sorted names, dependencies first) |
| `Sort.VisitGood` | sort.go:21-43 | every visit keeps that invariant |
| `Sort.VisitDepsGood` | sort.go:35-39 | the dependency loop keeps that invariant |
| `Sort.VisitReach` | sort.go:21-43 | everything a visit of b appends lies in b's dependency tree |
| `Sort.VisitDepsReach` | sort.go:35-39 | everything the dependency loop appends lies in b's dependency tree |
| `Sort.SortFacts` | sort.go:9-18 | the sort result is duplicate-free and dependency-ordered, it holds only bundles reachable from the inputs, and on success every input's name is sorted and no name is left temporary |
| `Sort.SortGood` | sort.go:9-18 | the sort keeps the invariant from empty marks on, and a successful sort leaves no name temporary |
| `Sort.ReachableFromInit` | sort.go:12 | what is reachable from the earlier inputs is reachable from all of them |
| `Sort.SortReach` | sort.go:9-18 | everything sorted lies in the dependency tree of some input |
| `Sort.SortListsInputs` | sort.go:12-17 | after a successful sort every input's name is sorted |
| `Sort.SortStops` | sort.go:13-15 | after a failing visit, later inputs change nothing |
| `Sort.FirstNameWins` | sort.go:22-24 | an input whose name is already sorted is skipped: the first bundle declared under a name wins |
| `Sort.SelfDependencyFails` | sort.go:25-28 | a bundle that depends on its own name makes the sort fail (a cycle) |
| `Sort.DepsFirstClosed` | sort.go:35-41 | in a dependency-ordered list where names identify bundles, everything reachable from a sorted bundle is sorted |
| `Sort.SortComplete` | sort.go:9-43 | when names identify bundles, the sort succeeds, and a name is sorted exactly when some reachable bundle has it, each once |
| `Sort.ConsistentListsReachable` | sort.go:9-43 | when names identify bundles, every reachable bundle's name is sorted after a successful sort |
| `Sort.DepsHeight` | sort.go:34-39 | every one of the first k dependencies is lower than the result |
| `Sort.ReachableHeight` | sort.go:34-39 | a bundle in b's tree is no higher than b |
| `Sort.BelowIsProper` | sort.go:34-39 | a bundle strictly below b is in b's tree and is not b |
| `Sort.ChildBelow` | sort.go:34-39 | a dependency of a bundle in a's tree lies strictly below a |
| `Sort.VisitFailsOnCycle` | sort.go:21-43 | when every temporary name belongs to a bundle above b, a failed visit of b means a bundle in the inputs' trees has one of its own name below it |
| `Sort.VisitDepsFailOnCycle` | sort.go:34-39 | the same for the dependency loop, with b on the path |
| `Sort.SortFailsOnCycle` | sort.go:9-43 | a failed sort means some reachable bundle has a different bundle of its own name in its tree |
| `Sort.ReachableTrans` | sort.go:34-39 | being in a dependency tree is transitive |
| `Sort.ConsistentSorts` | sort.go:9-43 | when reachable bundles with equal names are equal, the sort succeeds |
| `Sort.NameCycleHiddenByEarlierName` | sort.go:22-24 | a cycle B, A, B fails on its own, but sorts after an unrelated bundle named A, although the cycle is still there |
| `Sort.CycleFailsAlone` | sort.go:25-28 | the cycle B, A, B alone fails the sort |
| `Sort.CycleAfterLeafSorts` | sort.go:22-24 | after a bundle named A is sorted, the same cycle sorts |
| `Sort.CycleBelowB` | sort.go:34-39 | that input does hold a name cycle |
| `Sort.Sorter.constructor` | sort.go:10-11 | a sorter starts with no marks and an empty sorted list |
| `Sort.ThirdSortsToFour` | sort_test.go:20-28 | the bundle with two dependencies sorts, alone, to first, second, fourth, third: four bundles with the shared one once |
| `Sort.SharedDependencySortsToThree` | sort_test.go:30-37 | first, second, fourth sort to themselves: three bundles, the shared dependency once |
| `Sort.FirstTwoSort` | sort_test.go:31 | the first two test bundles sort to themselves with both names permanent |
| `Sort.ThreeInputsSortToFour` | sort_test.go:40 | the first three of the repeated inputs already sort to first, second, fourth, third |
| `Sort.RepeatedInputsSortToFour` | sort_test.go:39-46 | the repeated ten-input list sorts to the same four bundles, each once |
| `Lifecycle.FirstDone` | lifecycle.go:30-33 | the index of the first bundle before which the context reports an error, with the context fine before it |
| `Lifecycle.BeforeStart` | lifecycle.go:28-52 | the records, error and start calls equal `StartSpec`: context error at the first done bundle, else aggregated start failures with no records, else all records |
| `Lifecycle.StartHooks` | lifecycle.go:34-46 | the inner loop over one bundle's hooks gives exactly that bundle's calls, records and failures |
| `Lifecycle.HookStep` | lifecycle.go:34-46 | one more hook adds just its own call, record and failure |
| `Lifecycle.BundleStep` | lifecycle.go:30-47 | one more bundle adds just its hooks' calls, records and failures |
| `Lifecycle.StartSpecDone` | lifecycle.go:31-33 | with the context first done before bundle i, the pass returns the earlier records and calls and an error naming bundle i |
| `Lifecycle.StartSpecFine` | lifecycle.go:48-51 | with the context fine throughout, the pass returns failures and no records, or all records and no error |
| `Lifecycle.FirstDoneAt` | lifecycle.go:30-33 | the first done index is the unique index with the context fine before it and done at it |
| `Lifecycle.StartCallsAppend` | lifecycle.go:30-47 | the start calls of two bundle lists are those of the first followed by those of the second |
| `Lifecycle.StartRecordsAppend` | lifecycle.go:39-45 | likewise for the shutdown records |
| `Lifecycle.FailingCallsAppend` | lifecycle.go:36-38 | the failures of two call lists are those of the first followed by those of the second |
| `Lifecycle.HookFailuresAreFailingCalls` | lifecycle.go:34-38 | the start errors of one bundle are exactly its failing start calls, in order |
| `Lifecycle.StartFailuresAreFailingCalls` | lifecycle.go:30-47 | the start errors of the pass are exactly its failing start calls, in order |
| `Lifecycle.ContextDoneAt` | lifecycle.go:30-33 | context done at bundle i: the records of the earlier bundles, an error naming bundle i even if hooks failed, and no call of bundle i or later |
| `Lifecycle.StartCallsSplit` | lifecycle.go:30-47 | the start calls split at any bundle index |
| `Lifecycle.ContextFine` | lifecycle.go:28-52 | with the context fine, every start call is made; the pass fails exactly when some call fails, and then returns no records |
| `Lifecycle.NoFailingCalls` | lifecycle.go:36-38 | a call list has no failures exactly when every call succeeds |
| `Lifecycle.CancelledBeforeFirstBundle` | lifecycle_test.go:127-150 | cancelled before the first bundle: nothing recorded or invoked, and the message is "boot first-bundle bundle failed: context canceled" |
| `Lifecycle.ReverseAt` | lifecycle.go:93 | position k of the reversal holds the element at n-1-k |
| `Lifecycle.BeforeShutdown` | lifecycle.go:88-111 | the calls are the records last to first (position k is record n-1-k), and the error equals `ShutdownSpec`: the context error alone, else the hook errors in call order, else none |
| `Lifecycle.ShutdownCallsAt` | lifecycle.go:93-99 | the shutdown calls of a list are its hooks, position by position |
| `Lifecycle.ShutdownFailsIffSomeHookFails` | lifecycle.go:105-109 | with the context fine, shutdown fails exactly when some recorded hook fails |
| `Lifecycle.NoShutdownErrors` | lifecycle.go:96-98 | a record list yields no shutdown errors exactly when every hook succeeds |
| `Lifecycle.StartOrderShutdownReversed` | lifecycle.go:28-52 | two bundles X, Y with one hook pair each: start calls X then Y, and shutdown calls Y then X |
| `Lifecycle.OneHookTrace` | lifecycle.go:34-46 | one complete, succeeding hook gives one call and one record |
| `Lifecycle.TwoBundlesTrace` | lifecycle.go:30-47 | two such bundles give their calls and records in bundle order, with no failure |
| `Lifecycle.TwoBundles` | lifecycle.go:30-47 | two bundles contribute their hooks' calls, records and failures, first bundle first |
| `Lifecycle.OneBundle` | lifecycle.go:30-47 | a single bundle contributes exactly its hooks' calls, records and failures |
| `Lifecycle.ReverseTwoRecords` | lifecycle.go:93-99 | two records are shut down in the opposite order |
| `Lifecycle.ThreeFailingShutdownHooks` | lifecycle_test.go:242-269 | three failing hooks give one error listing third, second, first, each in the "shutdown <name> failed: <cause>" form joined by "; " |
| `Lifecycle.ThreeErrorsMessage` | lifecycle.go:104-107 | three shutdown errors give "shutdown failed: " followed by their messages joined by "; " |
| `Lifecycle.ReverseThree` | lifecycle.go:93 | three records reversed |
| `Lifecycle.ThreeErrors` | lifecycle.go:96-98 | three failing records give three errors in order |
| `Lifecycle.JoinThree` | lifecycle.go:125 | three parts joined with a separator between each pair |
| `Lifecycle.DeadlineBeforeShutdownHooks` | lifecycle_test.go:272-300 | a context that expires first gives "shutdown failed: context deadline exceeded" whatever the hooks return |
| `Lifecycle.BootMessage` | lifecycle.go:32 | the text starts with "boot ", the bundle name can be read back at a fixed position after it, and the text ends with the cause's message |
| `Lifecycle.ShutdownErrorMessage` | lifecycle.go:97 | the text starts with "shutdown ", the bundle name can be read back after it, and the text ends with the cause's message |
| `Lifecycle.ShutdownMessages` | lifecycle.go:121-124 | one message per error, in order |
| `Lifecycle.ErrShutdownMessage` | lifecycle.go:120-126 | no errors give "", one error gives its own message; otherwise the first error's message starts the text and the last one's ends it |
| `Lifecycle.JoinEnds` | lifecycle.go:125 | the first part starts a join and the last part ends it |
| `Lifecycle.ShutdownFailureMessage` | lifecycle.go:102-110 | the text is "shutdown failed: " followed by the context's error or by the joined hook errors |
| `Lifecycle.Find` | lifecycle.go:125 | the first position at or after `from` where the separator occurs, with none before it |
| `Lifecycle.JoinFront` | lifecycle.go:125 | a join of two or more parts is the first part, the separator, and the join of the rest |
| `Lifecycle.SplitJoin` | lifecycle.go:125 | splitting a join on its separator gives the parts back, when no part contains the separator |
| `Lifecycle.NoSemicolonSpace` | lifecycle.go:125 | a part without "; " cannot be mistaken for a separator next to one |
| `Lifecycle.ErrShutdownMessageSplits` | lifecycle.go:120-126 | `errShutdown.Error` splits back into the individual messages, in order, when none contains "; " |
| `Environment.Env.String` | env.go:34-36 | the result wraps back into the same Env |
| `Environment.LowerChar` | env.go:18 | no upper-case letter is left, and other characters are unchanged |
| `Environment.Lower` | env.go:18 | same length, lower-cased position by position |
| `Environment.LowerIdempotent` | env.go:18 | lower-casing twice is lower-casing once |
| `Environment.LowerOfLower` | env.go:18 | a string without upper-case letters is unchanged |
| `Environment.EqualFoldLower` | env.go:18 | equal up to case exactly when the lower-cased forms are equal |
| `Environment.ParseEnv` | env.go:17-26 | the result is always one of Prod, Dev or Test |
| `Environment.ParseEnvCaseInsensitive` | env.go:18 | `ParseEnv(s) == ParseEnv(Lower(s))` |
| `Environment.ParseEnvEqualFold` | env.go:18 | inputs equal up to case parse alike |
| `Environment.LowerNames` | env.go:19-21 | the five names are already lower case |
| `Environment.ParseEnvDev` | env.go:19-20 | Dev exactly for "dev", "develop" or "development", in any case |
| `Environment.ParseEnvTest` | env.go:21-22 | Test exactly for "test" or "testing", in any case |
| `Environment.ParseEnvProd` | env.go:23-24 | Prod exactly for every other string |
| `Environment.ParseEnvExamples` | slice.go:79-80 | "" (ENV unset) and other names give Prod; "DEV", "Development" and "TeSTinG" give Dev, Dev and Test |
| `Environment.ParseEnvString` | env.go:10-14 | each constant's string parses back to the constant |
| `Environment.ParseEnvIdempotent` | env.go:10-36 | `ParseEnv(ParseEnv(s).String()) == ParseEnv(s)` |
| `MutableContext.ParentValue` | context.go:50-51 | the parent answers exactly when there is one with a value for the key |
| `MutableContext.LocalValue` | context.go:57 | a non-nil local answer is the map's entry |
| `MutableContext.Context.Value` | context.go:49-60 | a parent with a value for the key answers; otherwise the local entry, or nil when there is none |
| `MutableContext.Lookup` | context.go:49-60 | Value: the parent's non-nil value wins, else the local entry; no value appears from elsewhere |
| `MutableContext.LookupAfterSet` | context.go:63-67 | after storing v under k, k looks up to v unless the parent answers for k, and then to the parent's value |
| `MutableContext.LookupOtherKey` | context.go:65 | storing under k leaves every other key's lookup unchanged |
| `MutableContext.LookupEmpty` | context.go:17-22 | with an empty local map only the parent answers |
| `MutableContext.Store.constructor` | context.go:20 | a new values map is empty |
| `MutableContext.Context.constructor` | context.go:17-22 | NewContext: the given parent and a fresh, empty values map |
| `MutableContext.Context.Sharing` | context.go:71-74 | a context over a given parent and an existing values map |
| `MutableContext.Context.Set` | context.go:63-67 | the shared map gains entry key := value and nothing else; the key then reads back the value unless the parent answers for it |
| `MutableContext.Context.Join` | context.go:70-75 | a fresh context with parent p over the same values map, delegating Err, Done and Deadline to p |
| `MutableContext.Context.Err` | context.go:41-46 | the parent's error; nil without a parent |
| `MutableContext.Context.Done` | context.go:33-38 | the parent's done channel; nil without a parent |
| `MutableContext.Context.Deadline` | context.go:25-30 | the parent's deadline; the zero time and false without a parent |
| `MutableContext.Background` | context_test.go:13 | a background context: no values, error, channel or deadline |
| `MutableContext.Orphan` | context.go:25-60 | a context without a parent reports nil error, nil channel and no deadline, and reads back its own values |
| `MutableContext.JoinShares` | context_test.go:12-19 | a value set before Join is seen through the joined context beside the parent's values; one set through the joined context is seen through the original; the parent's value shadows a local one |
| `Builder.ApplyOne` | bundle/bundle.go:22-58 | WithName overwrites the name; every other option appends its arguments to its own list; all other fields stay |
| `Builder.BundleBox.constructor` | bundle/bundle.go:11 | the new bundle is the zero value |
| `Builder.BundleBox.Apply` | bundle/bundle.go:56-58 | applying an option in place turns the bundle into `ApplyOne` of it |
| `Builder.New` | bundle/bundle.go:10-16 | the result is `Build(options)`: the name of the last WithName (or ""), and each list the concatenated arguments of its own options, in argument order |
| `Builder.CollectAppend` | bundle/bundle.go:28-52 | the collected arguments of two option lists are those of the first followed by those of the second |
| `Builder.LastNameAppend` | bundle/bundle.go:22-26 | one more option changes the last name only if it is a WithName |
| `Builder.BuildFields` | bundle/bundle.go:10-52 | what New builds has the last WithName's name and, in each list, exactly its options' arguments in order |
| `Builder.LastNameIsLast` | bundle/bundle.go:22-26 | the built name is that of a WithName with none after it |
| `Builder.NoNameIsEmpty` | bundle/bundle.go:10-16 | without WithName the name is "" |
| `Builder.ApplyAllAppend` | bundle/bundle.go:12-14 | applying a + b is applying a, then b |
| `Builder.LaterNameWins` | bundle/bundle.go:22-26 | a later WithName overrides an earlier one |
| `Builder.OtherOptionsKeepName` | bundle/bundle.go:28-52 | options other than WithName leave the name as it was |
| `Builder.NewExamples` | bundle/bundle.go:10-16 | New() is the empty bundle; a mixed option list gives the last name and both hook lists concatenated |

## Left out

- `dispatch` (lifecycle.go:55-85) is not modelled. It runs dispatchers concurrently under a run group with a shared `sync.Once` cancel.
- `createContainer` (lifecycle.go:16-23) and every dependency-injection container call are not modelled.
  - Container calls belong to a reflective library outside this project.
  - A hook invocation's result is the input `invoke`. This makes the result a fixed function of the invocation, so two calls of the same invocation have the same outcome.
- The goroutine and `select` race in `beforeShutdown` (lifecycle.go:89-104) are not modelled.
  - Only its two outcomes are, chosen by the input `ctxDone`.
  - The calls `Lifecycle.BeforeShutdown` reports are those the background loop makes in full, also when the context wins.
  - Timing, and the unsynchronised sharing of the error list, are not modelled.
- The start context is read through `ctxErr(i)`. The model does not say how a real context moves from fine to done.
- The `startErrors` type's message format is not modelled. That type is not part of this model, so a start failure is modelled as its list of boot errors.
- `slice.go`, `parameters.go`, `logger.go`, `exit.go`, `error.go`, `options.go`, `component.go`, `container.go` and the examples are not modelled. Together they cover OS signals, flags, environment lookup, printing, process exit and container wiring. `options.go` and `component.go` also target types this model does not have.
- The deprecated `Before`/`After` hook fields are not modelled, because `lifecycle.go` never reads them. Three tests set only those fields:
  - The order test at lifecycle_test.go:84-109 does not describe this code: no hook of it is invoked.
  - The test at lifecycle_test.go:112-125 expects a boot error (line 123). This code invokes no hook there and returns no error.
  - The test at lifecycle_test.go:127-152 cancels the context before the first bundle, so no hook field is read. `Lifecycle.CancelledBeforeFirstBundle` models it with `BeforeStart` hooks; the outcome is the same.
- `Env.IsDev` (env_test.go) is not modelled. It is not defined in env.go.
- `Environment.Lower` lowers ASCII letters only. Unicode case mapping in `strings.ToLower` is not modelled.
- The `sync.RWMutex` in `Context` is not modelled: the model is single-threaded.
- Keys and values in `Context` are not modelled as Go `interface{}` values. They are type parameters, and nil is `None`. Interface equality on keys is Dafny equality.
- A parent context is modelled as a value: its values map, error, done channel and deadline. It is not itself a mutable context.
- The `sort_test.go` cases call `prepareBundles`, which is not part of this model. They expect the reverse of `sortBundles`' order. `Sort.ThirdSortsToFour`, `Sort.SharedDependencySortsToThree` and `Sort.RepeatedInputsSortToFour` state `sortBundles`' own order, such as first, second, fourth, third.
- Sort.SortComplete: it holds only when names identify bundles, meaning reachable bundles with equal names are equal. If two different bundles share a name, the later one's dependencies are never visited.
- Sort.SortFailsOnCycle: it states one direction only. A name cycle need not fail the sort; `Sort.NameCycleHiddenByEarlierName` gives an input where it does not.
