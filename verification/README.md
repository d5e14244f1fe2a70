# Kyverno authorization plugin: a verified model

The plugin decides requests for Envoy and for plain HTTP servers by policies written in CEL. This
project models, in Dafny, the four parts of it that turn a set of policies into a decision or keep
that set right, and proves what they promise.

* **Compiling and evaluating a policy** (`Cel`, `Policies`, `Compiler`, `Laziness`, `Evaluator`,
  `Soundness`). CEL is cut down to a small typed language: literals, the request, header look-ups that
  may fail, `variables.x`, equality, an error-absorbing conjunction, conditionals (null may stand for a
  message), and responses. Compilation checks match conditions, then variables in order, then rules,
  registering each variable only after its own expression. Evaluation computes variables on demand.
  Shown: lazy evaluation ends and is eager evaluation, and which variable names make that so; which
  names make what runs type sound, with a policy that is accepted and unsound; that a policy of the
  other mode never answers; the match loop is the documented three-way rule in any order.
* **The decision engine** (`Engine`). Sequential evaluation into a collector, stopped by a breaker.
  Shown: exactly when stopping early finds what collecting everything would have found.
* **Sources** (`Caching`, `CacheThreads`, `CompiledPolicies`, `Sources`, `Once`, `Mirror`, `Listing`). The
  double-buffered cache as a class over two buffer objects, its history, and any number of threads
  stepping through it; composites; the file system pipeline; the load-once source; the API mirror.
  Shown: where a cached item comes from; that concurrent loads are linearizable, in real-time order;
  that the cache is invisible exactly when the keys of the data loaded are coherent; and when the keys
  chosen for compiled policies are not.
* **The control plane** (`Transfer`, `Replica`, `ControlPlane`, `ReplicationGaps`, `Sender`, `FanOut`).
  Policies on the wire; the sender and the reconciler as a class; the server's processors as classes;
  replication as a protocol over a log of reconciles; health records over time; one broadcast as
  interleaved workers. Shown: exactly what a client holds after whatever losses, evictions and
  reconnections, and exactly when that agrees with the sender; convergence of ordered runs, with a run
  for each way in which it fails; what holds with no hypothesis; eviction bounds; when a broadcast can
  return.
* **All of it together** (`EndToEnd`). The listener's policies behind the cache that
  `pkg/engine/sources/control_plane.go` puts in front of them, under the engine. Shown: every server only
  ever evaluates policies that were stored for its mode; exactly when a server that has caught up serves
  the stored policies as they are now; and that two such servers can decide every request differently.

Two hypotheses appear in `ControlPlane`. `ProcessedInOrder` asks only that a client never processes an
older change of a name after a newer one; under it a client's holdings are known exactly. `Ordered` asks
in addition that changes of one name go out in order and that nothing is lost while a client is
connected; under it a client has heard of every name's latest change, except one that went out between
its snapshot and its registration (`Missed`) and a deletion, while it was away, of something it had from
an earlier connection (`DeletedWhileAway`). `ModeFixed` is asked of a name and a mode where the policies
stored under the name might change mode. The program guarantees none of the three.

Where the code and its documentation part ways, the model follows the code: an unset failure policy
means Fail (`pkg/data/crds/policies.kyverno.io_validatingpolicies.yaml:172`), yet arrives at a server
as Ignore; `SendPolicy` is written to gather one result per stream and return, yet cannot return while
there is a stream; a client may send a health check while a scan is about to delete it, and is deleted
all the same; and a file found in a directory is read under its base name. A client whose stream ends
opens another and takes a second snapshot into the policies it still has: the HTTP command calls `Start`
in an endless loop (`pkg/commands/serve/http/authz-server/command.go:136-149`), and dialling makes it ask
for a stream again (`pkg/control-plane/listener/listener.go:68-71`). File sources are not filtered by
mode (`pkg/commands/serve/envoy/authz-server/command.go:184-207`), so that a server may evaluate policies
of the other mode.

`Soundness.RepeatedNameChangesTheAnswer`, `Soundness.SoundIffRepeatsAdjacent` and
`Laziness.ComputableIffNamesDistinct` turn on repeated variable names. Compilation accepts them, but the
schema of the resource does not: it makes variables a list keyed by name
(`pkg/data/crds/policies.kyverno.io_validatingpolicies.yaml:697-710`). A repeated name therefore reaches
`Compile` only past that schema, which the API server checks; file sources load documents against it
(`pkg/engine/sources/fs.go:60-79`) through a library that is not part of this model.

## Model

| member | source | states |
|---|---|---|
| Cel.CheckedReadsAreRegistered | pkg/cel/variables.go:53-63 | an expression that checks mentions only fields registered at that moment |
| Cel.JoinIsTheLargerType | pkg/engine/compiler/compiler.go:130-152 | the type of a conditional is the one of its branches' types that has all the values of both, so that null may stand for a message |
| Cel.EvalSound | pkg/engine/compiler/compiler.go:82-88 | a checked expression evaluates to a value of its output type, or fails only by a missing key or an access to null |
| Compiler.VariablesProvider.constructor | pkg/cel/variables.go:19-24 | a new type environment has no fields |
| Compiler.VariablesProvider.RegisterField | pkg/cel/variables.go:26-29 | registering sets the type of one field, overwriting an earlier one, and appends the name |
| Compiler.CompileMatchConditions | pkg/engine/compiler/compiler.go:77-95 | every condition is an exact bool in the environment without variables, or the first that is not is reported with its reason |
| Compiler.CompileVariables | pkg/engine/compiler/compiler.go:96-112 | each variable checks against the fields registered before it; the last declaration of a name is its program |
| Compiler.CompileAuthorization | pkg/engine/compiler/compiler.go:128-154 | a rule must be exactly a response of the policy's mode, or null |
| Compiler.CompileValidations | pkg/engine/compiler/compiler.go:113-124 | every rule is accepted, or the first that is not is reported with its reason |
| Compiler.Compile | pkg/engine/compiler/compiler.go:36-126 | compilation succeeds exactly when conditions are bools without variables, variables check in turn and rules are responses of the mode or null; the form has the conditions and rules in order, the last declaration of each name, and the failure policy set or Fail; otherwise the first fault in compilation order is reported |
| Compiler.AcceptsIffChecks | pkg/engine/compiler/compiler.go:96-112 | acceptance, spelled out over the types registered when each variable is checked |
| Compiler.AcceptedOrRejectedOnce | pkg/engine/compiler/compiler.go:36-47 | no policy is both accepted and rejected, and the error of a rejected one is determined |
| Laziness.AcceptedVariablesAreScoped | pkg/engine/compiler/compiler.go:99-111 | an accepted variable reads only variables declared before it |
| Laziness.EagerFixpoint | pkg/engine/compiler/policy.go:79-90 | with distinct names, each variable's value is that of its expression in the full environment |
| Laziness.LazyIsEager | pkg/engine/compiler/policy.go:66-92 | demanding any expression, in any state that earlier demands leave, ends within as many nested variables as there are, gives the eager value and keeps the memo table right |
| Laziness.Remembers | pkg/engine/compiler/policy.go:79-90 | what is computed stays in the table, only programs enter it, and a variable once computed is not computed again |
| Laziness.ComputableIffNamesDistinct | pkg/engine/compiler/compiler.go:96-112 | for a list of variable names, every accepted policy over it can be computed on demand if and only if no name is repeated |
| Laziness.AcyclicReadsEnd | pkg/engine/compiler/policy.go:79-90 | repeated names or not, an expression whose demanded variables do not read each other in a circle ends, whatever other variables do, at a depth bounded by their rank |
| Evaluator.Match | pkg/engine/compiler/policy.go:38-64 | the policy is skipped if and only if some condition is false, whatever fails; it applies without error if and only if all are true; otherwise the errors are, in order, the failures and the values that are no bool |
| Evaluator.VerdictIgnoresOrder | pkg/engine/compiler/policy.go:38-64 | permuting the conditions never changes the verdict and only reorders its errors |
| Evaluator.LazyVariables.Append | pkg/engine/compiler/policy.go:80 | a program is registered under its name |
| Evaluator.LazyVariables.Compute | pkg/engine/compiler/policy.go:79-90 | each variable is computed when first read, within the evaluation that reads it, and remembered; outcome and table are those of the specification |
| Evaluator.LazyVariables.EvaluateRule | pkg/engine/compiler/policy.go:124-141 | evaluating a rule in that way gives its lazy outcome, with null read as no result |
| Evaluator.SetupVariables | pkg/engine/compiler/policy.go:66-92 | whatever the iteration order, every program and nothing else is registered, and nothing is computed yet |
| Evaluator.EvaluateRules | pkg/engine/compiler/policy.go:94-122 | no rule is looked at unless the policy applies without error; then the first rule that is not null decides, by its failure, by its response, or by not being a response of the mode; later ones are not evaluated |
| Evaluator.Evaluate | pkg/engine/compiler/policy.go:29-36 | errors are reported under Fail, and under any other failure policy there is no answer instead |
| Evaluator.AcceptedPolicyRunsItsMeaning | pkg/engine/compiler/policy.go:94-122 | for every accepted policy with distinct variable names, on every request, lazy evaluation ends and is the eager meaning |
| Evaluator.FirstRuleDecides | pkg/engine/compiler/policy.go:105-121 | for every accepted policy with distinct names that applies, the first rule whose value is not null decides, by its failure, its response or its wrong type |
| Soundness.LazyIsPlain | pkg/engine/compiler/policy.go:79-90 | remembering variables never changes an outcome, repeated names included |
| Soundness.MatchConditionsAreSound | pkg/engine/compiler/compiler.go:77-95 | an accepted condition reads no variable and never fails conversion to bool |
| Soundness.RuleIsSound | pkg/engine/compiler/compiler.go:128-154 | if no variable in force was checked against a type that changed later, an accepted rule run after any others gives null, a response of its own mode, or an ordinary failure |
| Soundness.AcceptedPolicyIsSound | pkg/engine/compiler/policy.go:94-122 | run at any depth on a request of its mode, such an accepted policy reports ordinary failures only |
| Soundness.AdjacentRepeatsAreSettled | pkg/engine/compiler/compiler.go:96-112 | every policy is such that declares repeated names together, distinct names included |
| Soundness.RepeatedNameChangesTheAnswer | pkg/engine/compiler/compiler.go:96-112 | a policy is accepted and yet fails every request with a wrong rule result, where computing its variables in order would have answered |
| Soundness.SoundIffRepeatsAdjacent | pkg/engine/compiler/compiler.go:96-112 | for a list of variable names, every accepted policy over it is sound at run time if and only if no other name is declared between two declarations of one |
| Soundness.EndsSoundlyIffNamesDistinct | pkg/engine/compiler/policy.go:79-90 | and is sound and always ends if and only if no name is repeated |
| Soundness.ForeignPolicyNeverAnswers | pkg/commands/serve/envoy/authz-server/command.go:184-207 | an accepted policy evaluated by a server of the other mode never answers |
| Engine.First.constructor | sdk/core/resulters/first.go:16-24 | nothing is decided yet |
| Engine.First.Collect | sdk/core/resulters/first.go:26-32 | the decision is written once, by the first outcome that satisfies the predicate |
| Engine.First.Result | sdk/core/resulters/first.go:34-40 | the decision, or the zero value |
| Engine.Appender.Collect | sdk/core/resulters/appender.go:23-25 | the outcome is appended |
| Engine.Transformer.Collect | sdk/core/resulters/transformer.go:41-43 | the mapped outcome goes to the inner resulter |
| Engine.Transformer.Result | sdk/core/resulters/transformer.go:45-47 | the inner result, mapped |
| Engine.Sequential | sdk/core/dispatchers/sequential.go:25-33 | exactly the outcomes up to and including the first that breaks are evaluated and collected, in order |
| Engine.HandleRequest | pkg/authz/envoy/server.go:24-42 | the first evaluation with a response or an error is returned, or none if there is none; and nothing after the first response is evaluated |
| Engine.Decide | pkg/authz/envoy/server.go:24-42 | the decision is that of the first policy with a response, or with errors under Fail |
| Engine.HandleAll | sdk/core/defaults/resulter.go:10-32 | the default engine reports every outcome beside its policy, and the source's data and error |
| Engine.FirstMatchMeans | sdk/core/resulters/first.go:26-40 | the reference result is the earliest outcome that satisfies the predicate, and none if there is none |
| Engine.BreakerCondition | pkg/authz/envoy/server.go:30-39 | stopping early agrees with collecting everything, on every list, if and only if breaking implies matching (or nothing matches) |
| Engine.IndecisivePoliciesDoNotMatter | pkg/engine/compiler/policy.go:29-36 | erasing exactly the policies that yield neither response nor error leaves the decision |
| Engine.DecisionIsLocal | sdk/core/resulters/first.go:26-40 | the decision depends only on the prefix up to the first decisive policy |
| Engine.ServerDecisionIsSound | pkg/authz/envoy/server.go:24-42 | whatever policies of the two modes a server has, and whether those after the first response end or not: a response is that of a policy of its mode; an error is that of a policy under Fail, and an ordinary one (or the loader's) if that policy has its mode and reads settled types; other failing policies are not decisive |
| Caching.Cache.constructor | sdk/core/sources/cache.go:35-43 | two separate empty buffers |
| Caching.Cache.Load | sdk/core/sources/cache.go:46-97 | items and errors in the order of the data, each item the previous load's if it has the key and built otherwise; the last item of each key is kept; the buffers swap, never alias, and the write buffer is left empty |
| Caching.WrittenKey | sdk/core/sources/cache.go:61-85 | which keys a load leaves behind, and with what item: the reused one, or the last one built |
| Caching.EntryIsFromStartOfStreak | sdk/core/sources/cache.go:61-93 | an item is available if and only if some load built its key and none since missed it; it is the last one built by the first load of the longest such streak |
| Caching.SameItemsIff | sdk/core/sources/cache.go:61-85 | a load gives the items of building anew if and only if it does so datum by datum |
| Caching.TransparentIffCoherent | sdk/core/sources/cache.go:70-80 | over any set of data, the cache is invisible in every history if and only if what can be built under a key is built the same from all data of the set with it |
| CacheThreads.StepKeepsInv | sdk/core/sources/cache.go:50-97 | every step of every thread keeps the buffers and the passes under way in order |
| CacheThreads.LoadsAreLinearizable | sdk/core/sources/cache.go:50-97 | under every interleaving, each load returns what it would in a sequential history in swap order; the write buffer is empty whenever the lock is free |
| CacheThreads.ReturnedBeforeBegun | sdk/core/sources/cache.go:46-97 | that order respects real time: a load that returned before another fetched its data has the smaller position |
| CacheThreads.ConcurrentLoadsAreTransparent | sdk/core/sources/cache.go:46-97 | if the keys of the data that the run loads are coherent, each load returns exactly what building its own snapshot anew gives |
| CompiledPolicies.CompiledLoadsAreTransparent | pkg/engine/sources/kube.go:25-34 | if no two policies loaded share name and version, written one after the other, without compiling alike, concurrent loads return what compiling each snapshot anew gives |
| CompiledPolicies.UpdateKeepsTheEarlierForm | pkg/engine/sources/control_plane.go:16-25 | an updated policy from the control plane is served in the form first compiled ... |
| CompiledPolicies.MissedNameIsCompiledAgain | pkg/engine/sources/control_plane.go:16-25 | ... until a load misses its name |
| CompiledPolicies.FormsAreFreshIff | pkg/engine/sources/control_plane.go:12-27 | received policies are served in the forms compiled anew if and only if each has no streak of loads under way or the first of it built its own form |
| CompiledPolicies.NameAndVersionCanCollide | pkg/engine/sources/kube.go:25-34 | two policies can share a key, and then one is served in the other's form |
| Sources.TransformErr | sdk/core/sources/transform.go:99-115 | the successes in order, and the errors after the inner ones |
| Sources.Filter | sdk/core/sources/filter.go:45-59 | the accepted items in order, the error unchanged |
| Sources.Flatten | sdk/core/sources/flatten.go:52-66 | the concatenation, the error unchanged |
| Sources.LoadComposite | sdk/core/sources/composite.go:64-83 | the data of the error-free sources in order, the errors of all |
| Sources.CompositeOfOne | sdk/core/sources/composite.go:64-83 | a source with an error gives none of its data |
| Sources.CompositeConcat | sdk/core/sources/composite.go:64-83 | sources are composed in order |
| Sources.NestingComposites | pkg/commands/serve/envoy/authz-server/command.go:136 | nesting never changes the errors, and keeps the data if and only if no nested source fails or the others are empty |
| Sources.Walk | sdk/core/sources/fs.go:74-94 | policy files among the call-backs up to the first error, and that error |
| Sources.LoadFs | pkg/engine/sources/fs.go:40-127 | the outputs are what the documents that compile give, in walk and then document order: those of a YAML file split, or the one a JSON file is; and an error is reported if and only if the walk, a read, a split, a load or a compilation failed with it |
| Sources.StagedIsOnePass | pkg/engine/sources/fs.go:51-96 | the staged pipeline is the one-pass reading, and every document ends as exactly one of output, error or dropped |
| Sources.FilesAreReadAtTheRoot | pkg/engine/sources/fs.go:99-127 | an entry is read under its own path, whatever the files hold, if and only if its name is its path |
| Once.OnceSource.Load | sdk/core/sources/once.go:65-73 | the first call loads and stores, later calls return what is stored |
| Once.LoadedAtMostOnce | sdk/core/sources/once.go:65-73 | under every interleaving there is at most one inner load, and every finished call returns its result |
| Once.InnersAreTheInnerLoads | sdk/core/sources/once.go:68-71 | the recorded inner loads are those of the run |
| Transfer.ToProto | pkg/control-plane/validating_policy.go:11-53 | the wire form, field by field: everything but the resource version, with Ignore for an unset failure policy |
| Transfer.FromProto | pkg/control-plane/validating_policy.go:55-106 | the policy read back, field by field, with an empty resource version and its failure policy text as it is |
| Transfer.TransferKeepsTheSpec | pkg/control-plane/validating_policy.go:55-106 | reading back what was sent gives the policy with those two fields changed |
| Transfer.TransferIsIdempotent | pkg/control-plane/validating_policy.go:36-42 | sending a received policy on changes nothing more |
| Transfer.TransferredArtifact | pkg/control-plane/validating_policy.go:36-42 | a received policy compiles to the form of the one sent, with an unset failure policy as Ignore |
| Transfer.TransferPreservesMeaning | pkg/control-plane/validating_policy.go:36-42 | at every depth a transferred policy serves a request the same way if and only if its failure policy is set or it does not fail on that request |
| Replica.Listener.Process | pkg/engine/sources/listener.go:26-37 | a deletion removes the name, anything else replaces its policy |
| Replica.Listener.Load | pkg/engine/sources/listener.go:39-57 | the policies in key order, a listing that the map determines |
| Listing.SortedIsUnique | pkg/engine/sources/listener.go:49-51 | a set of keys has one sorted list |
| Listing.BeforeIsLexicographic | pkg/engine/sources/listener.go:51 | the order of keys: a proper prefix first, otherwise the smaller character at the first difference |
| Listing.ByKey | pkg/engine/sources/listener.go:47-56 | the values in key order, whatever order the keys are collected in |
| Listing.ListsInOrder | pkg/engine/sources/listener.go:47-56 | a listing has each value once, those of smaller keys first |
| Mirror.ApiSource.Reconcile | sdk/extensions/controller-runtime/source.go:110-135 | an object found is stored, one not found removed, and a failed look-up changes nothing |
| Mirror.ApiSource.Load | sdk/extensions/controller-runtime/source.go:153-171 | the objects in key order, a listing that the map determines |
| Mirror.MirrorsTheApi | sdk/extensions/controller-runtime/source.go:110-135 | the mirror equals the API's objects if and only if, key by key, the last look-up that did not fail saw what the API holds |
| Replica.DeliveriesAgree | pkg/engine/sources/listener.go:26-37 | two deliveries always have the same effect if and only if, name by name, their last messages say the same |
| Replica.DeliveryOrderIndependence | pkg/engine/sources/listener.go:26-57 | deliveries with equal per-name subsequences leave the same map and the same listing |
| Replica.PolicyListener.Receive | pkg/control-plane/listener/listener.go:127-138 | deletions reach every processor, policies only the one of their mode |
| ControlPlane.StepKeepsNoInvention | pkg/control-plane/sender/sender.go:88-98 | one step of any kind keeps every held policy authentic and the sender's policies the latest change of each name |
| ControlPlane.NothingIsInvented | pkg/control-plane/reconciler.go:43-51 | in every run, with reordering, loss, eviction and reconnection, a held policy is one that was stored under that name and mode |
| ControlPlane.ClientsHoldTheLast | pkg/control-plane/listener/listener.go:127-138 | whatever is lost or missed and however often it reconnects, a client that processes in order holds what the last change it processed with a say in the processor said |
| ControlPlane.ClientAgreesIff | pkg/control-plane/sender/sender.go:136-146 | it agrees with the sender on a name if and only if that change says the same to the processor as the latest one, and on all if and only if on each |
| ControlPlane.ReachedIffSent | pkg/control-plane/sender/sender.go:64-77 | a change has reached a client or is in flight to it if and only if a snapshot or broadcast sent it, unless it was lost |
| ControlPlane.StepConverges | pkg/control-plane/sender/sender.go:112-149 | an ordered step keeps changes processed oldest first, stored policies of before the snapshot sent, and deletions of before it sent where anything of the name is |
| ControlPlane.WhatAClientHears | pkg/control-plane/sender/sender.go:136-146 | in every ordered run a connected client has heard of every latest change, but for those sent before its registration and deletions while it was away |
| ControlPlane.MissedOnlyBeforeRegistration | pkg/control-plane/sender/sender.go:136-146 | a connected client comes to miss a name only by a send between its snapshot and its registration |
| ControlPlane.ClientConverges | pkg/control-plane/sender/sender.go:136-146 | in every state of every ordered run, a client that has heard of a name and processes what is pending for it holds the sender's policy, in every processor for whose mode the name is settled |
| ControlPlane.QuietClientsAgree | pkg/engine/sources/listener.go:39-57 | with nothing on its way, a connected client to which neither exception applies holds exactly the sender's policies of the mode |
| ControlPlane.EvictedClientHearsNothingMore | pkg/control-plane/sender/sender.go:164-173 | nothing more comes to an evicted client until it connects again |
| ControlPlane.CanAlwaysSettle | pkg/control-plane/sender/sender.go:64-86 | every ordered run goes on, by ordered sends and deliveries, to a state with nothing on its way |
| EndToEnd.AnyServerDecidesSoundly | pkg/engine/sources/control_plane.go:12-27 | in any run, after any loads, a server whose listener receives the client's messages evaluates only forms of accepted policies stored for its mode, and its decision is that of one of them, with an error only under Fail, and an ordinary one if that policy reads settled types |
| EndToEnd.SettledServerServesStored | pkg/engine/sources/control_plane.go:12-27 | such a server that has caught up serves the stored policies as they are now if and only if each is current in its cache, and then decides as they do |
| EndToEnd.SettledServersCanDisagree | pkg/engine/sources/control_plane.go:16-25 | two such servers that have caught up hold the same policy and decide every request differently, because one loaded before an update |
| ReplicationGaps.DeletionInTheWindowIsLost | pkg/control-plane/sender/sender.go:136-146 | an ordered run in which a deletion sent between snapshot and registration leaves the policy at the client |
| ReplicationGaps.RecreatingUnderAnotherMode | pkg/control-plane/listener/listener.go:127-138 | an ordered run in which a client keeps a policy under its old mode beside the new one |
| ReplicationGaps.ReorderingRevives | pkg/control-plane/listener/listener.go:127-138 | a run in which processing out of order brings a deleted policy back |
| ReplicationGaps.LostDeletionIsKept | pkg/control-plane/sender/sender.go:151-162 | a run in which a lost deletion leaves the policy at the client |
| ReplicationGaps.DeletionWhileAwayIsNotHeard | pkg/control-plane/listener/listener.go:54-71 | an ordered run in which a policy deleted between two connections survives at the client |
| ReplicationGaps.EvictedClientKeepsDeletedPolicy | pkg/control-plane/sender/sender.go:164-173 | an ordered run in which a policy deleted after an eviction survives at the client |
| Sender.PolicySender.StorePolicy | pkg/control-plane/sender/sender.go:88-92 | the policy is stored under its name |
| Sender.PolicySender.DeletePolicy | pkg/control-plane/sender/sender.go:94-98 | the name is removed |
| Sender.PolicySender.HealthCheck | pkg/control-plane/sender/sender.go:100-110 | a record only ever moves forward; incomplete requests are ignored |
| Sender.PolicySender.GetInactiveClients | pkg/control-plane/sender/sender.go:175-183 | exactly the clients whose record is older than the limit |
| Sender.PolicySender.DeleteInactive | pkg/control-plane/sender/sender.go:164-173 | their records and connections go, all others stay |
| Sender.PolicySender.Reconcile | pkg/control-plane/reconciler.go:27-53 | what each look-up result does to the store, and which message is broadcast |
| Sender.RecordIsTheLatestStamp | pkg/control-plane/sender/sender.go:100-110 | a record exists if and only if something was received since the last eviction, and is the greatest such stamp |
| Sender.SilentClientIsEvicted | pkg/control-plane/sender/sender.go:53-62 | a silent client's record and connection are gone by its last stamp plus the limit plus one gap between scans |
| Sender.LiveClientIsNeverEvicted | pkg/control-plane/sender/sender.go:164-183 | a client whose sending gap and delay fit in the limit is never evicted |
| Sender.LiveBoundIsExact | pkg/control-plane/sender/sender.go:164-183 | gap and delay within the limit is exactly what keeps every such client connected: beyond it, a run evicts one |
| Sender.UnheardClientIsNeverEvicted | pkg/control-plane/sender/sender.go:175-183 | a client without a health check keeps its connection |
| Sender.BeatDuringScanIsLost | pkg/control-plane/sender/sender.go:164-173 | a scan deletes exactly what it collected, whatever health checks and connections come before its deletions |
| Sender.HealthChecksDoNotReconnect | pkg/control-plane/sender/sender.go:100-110 | health checks give an evicted client a record again and never a connection |
| FanOut.StepKeepsInv | pkg/control-plane/sender/sender.go:64-86 | results received or waiting are one from each finished worker |
| FanOut.BroadcastEnds | pkg/control-plane/sender/sender.go:64-86 | every run is bounded; where it ends every stream was attempted, and the caller has returned with one result each if the channel has room for all, and waits for ever if not |
| FanOut.CallerReturnsOnlyWithRoom | pkg/control-plane/sender/sender.go:65-77 | with more streams than room the caller never gets past its wait |

## Left out

- Evaluator.Evaluate: takes the number of variables that may be under computation at once and gives no
  result beyond it; the program has no such bound, and recurses until its stack is exhausted.
- Sender.SilentClientIsEvicted: stamps and scans are read off one clock.
- ControlPlane.ClientConverges: asks that the name be settled for the mode over the whole log, because a
  mode fixed only while a name is stored is not enough (ReplicationGaps.RecreatingUnderAnotherMode); the
  exact condition is that of ControlPlane.ClientAgreesIff.
- ControlPlane.CanAlwaysSettle: says that ordered runs can settle, not that the scheduler lets them.
- Cel.Eval: CEL itself, with its other types, functions and macros, `dyn`, and the contexts `http`,
  `image` and `resource`; the lazy map of the Kubernetes API server is a memo table.
- Compiler.Compile: failures to build a CEL environment or program, which come from libraries.
- Policies.GetFailurePolicy: the accessor lives in another repository and is not part of this model;
  its default is the documented one.
- Caching.Cache.Load: the wording of wrapped errors, and the context argument.
- Engine.ServerDecisionIsSound: speaks of requests on which every policy up to the first response ends; one
  that never ends takes the server's stack with it (see Evaluator.Evaluate). The image data loader
  fails for all policies of a request or for none.
- EndToEnd.AnyServerDecidesSoundly: assumes, as the two results below do, that the listener behind the cache
  is a processor of a policy listener. In `pkg/engine/sources/control_plane.go:15` it is a local variable that
  nothing else can reach, no command calls `NewControlPlane`, and the HTTP command's own listener is not
  among the sources of its engine; as built, such a source lists nothing.
- EndToEnd.SettledServerServesStored: the same assumption.
- EndToEnd.SettledServersCanDisagree: the same assumption.
- Evaluator.LazyVariables.EvaluateRule: says nothing of the memo table after an evaluation that gives no
  result, which the program does not survive; nor does Evaluator.LazyVariables.Compute.
- Sources: `NewTransform`, `NewFilterErr` and `NewFsErr`, which are the modelled combinators with or
  without an error.
- ControlPlane: retry timing (a send succeeds, or is lost); accesses to maps without a lock are atomic;
  dialling and its back-off. A broadcast to several clients is one step.
- Sender.PolicySender.Connect: the stream behind a connection is a number.
- FanOut: what a failed send reports, and logging.
- The HTTP authorizer, whose engine is assembled like the Envoy server's; input and output expressions.
- gRPC and HTTP servers, metrics, probes, webhooks, signals, commands, charts, OCI and git access,
  JSON, JWT and MCP helpers, sidecar injection and generated code.
