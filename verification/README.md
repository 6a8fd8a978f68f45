# A verified model of goshop's shared packages

goshop is a set of Go services. This project models the packages they share, where the logic is: the error
graph and its code registry (`pkg/errors`), amounts of money (`pkg/money`), the Redis client and the protocols
on top of it (`pkg/storage`), and the guard around external dependencies (`gmicro/resilience`). `dafny verify
dfyconfig.toml` checks all of it.

How the parts fit together:

- **Errors.** `ErrorGraph` sees error values as nodes of a graph that may be cyclic, shared or infinite.
  `ErrorWalk` is the budgeted depth-first search with its walker object; the search theorems say what an answer
  means. `WalkOrder` proves the recursive search equal to scanning the entry order of an explicit stack, gives the
  exact condition under which the search decides reachability, and bounds the budget it needs. `CodeRegistry` is
  the process-wide table of codes and `CodedErrors` the errors built from it, over every run of a process.
  `AggregateErrors` is flattening and filtering, `FanIn` the goroutine fan-in over every schedule.
- **Money.** `MachineInts` has the machine integer types; arithmetic on them is checked to stay in range. `Decimals`
  is decimal notation. `Money` is checked arithmetic, the printer, a declarative notation for amounts, and the parser proved against it.
- **Redis.** `Keyspace` has entries and deadlines. `TokenLock`, `FixedWindow` and `RollingWindow` are the three
  protocols, each with the methods of the source and a theorem over every run. `RedisClient` is the client's
  lifecycle under any interleaving of Start loops and Close calls, `Backoff` its retry delay.
- **Guard.** `GuardConfig` is the lazy configuration protocol and `GuardMetrics` the counters, both under any
  interleaving; the classes in them perform runs of those machines.

Objects the source updates in place are classes whose methods are proved against functions of the old state;
lemmas then say what those functions guarantee. Concurrency is modelled as a machine whose atomic steps are the
bodies executed under a lock, a Redis command or script, a metric update, or a channel operation; a theorem over
every schedule is a theorem about every interleaving. A panic is an operation that answers false.

What the environment decides is a parameter: clocks, random draws, whether the client is up, whether a pool can be
made or pinged, what a guarded function, Sentinel, `configure` or `loadRules` answers.

## Where the code and its comments disagree

- The comment on `filterErrors` says that nested lists are flattened as a side effect. They are not
  (`FilterKeepsNesting`); `FilterFlattensIff` says exactly when the result is flat.
- `IncrementWithExpiry` is documented to set the ttl for the first value. It does so exactly for a positive whole
  number of seconds (`TtlIsHonouredIff`): 1.5 seconds become one (`FractionIsCut`), and below one second none is set
  and the counter never resets (`SubSecondTtlNeverResets`, `WindowEndsIff`).
- `IsCode` is documented to look at any error in the chain. It looks at the first thousand entries
  (`DeepCodeIsMissed`). `IsCodeIsExactIff` and `SearchIsExactIff` say for which shapes of errors that is enough,
  `DropsNothingIff` what budget a full search needs, and `SomeBudgetIsEnoughIff` when there is one at all.
- `Connected` is documented to report whether the latest probe succeeded. It reports the outcome recorded last, and
  two Start loops can record theirs in the wrong order (`OvertakingProbeIsLost`). The promise holds exactly for
  clients with at most one Start loop (`ReportsLatestIffOneLoop`); until an outcome is recorded, the one before shows.
- The rolling window's expiry equals its length, and runs on Redis's clock from the moment a call arrives, so a call
  that is under way for longer than the latest Set was can miss a member (`LateCallMissesMember`).
  `WindowRefinesLogIff` is the exact condition and `RecentIsReturned` what bounded delays still guarantee.
- A release with a value that another client also used can take that client's key (`SharedValueIsNotSafe`); the
  callers in `app/goshop/api/internal/smslimit` do share the value "1". `ReleaseSucceedsIff` is the exact condition for
  one call, and `NoLateReleaseIff` for a key over a whole run.

## Model

| member | source | states |
|---|---|---|
| ErrorWalk.Walker.WalkErrorTree | pkg/errors/walk.go:22-62 | The walker object's recursive search does exactly what the functional search does: same answer, same visits in the same order, same seen set and remaining budget, on any graph; it terminates because the budget falls. |
| ErrorWalk.WalkErrors | pkg/errors/walk.go:9-15 | A search from a fresh walker returns the answer and the visits of the functional search with a budget of 1000. |
| ErrorWalk.SearchIsSound | pkg/errors/walk.go:22-62 | An answer of true means the last visited error is reachable, is no aggregate and was accepted, and every earlier visited one was rejected. |
| ErrorWalk.SearchIsComplete | pkg/errors/walk.go:22-62 | An answer of false with nothing dropped means the visits are exactly the reachable non-aggregate errors and all were rejected, on cyclic, shared and infinite graphs. |
| ErrorWalk.TreeCutsOnlyWhenSpent | pkg/errors/walk.go:26-29 | Nothing is dropped while budget is left over. |
| ErrorWalk.SearchIsBounded | pkg/errors/walk.go:5-35 | On any graph the visitor is called at most 1000 times and never twice with the same comparable error. |
| ErrorGraph.ChildrenAreEdges | pkg/errors/walk.go:37-59 | What the search follows is exactly what an error can unwrap to, in each of its four forms. |
| ErrorWalk.MembersInOrder | pkg/errors/walk.go:37-59 | Of an error that unwraps to several, or an aggregate, for every k some first part of the visits is the error itself, unless it is an aggregate, and what its first k members lead to, and nothing else: depth first, from left to right. |
| WalkOrder.SearchScansOrder | pkg/errors/walk.go:22-62 | The recursive search returns what scanning the entry order of an explicit-stack traversal returns: true exactly when an acceptable error is among the first entries, stopping at the first. |
| WalkOrder.StopsAtFirst | pkg/errors/walk.go:22-62 | The search answers true exactly if it stops somewhere, and then at the first acceptable entry of the stack order. |
| WalkOrder.LargerBudgetAgrees | pkg/errors/walk.go:5-35 | A larger budget keeps every answer of true and the error it stopped at. |
| WalkOrder.SearchIsExactIff | pkg/errors/walk.go:22-62 | The search decides reachability for every visitor if and only if the first entries of the visitor-free stack order hold every reachable non-aggregate error. |
| WalkOrder.ChainTipIsFoundIff | pkg/errors/walk.go:26-29 | The last error of a chain is found exactly when it is wrapped fewer times than the budget. |
| WalkOrder.DeepChainIsMissed | pkg/errors/walk.go:26-29 | For every budget, an error wrapped that many times is reachable and not found. |
| WalkOrder.SearchIsExactWithin | pkg/errors/walk.go:5-35 | If the weight of the error plus one expansion of each comparable node fits the budget, nothing is dropped and the search is exact. |
| WalkOrder.DropsNothingIff | pkg/errors/walk.go:5-35 | That bound is tight: a search that has to look at everything drops nothing if and only if the price fits the budget, and then uses exactly that much. |
| WalkOrder.LoopIsNeverExhausted | pkg/errors/walk.go:26-35 | Where a cycle of non-comparable errors can be reached, an answer of false always comes from a search that dropped something, for every budget and visitor. |
| WalkOrder.SomeBudgetIsEnoughIff | pkg/errors/walk.go:5-35 | A search that has to look at everything can do so within some budget if and only if what it can reach is finite and holds no cycle of non-comparable errors. |
| CodeRegistry.Validate | pkg/errors/code.go:34-46 | A catalog validates exactly when every specification is valid and no code occurs twice. |
| CodeRegistry.Registry.MustRegister | pkg/errors/code.go:113-130 | Registers a new valid specification, accepts an identical one, refuses an invalid or conflicting one without change. |
| CodeRegistry.Registry.RegisterAll | pkg/errors/code.go:51-58 | Refuses an invalid catalog untouched; otherwise registers in order and stops at the first conflict, keeping what it had registered. |
| CodeRegistry.RegisterSucceedsIff | pkg/errors/code.go:113-130 | A specification is registered exactly if its code is positive, its kind one of the nine, its message not empty and its code not taken by another contract; no other code changes. |
| CodeRegistry.RegistrationKeeps | pkg/errors/code.go:105-130 | Every registration, also one that panics, keeps each key equal to its coder's code and key 1 the unknown coder, and changes no existing entry. |
| CodeRegistry.RegistrationSucceedsIff | pkg/errors/code.go:51-58 | Registration succeeds exactly when the catalog is valid and contradicts no entry, and then adds exactly its new codes. |
| CodeRegistry.RefusedAtFirstConflict | pkg/errors/code.go:51-58 | A valid catalog that is refused is refused at its first contradiction, and exactly what stood before it is registered. |
| CodeRegistry.RegistrationCommutes | pkg/errors/code.go:48-58 | Two catalogs register in one order exactly when they do in the other, with equal registries. |
| CodeRegistry.InterleavingsAgree | pkg/errors/code.go:48-130 | However two concurrent registrations take turns at the lock, both succeed exactly when they would one after the other, with the same registry. |
| CodeRegistry.RegistrationIsIdempotent | pkg/errors/code.go:48-58 | Registering a catalog again succeeds and changes nothing, whatever was registered since. |
| CodedErrors.SpecOf | pkg/errors/spec.go:166-177 | The contract of an entry among the first 1000 before which no coded non-aggregate error stands; nothing exactly if there is no such entry. |
| CodedErrors.IsCode | pkg/errors/code.go:149-156 | True exactly when one of the first 1000 entries is a non-aggregate coded error with the code, and then such an error is reachable. |
| CodedErrors.ParseCoder | pkg/errors/code.go:134-146 | The registered coder of that first contract, else the unknown coder; nothing exactly for nil. |
| CodedErrors.SpecOfIsExactIff | pkg/errors/spec.go:166-177 | Whatever contracts the errors carry, SpecOf finds one exactly when a coded error is reachable, if and only if the first 1000 entries hold every reachable non-aggregate error. |
| CodedErrors.IsCodeIsExactIff | pkg/errors/code.go:149-156 | Whatever contracts the errors carry, IsCode reports exactly the reachable codes, if and only if the first 1000 entries of the stack order hold every reachable non-aggregate error; that depends on how the errors unwrap and on no contract. |
| CodedErrors.IsCodeIsReachability | pkg/errors/code.go:149-156 | Within the budget, IsCode is exactly reachability of a non-aggregate error with the code. |
| CodedErrors.DeepCodeIsMissed | pkg/errors/code.go:149-156 | A code wrapped a thousand times is reachable and not reported. |
| CodedErrors.WrappedCodeIsFoundIff | pkg/errors/code.go:149-156 | A code under any number of plain wrappers is reachable, and reported exactly if there are fewer than 1000. |
| CodedErrors.FirstSpecIsCode | pkg/errors/code.go:134-156 | IsCode reports every code that SpecOf reports. |
| CodedErrors.ConstructorsCarryRegistered | pkg/errors/spec.go:66-149 | NewCode, NewSpec, WrapCode and WrapSpec carry the registered contract of the code, whole, or the internal one for an unregistered code, and unwrap to the cause; wrapping nil gives nil. |
| CodedErrors.WrappingKeepsCause | pkg/errors/spec.go:79-86 | A wrapped error reaches itself and exactly what its cause reaches. |
| CodedErrors.PublicVariantIsReviewed | pkg/errors/spec.go:119-130 | A public variant keeps code, kind and message and takes the registered reference exactly when its code is registered with that kind and the message is not empty; otherwise it is the internal contract. |
| CodedErrors.ContractsStayBacked | pkg/errors/spec.go:66-177 | In every run, an error keeps its contract, and in every later state that contract is valid and the registry holds its code with the same kind and reference. |
| CodedErrors.LookupsAgree | pkg/errors/code.go:134-146 | In every state of every run SpecOf and ParseCoder agree on code, kind and reference, or both find nothing. |
| CodedErrors.LookupsNeverChange | pkg/errors/code.go:134-146 | Once everything reachable from an error has been built, SpecOf and ParseCoder answer the same for it in every later state of the run. |
| AggregateErrors.NewAggregate | pkg/errors/aggregate.go:26-41 | The aggregate of the non-nil members in order, nil if there are none. |
| AggregateErrors.Flatten | pkg/errors/aggregate.go:151-169 | The recursive loop returns one aggregate of the plain errors of the tree in order, nil if there are none. |
| AggregateErrors.FlatKeepsLeaves | pkg/errors/aggregate.go:149-169 | Flattening keeps the leaf sequence, leaves no nested aggregate, is nil exactly without leaves, and is idempotent. |
| AggregateErrors.LeavesSplit | pkg/errors/aggregate.go:149-169 | The leaves of an aggregate are those of its parts in order, wherever its list is cut. |
| AggregateErrors.FilterOut | pkg/errors/aggregate.go:111-122 | The mutually recursive loops compute the pruning function on every tree, nil included. |
| AggregateErrors.FilterErrors | pkg/errors/aggregate.go:138-147 | The list loop keeps exactly the non-nil pruned members in order. |
| AggregateErrors.PruneKeepsUnmatched | pkg/errors/aggregate.go:104-147 | Filtering keeps exactly the unmatched leaves in order, leaves no empty aggregate, and is nil exactly when every leaf matched. |
| AggregateErrors.SurvivesIff | pkg/errors/aggregate.go:104-147 | A plain error survives filtering exactly when it was in the tree and every matcher rejects it. |
| AggregateErrors.PruneIsIdempotent | pkg/errors/aggregate.go:111-122 | Filtering twice is filtering once. |
| AggregateErrors.FlattenAndFilterCommute | pkg/errors/aggregate.go:111-169 | Flattening and filtering an aggregate commute. |
| AggregateErrors.FilterFlattensIff | pkg/errors/aggregate.go:134-147 | The filtered result is flat if and only if no nested aggregate member holds an unmatched leaf. |
| AggregateErrors.FilterKeepsNesting | pkg/errors/aggregate.go:134-147 | A nested aggregate with an unmatched error stays nested. |
| FanIn.SendersNeverBlock | pkg/errors/aggregate.go:204-208 | In every schedule a goroutine that still has to send finds room in the channel. |
| FanIn.NoDeadlock | pkg/errors/aggregate.go:204-216 | Until the caller is done some action is possible. |
| FanIn.ScheduleLength | pkg/errors/aggregate.go:204-216 | Every schedule has at most two actions per function. |
| FanIn.CollectsExactlyTheFailures | pkg/errors/aggregate.go:201-216 | In every schedule the caller ends with each result taken once, the channel empty, and an aggregate of exactly the non-nil results with multiplicity, nil exactly when all succeeded. |
| FanIn.FailuresInArrivalOrder | pkg/errors/aggregate.go:204-216 | The aggregate lists the failures in the order in which the goroutines sent them. |
| Money.Add | pkg/money/money.go:37-44 | The exact sum when it fits int64, an error otherwise, with no intermediate overflow. |
| Money.Multiply | pkg/money/money.go:46-66 | The exact product when it fits int64, an error otherwise, also at magnitude 2^63 of either sign. |
| Money.Magnitude | pkg/money/money.go:155-160 | The absolute value, also of the minimum. |
| Money.AllDigits | pkg/money/money.go:146-153 | True exactly for strings of decimal digits. |
| Money.PadAndJoin | pkg/money/money.go:103-113 | Accepts exactly two digit strings, and joins them with the fraction padded to count fen. |
| Money.BodyDigits | pkg/money/money.go:86-111 | Accepts exactly the good unsigned bodies, and its digit string denotes the amount in fen. |
| Money.Signed | pkg/money/money.go:113-135 | The signed value of a digit string when it fits int64, out of range otherwise. |
| Money.ParseYuan | pkg/money/money.go:68-136 | The answer is the amount the text denotes, or says that it denotes one out of range, is blank, or denotes none. |
| Money.AcceptedIffDenotesInt64 | pkg/money/money.go:68-136 | Such an answer is a success exactly when the text denotes an int64 amount. |
| Money.AnswerIsExact | pkg/money/money.go:68-136 | For a text that denotes an amount only one answer is right. |
| Money.DenotesIffGoodBody | pkg/money/money.go:68-136 | A text denotes an amount exactly when what trimming and taking the sign off leave is a good body, and it is the signed amount of that body. |
| Money.DenotesOne | pkg/money/money.go:68-136 | The notation is unambiguous. |
| Money.PrintedDenotes | pkg/money/money.go:25-35 | The printed form of every int64 amount denotes it. |
| Money.PrintsCanonically | pkg/money/money.go:25-35 | An amount is printed as the one text that denotes it in canonical form: a minus sign exactly for negative amounts, no plus, space or extra leading zero, and two digits after the point. |
| Money.RoundTrip | pkg/money/money.go:25-136 | Parsing a printed amount succeeds and gives it back, for every int64. |
| Money.PrintingIsInjective | pkg/money/money.go:25-35 | Different amounts print differently. |
| TokenLock.LockStore.SetIfAbsent | pkg/storage/redis_helpers.go:80-89 | Sets exactly when up and absent, with the given value and deadline; nothing changes otherwise. |
| TokenLock.LockStore.CompareAndDelete | pkg/storage/redis_cluster.go:238-244 | The script's three codes and their effects. |
| TokenLock.LockStore.ConsumeIfValue | pkg/storage/redis_helpers.go:118-134 | Removes the key exactly on a match; reports missing and mismatching keys without change. |
| TokenLock.LockStore.DeleteIfValue | pkg/storage/redis_helpers.go:138-147 | True exactly when the key was removed; missing and mismatch are no errors. |
| TokenLock.AcquisitionsExclude | pkg/storage/redis_helpers.go:80-134 | In every run, between two successful sets of a key the first was consumed or expired. |
| TokenLock.ReleaseEndsMatching | pkg/storage/redis_helpers.go:115-134 | A successful consume ends the latest acquisition of its key, made with the same value and not ended before. |
| TokenLock.AcquireSucceedsIff | pkg/storage/redis_helpers.go:79-89 | In every run a set succeeds exactly when its key has no holder at that time, whatever other keys hold; otherwise it is refused and nothing changes. |
| TokenLock.ReleaseSucceedsIff | pkg/storage/redis_helpers.go:115-134 | A release succeeds exactly when the key's holder at that time used the same value; otherwise not-found or mismatch, and nothing changes. |
| TokenLock.StaleReleaseIsHarmless | pkg/storage/redis_helpers.go:115-147 | If no two successful sets of the key used the same value, a release after the acquisition has ended answers not-found or mismatch and changes nothing. |
| TokenLock.SetIsConsumedOnce | pkg/storage/redis_helpers.go:115-134 | If no two successful sets of the key used the same value, each is consumed successfully at most once. |
| TokenLock.NoLateReleaseIff | pkg/storage/redis_helpers.go:115-147 | In every run, no client whose acquisition of a key has ended could release it at any time, if and only if no two successful sets of that key used the same value. |
| TokenLock.LeaseLapsesOnTime | pkg/storage/redis_helpers.go:79-89 | A key expires only after its holder's whole ttl, and never without one. |
| TokenLock.HolderIsCurrent | pkg/storage/redis_helpers.go:79-134 | In every state a key is stored exactly while it has a holder, under the holder's value, and the holder's ttl has not passed. |
| TokenLock.SharedValueIsNotSafe | pkg/storage/redis_helpers.go:115-147 | With a value used twice, a late release removes the successor's key. |
| FixedWindow.CounterStore.IncrementWithExpiry | pkg/storage/redis_helpers.go:104-113 | The call runs the script on the key: increment, then expiry if the value is one and the ttl has a whole second. |
| FixedWindow.CountsSinceOpener | pkg/storage/redis_cluster.go:230-236 | In every run, for any ttls, a call returns the number of calls since its window opened, and the deadline is the opener's, never extended. |
| FixedWindow.OpenerOpens | pkg/storage/redis_cluster.go:230-236 | No call of a window came after it was over, and its opener came after the previous one was over. |
| FixedWindow.LiveValue | pkg/storage/redis_cluster.go:230-236 | At any later time the key holds that count until the opener's window is over, then nothing. |
| FixedWindow.WindowEndsIff | pkg/storage/redis_helpers.go:103-113 | In every run the key ever disappears if and only if the ttl of its window's opener is at least a second. |
| FixedWindow.TtlIsHonouredIff | pkg/storage/redis_helpers.go:103-113 | In every run the key's deadline is the opener's time plus its ttl if and only if that ttl is a positive whole number of seconds. |
| FixedWindow.DeadlineIsClose | pkg/storage/redis_helpers.go:103-113 | In every run a ttl of at least a second is cut by less than a second and never lengthened. |
| FixedWindow.FractionIsCut | pkg/storage/redis_helpers.go:103-113 | With a ttl of 1.5 seconds the key is gone after 1.001. |
| FixedWindow.SubSecondTtlNeverResets | pkg/storage/redis_helpers.go:103-113 | After a first call with a shorter ttl the count never resets, whatever the later ttls. |
| RollingWindow.WindowStore.SetRollingWindow | pkg/storage/redis_cluster.go:1080-1152 | With the caller's time for the scores and Redis's for the expiry: prunes, returns what is left sorted by score, then adds its own member and renews the expiry. |
| RollingWindow.WindowStore.GetRollingWindow | pkg/storage/redis_cluster.go:1155-1203 | Prunes by the caller's time what Redis's clock has not expired, and returns it sorted by score. |
| RollingWindow.ReturnedIsInWindow | pkg/storage/redis_cluster.go:1080-1203 | In every run, with any delays and times out of order, a call returns only members whose latest earlier call is in its window. |
| RollingWindow.StoredIsInWindow | pkg/storage/redis_cluster.go:1103-1165 | In every run only members of a call's window, and its own, are stored after it. |
| RollingWindow.MemberIsRight | pkg/storage/redis_cluster.go:1110-1114 | The member added is the override, or the decimal notation of the time if the override is "-1". |
| RollingWindow.ExactIffOnTime | pkg/storage/redis_cluster.go:1080-1203 | From a state that holds the whole window, a call returns exactly its window if and only if Redis runs it before the latest Set's deadline has passed or the window is empty. |
| RollingWindow.WindowRefinesLogIff | pkg/storage/redis_cluster.go:1080-1203 | In every run with callers' times in order, for every window length and monotone rounding, all calls return exactly their windows if and only if all are on time in that sense. |
| RollingWindow.RecentIsReturned | pkg/storage/redis_cluster.go:1080-1203 | With delays of up to D a call returns every member that is in its window by more than D, and only members in its window. |
| RollingWindow.UndelayedIsExact | pkg/storage/redis_cluster.go:1080-1203 | Without delay, at any fixed distance between the clocks, a call returns exactly its window. |
| RollingWindow.LateCallMissesMember | pkg/storage/redis_cluster.go:1093-1126 | A call of 999.5 ms that Redis runs at 1001 ms misses a member set at 0 although its window of one second holds it. |
| RollingWindow.LogHoldsLatest | pkg/storage/redis_cluster.go:1106-1116 | The reference log holds, for each member, the time of the latest call that set it. |
| RollingWindow.GeneratedMembersDiffer | pkg/storage/redis_cluster.go:1110-1114 | Calls without an override at different times add different members. |
| RollingWindow.ExpiryComesLate | pkg/storage/redis_cluster.go:1117-1117 | With delays of up to D, when the key expires every score in it has left the window shortened by D. |
| Backoff.RetryDelay | pkg/storage/redis_cluster.go:276-291 | For every failure count and draw the delay is between half and all of min(2^(k-1), 30) seconds, after at most five doublings and without overflow. |
| Backoff.JitterStaysInBand | pkg/storage/redis_cluster.go:289-290 | Half the nominal delay plus any draw up to the other half lies in that band. |
| Backoff.NominalTable | pkg/storage/redis_cluster.go:58-60 | The nominal delays are 1, 2, 4, 8 and 16 seconds, and 30 from the sixth failure on. |
| RedisClient.ConnectedMeansUsable | pkg/storage/redis_cluster.go:88-95 | In every reachable state Connected equals the readiness flag, and the pool it vouches for has neither been closed nor been taken to be closed. |
| RedisClient.ReportsLatestIffOneLoop | pkg/storage/redis_cluster.go:87-195 | Over all interleavings of a set of Start loops with any Close calls, Connected is true exactly when the client is not stopped and the probe that ended last succeeded, whenever no outcome is left to be recorded, if and only if the set has at most one loop. |
| RedisClient.OneLoopReportsLatest | pkg/storage/redis_cluster.go:87-195 | With one Start loop that promise holds in every such state of every interleaving. |
| RedisClient.OvertakingProbeIsLost | pkg/storage/redis_cluster.go:179-188 | With two loops there is a run after which everything is recorded and Connected is true although the latest probe failed. |
| RedisClient.Client.Connect | pkg/storage/redis_cluster.go:106-125 | Keeps an existing pool, creates one only if not stopped, reports whether there is one. |
| RedisClient.Client.SetUp | pkg/storage/redis_cluster.go:127-136 | Changes readiness only while not stopped. |
| RedisClient.Client.Close | pkg/storage/redis_cluster.go:199-218 | Takes the pool, clears readiness, stops, and closes done the first time only. |
| RedisClient.LifecycleIsSafe | pkg/storage/redis_cluster.go:88-218 | Over every interleaving: at most one pool created, none closed twice, done closed at most once and exactly when stopped, stopped means no pool and not up, up means a pool, and a returned Start or Close left the client stopped. |
| RedisClient.StoppedIsFinal | pkg/storage/redis_cluster.go:197-218 | Once stopped, no step changes the fields again. |
| RedisClient.EveryPoolIsClosed | pkg/storage/redis_cluster.go:199-218 | Once stopped with no close in progress, every pool created was closed exactly once. |
| RedisClient.WaitsFollowBackoff | pkg/storage/redis_cluster.go:157-189 | Over every interleaving a loop waits for no time before its first probe, for 30 seconds after one that succeeded, and in the k-th band after k of its probes in a row failed, as told by what the pings answered. |
| RedisClient.EachTimerMakesAProbe | pkg/storage/redis_cluster.go:169-188 | Over every interleaving the timer of a loop fired once for each of its probes that has ended and for the one under way. |
| RedisClient.CanProbeAgain | pkg/storage/redis_cluster.go:169-188 | Whenever a loop of a client that is not stopped waits, its timer leads to one more probe, which can succeed or fail. |
| RedisClient.NilMeansContextEnded | pkg/storage/redis_cluster.go:170-178 | Over every interleaving a Start answers nil exactly if its context ended its wait. |
| RedisClient.ErrClosedMeansStopped | pkg/storage/redis_cluster.go:170-178 | The closed-client error is only answered by a stopped client. |
| RedisClient.StoppedLoopsWindDown | pkg/storage/redis_cluster.go:157-218 | However the schedule goes on after a stop, no goroutine takes more than seven further steps. |
| RedisClient.CanReturnUnaided | pkg/storage/redis_cluster.go:157-218 | From every state of every interleaving a goroutine can return in at most eight steps of its own, in a stopped client without waiting for its timer or its context. |
| RedisClient.ClosedClientRefusesStart | pkg/storage/redis_cluster.go:169-172 | A Start of a client that was closed before never waits, dials or probes, and can only answer the closed-client error. |
| GuardConfig.Configurations.Configure | gmicro/resilience/guard.go:146-157 | An undisturbed call loads only if nothing is stored, answers the load, and keeps the object only on success. |
| GuardConfig.CallsAnswerTheirLoad | gmicro/resilience/guard.go:146-157 | Over every interleaving loadRules starts at most once per object, and a call answers what it answered for the object the call obtained. |
| GuardConfig.QuietMeansLoaded | gmicro/resilience/guard.go:146-157 | With no call for a resource in flight, the object stored for it, if any, was loaded successfully. |
| GuardConfig.FailureIsRetried | gmicro/resilience/guard.go:146-157 | A call entering alone finds a successful load or starts over with a fresh object. |
| GuardConfig.OneObjectUntilFailure | gmicro/resilience/guard.go:146-157 | Over every interleaving, until a load for a resource fails, all calls for it share one stored object and loadRules starts at most once. |
| GuardConfig.RemovedIff | gmicro/resilience/guard.go:153-155 | In every state a step removes a stored object exactly when its call checks an object of that resource whose load failed. |
| GuardConfig.LateCheckDropsLoaded | gmicro/resilience/guard.go:153-155 | There is a run in which a late check of a failed object removes one that was loaded successfully. |
| GuardConfig.NobodyIsStuck | gmicro/resilience/guard.go:146-157 | Over every interleaving a call in flight can move, or waits for a call that is loading the same object and can move. |
| GuardConfig.CallsAreShort | gmicro/resilience/guard.go:146-157 | Over every interleaving a call makes at most four moves and then has returned. |
| GuardMetrics.OperationOutcome | gmicro/resilience/guard.go:186-197 | Success exactly without error, timeout exactly with a deadline error, canceled exactly with a cancellation and no deadline, never blocked. |
| GuardMetrics.Guard.Start | gmicro/resilience/guard.go:72-103 | A call not started leaves no trace, an admitted one raises inflight, a blocked one ends with a blocked request and a fallback for its reason. |
| GuardMetrics.Guard.Finish | gmicro/resilience/guard.go:113-130 | The first Finish lowers inflight and counts the outcome; later ones change nothing. |
| GuardMetrics.Guard.Do | gmicro/resilience/guard.go:131-145 | An operation is counted once, under its own error or, if it succeeded too late, the context's; one that is not started leaves no trace, or the blocked request and fallback of its Start. |
| GuardMetrics.CountersAreConserved | gmicro/resilience/guard.go:72-145 | In every state of every interleaving: inflight counts the calls holding it; requests, inflight and calls between two updates add up to the Starts that passed configuration; blocked requests are the fallbacks and those about to be. |
| GuardMetrics.SettledBooksBalance | gmicro/resilience/guard.go:72-145 | Between calls: inflight is started minus finished, requests plus inflight are the Starts that passed, fallbacks equal blocked requests. |
| GuardMetrics.PassesAreCalls | gmicro/resilience/guard.go:72-103 | The calls with a label are the Starts with it that passed configuration in the run. |
| GuardMetrics.ExtraFinishesAreIgnored | gmicro/resilience/guard.go:113-130 | In every interleaving, deleting every Finish of a call but its first leaves a schedule that can run and ends in the same state. |
| GuardMetrics.OneFinishRemains | gmicro/resilience/guard.go:113-130 | What is left has at most one Finish per call. |

## Left out

- Generated API code, entry points, business services, logging, search and configuration packages: no logic of this kind.
- Error messages, diagnostics, stack traces, formatting, `errors.As`, `Reduce`, message-count maps and string sets: easy members.
- Error types whose comparison panics although their type is comparable, and errors that unwrap to something else each time.
- Redis key prefixes and hashing, SCAN, lists, sets, publish/subscribe, cluster fan-out and the non-transactional pipeline.
- Replies lost on the network: an operation either runs and answers or reports that Redis is down.
- Float rounding of `ttl.Seconds()` for very long ttls, 64-bit overflow of a Redis counter, and window lengths whose nanoseconds overflow int64.
- Sentinel's rules, statistics and block types (a block comes with its reason), duration histograms and circuit-state metrics: admission is an arbitrary answer.
- Panics in a guarded operation or in `loadRules`.
- A caller that checks readiness and then uses a pool another goroutine closes in between.
- CodedErrors.ContractsStayBacked: errors of other packages that implement the coded interface are not built by these constructors and are not covered.
- RollingWindow.WindowRefinesLogIff: for callers whose times are in the order in which Redis runs them; out of order only ReturnedIsInWindow holds. ZRANGE's order among equal scores is left open.
- TokenLock.StaleReleaseIsHarmless: needs distinct values in the successful sets of the key, and NoLateReleaseIff shows that it has to.
- CodeRegistry.InterleavingsAgree: a panic of one registration ends the run; what another goroutine registers before the process is gone is not modelled.
- GuardConfig.CallsAnswerTheirLoad: one load per object, and per resource only until a load fails, because deletion is by key (LateCheckDropsLoaded).
