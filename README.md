# Tick: a fixed-rate callback scheduler, modelled in Dafny

`Tick` is the scheduler of the Unity.Systems.Tick package. Callers register an
action at a rate, given in ticks per second. A host loop calls `Update(delta)`
once per frame. Each rate group collects the elapsed time. For every whole
interval `1 / rate` that fits into the collected time, `Update` calls every
action of the group once. The left-over time is carried into the next call.

- `Register(rate, action)` refuses a null action (`ArgumentNullException`).
  It refuses a rate that is not positive (`ArgumentException`).
- `Register` adds an action to its rate group at most once.
- `Unregister(rate, action)` is a silent no-op when the rate or the action is
  unknown.
- `Update` removes the groups that have no actions left.
- `Clear` empties the registry.

The scheduler's own source is not part of this model. The behaviour modelled
is the behaviour the NUnit fixture `Tests/TickTests.cs` asserts of it. The
model follows the fixture's scenarios and what the scheduler must do to pass
them.

Modules:

- `Wrappers` (wrappers.dfy) holds `Option`, `Outcome` and `Result`. A null
  action is `None`. A thrown exception is a `Fail`/`Failure` value.
- `Timing` (timing.dfy) has the interval arithmetic. `TickCount(t, rate)` is
  the number of firings due when `t` seconds have accumulated. `Remainder` is
  the time left over. It also proves that carrying the remainder between
  updates preserves the rate, however the time is split into calls.
- `Registry` (registry.dfy) treats the registry as a value: a map from rate
  to `Group(actions, acc)`. It specifies what each operation does to that
  value. The ghost function `Firings` gives the multiset of action calls an
  update makes. A lemma proves that this multiset does not depend on the
  order in which groups are visited.
- `TickScheduler` (scheduler.dfy) holds the class `Tick`. Its fields are the
  registry and `fired`, the multiset of every action call made so far, which
  stands for the closures' side effects. `Register`, `Unregister`, `Clear`
  and `Update` change these fields in place. `Update` visits the groups in
  an arbitrary order. For each group it runs the inner loop
  `while (acc >= interval) { call every action; acc -= interval; }`
  (`FireDue`). Each method is proved against the `Registry` functions.
- `TickTests` (tick_tests.dfy) turns every `[Test]` of the fixture into a
  method, and adds two methods that extend the rate test to elapsed time
  split into several updates. Each method drives a fresh `Tick` between two
  `Clear` calls, which stand for `SetUp` and `TearDown`. Its `ensures`
  clause is the test's assertion.

## Model

| member | source | states |
|---|---|---|
| `Timing.Interval` | Tests/TickTests.cs:76-80 | The interval between firings is positive, at most one second, and rate intervals make exactly one second (0.5 s at 2 ticks per second) |
| `Timing.TickCount` | Tests/TickTests.cs:74-83 | The firings due from accumulated time t at a rate are the n with n intervals at most t and t less than n + 1 intervals, i.e. floor(t * rate) |
| `Timing.Remainder` | Tests/TickTests.cs:74-83 | The carried-over time is less than one interval and not negative, and the due firings' intervals plus it add up to the accumulated time |
| `Timing.TickCountUnique` | Tests/TickTests.cs:38-50 | n is the firing count exactly when n intervals fit into t and less than one interval is left. So the loop that fires while acc >= interval runs TickCount times, and time equal to one interval counts as one tick |
| `Timing.CarryForward` | Tests/TickTests.cs:74-83 | Firings from t, plus firings from t's remainder plus d, equal firings from t + d; the remainders agree too |
| `Timing.ChunkedTicks` | Tests/TickTests.cs:74-83 | The firings of one group over successive updates, carrying the remainder between calls, never cover more than the elapsed time: their intervals are at most the leftover plus the sum of the updates |
| `Timing.ChunkingPreservesRate` | Tests/TickTests.cs:74-83 | Over any sequence of non-negative updates, a group starting with less than one interval fires as often as a single update by the total would make it fire |
| `Registry.GroupAt` | Tests/TickTests.cs:38-50 | The group that registration extends already keeps the invariant: in a well-formed registry, at a positive rate, its leftover time is non-negative and below one interval, whether it is found or freshly created with no actions and no leftover |
| `Registry.Registered` | Tests/TickTests.cs:24-50 | A null action fails with NullAction. A rate <= 0 fails with InvalidRate. Otherwise the group at the rate gains the action, keeps its leftover time or starts at 0, and every other group is unchanged |
| `Registry.RegisterIdempotent` | Tests/TickTests.cs:38-50 | Registering the same action at the same rate again leaves the registry as the first registration left it |
| `Registry.RegisterWellFormed` | Tests/TickTests.cs:38-50 | A successful registration keeps every rate positive and every leftover below one interval |
| `Registry.Unregistered` | Tests/TickTests.cs:52-71 | The action leaves the group at its rate. No key is added or removed. Other groups are unchanged. An unknown rate or action leaves the registry equal to what it was |
| `Registry.UnregisterWellFormed` | Tests/TickTests.cs:52-71 | Unregistering keeps every rate positive and every leftover below one interval |
| `Registry.Repeat` | Tests/TickTests.cs:74-83 | n firings of a group call each of its actions exactly n times and nothing else |
| `Registry.AdvanceGroup` | Tests/TickTests.cs:74-83 | An advanced group keeps its actions. Its new leftover is below one interval. Old leftover plus delta equals new leftover plus the due firings' intervals |
| `Registry.GroupFirings` | Tests/TickTests.cs:74-83 | During an update, every action of a group is called TickCount(acc + delta) times and no other action is called |
| `Registry.Advanced` | Tests/TickTests.cs:97-106 | A rate remains after an update exactly when its group has actions. No empty group remains. Each remaining group is its advanced form, so it keeps its actions and carries its remainder. The registry stays well formed |
| `Registry.Firings` | Tests/TickTests.cs:74-83 | The multiset of calls one update makes, summed over all groups; every action called is registered at some rate |
| `Registry.Restrict` | Tests/TickTests.cs:86-106 | Keeping only some rates gives the registry with exactly those rates and their unchanged groups, and it stays well formed |
| `Registry.FiringsOf` | Tests/TickTests.cs:74-83 | The calls of an update are one group's calls plus those of the rest, for any group, so the order of visiting groups does not matter |
| `Registry.UnregisteredNeverFires` | Tests/TickTests.cs:52-64 | An action that is in no group is called zero times by an update |
| `Registry.FiresAtItsRate` | Tests/TickTests.cs:74-83 | An action registered at exactly one rate is called floor((acc + delta) * rate) times by an update |
| `Registry.UpdateSingle` | Tests/TickTests.cs:97-106 | With a single group, an update advances that group alone and removes it if it has no actions. The calls are that group's calls |
| `Registry.ReRegisterAfterReap` | Tests/TickTests.cs:97-106 | Re-registering at a rate whose empty group an update removed starts a fresh group with no leftover time |
| `Registry.UpdateEmpty` | Tests/TickTests.cs:85-90 | An update of an empty registry leaves it empty and calls nothing |
| `TickScheduler.TickCountStep` | Tests/TickTests.cs:74-83 | Taking one interval out of time of at least one interval leaves exactly one firing fewer due and the same leftover, so the firing loop terminates and keeps the remainder it will end with |
| `TickScheduler.PartlyAdvanced` | Tests/TickTests.cs:97-106 | Part way through an update, once no group is left to visit, the registry is the fully advanced one |
| `TickScheduler.NoneVisited` | Tests/TickTests.cs:86-106 | Before any group is visited, the registry is unchanged and no calls have been made |
| `TickScheduler.VisitGroup` | Tests/TickTests.cs:97-106 | Visiting a group replaces it by its advanced form, or removes it when it has no actions |
| `TickScheduler.VisitGroupFirings` | Tests/TickTests.cs:74-83 | Visiting a group adds exactly that group's calls to the calls made so far |
| `TickScheduler.Tick.FireCount` | Tests/TickTests.cs:40-49 | Returns the number of recorded calls of the action, the test's `callCount`; the `TickTests` methods prove its values |
| `TickScheduler.Tick.constructor` | Tests/TickTests.cs:10-15 | A new scheduler has no groups and has made no calls |
| `TickScheduler.Tick.Register` | Tests/TickTests.cs:24-50 | Returns the error of `Registered` and leaves the registry unchanged, or passes and sets the registry to `Registered`'s result. Calls are untouched |
| `TickScheduler.Tick.Unregister` | Tests/TickTests.cs:52-71 | Sets the registry to `Unregistered`'s result and never fails. Calls are untouched |
| `TickScheduler.Tick.Clear` | Tests/TickTests.cs:10-22 | Leaves an empty, well-formed registry from any state, so it is idempotent. Calls already made are untouched |
| `TickScheduler.Tick.FireDue` | Tests/TickTests.cs:74-83 | The inner firing loop adds delta, then calls every action once per interval while at least one interval remains. Its result is the advanced group and exactly `GroupFirings` |
| `TickScheduler.Tick.AdvanceAll` | Tests/TickTests.cs:72-106 | Visiting every group in any order and dropping the empty ones gives `Advanced` and makes exactly the calls `Firings` |
| `TickScheduler.Tick.Update` | Tests/TickTests.cs:72-106 | The new registry is `Advanced(old, delta)`. The new call record is the old one plus `Firings(old, delta)`. The registry stays well formed |
| `TickTests.RegisterOnEmpty` | Tests/TickTests.cs:38-50 | Registering on an empty registry creates a group holding only that action, with no leftover time |
| `TickTests.SingleActionStep` | Tests/TickTests.cs:73-83 | With one action alone at a rate and the leftover of t seconds, an update by d leaves the leftover of t + d, and its calls of the action bring the number due from t up to the number due from t + d |
| `TickTests.UpdateSingleAction` | Tests/TickTests.cs:73-83 | The same step on the scheduler object: after `Update(d)` the registry and the action's call count are those of t + d seconds in all |
| `TickTests.RegisterThrowsOnNullAction` | Tests/TickTests.cs:24-28 | `Register(1, null)` fails with NullAction and the registry stays empty |
| `TickTests.RegisterThrowsOnNonPositiveTicksPerSecond` | Tests/TickTests.cs:30-35 | `Register(0, a)` and `Register(-5, b)` both fail with InvalidRate and the registry stays empty |
| `TickTests.RegisterAddsActionAndDoesNotDuplicate` | Tests/TickTests.cs:37-50 | After registering one action twice at rate 10, the group holds it once, and `Update(0.1)` calls it exactly once |
| `TickTests.UnregisterRemovesAction` | Tests/TickTests.cs:52-64 | After `Register(5, a)` and `Unregister(5, a)`, `Update(1.0)` calls `a` zero times |
| `TickTests.UnregisterDoesNothingIfActionNotFound` | Tests/TickTests.cs:66-71 | `Unregister(5, a)` of an unknown action does not fail and leaves the registry empty |
| `TickTests.UpdateExecutesRegisteredActionsAtCorrectRate` | Tests/TickTests.cs:73-83 | At rate 2, `Update(1.0)` calls the action exactly twice |
| `TickTests.UpdateDoesNotExecuteIfNoActions` | Tests/TickTests.cs:85-90 | `Update(1.0)` with nothing registered calls nothing and leaves the registry empty |
| `TickTests.UpdateRemovesEmptyGroups` | Tests/TickTests.cs:92-106 | After register and unregister at rate 3, `Update(1.0)` calls nothing and removes the rate-3 group |
| `TickTests.ClearResetsAllState` | Tests/TickTests.cs:108-120 | An action registered before `Clear` is called zero times by `Update(1.0)` |
| `TickTests.TenShortUpdatesAtRateTwo` | Tests/TickTests.cs:73-83 | Not a test of the fixture; it extends the rate test, which makes a single `Update(1.0)`, to split time: ten `Update(0.1)` calls at rate 2 call the action twice |
| `TickTests.UpdatesInChunks` | Tests/TickTests.cs:73-83 | Not a test of the fixture; it extends the rate test to any split: for any rate and any non-negative updates, a registered action is called floor(total * rate) times, the count `ChunkedTicks` gives for the same updates |

## Left out

- Single-precision floats. The fixture passes `0.1f` and `1.0f`. The model
  uses exact reals, so the boundary case 0.1 >= 1/10 holds exactly. With
  binary floats it depends on rounding.
- What the actions do. Each call is recorded as one entry for the action's
  identity in `fired`. Exceptions thrown by an action are not modelled.
  Neither are calls from inside an action back into the scheduler.
- The host loop that calls `Update` every frame, and NUnit's attributes.
- The scheduler's process-wide static state. It is modelled as one explicit
  `Tick` object, made fresh in each test method.
- Thread safety. The scheduler is used from a single thread.
- The order of calls. The fixture does not fix an order across groups or
  within a group, so `fired` is a multiset.
- TickScheduler.Tick.Update: requires `delta >= 0`. The fixture never passes
  a negative elapsed time, and the scheduler's behaviour for one is not
  given.
- TickScheduler.Tick.Unregister: takes a non-null action identity. The fixture
  never unregisters null, and nothing fixes what that would do.
- Registry.Registered: when the action is null and the rate is not positive,
  the model reports NullAction. The fixture never passes both at once.
- Registry.Unregistered: a group left without actions stays until the next
  `Update` removes it. The test `Update_RemovesEmptyGroups` names this lazy
  removal. Removing the group at once would also pass every test. The two
  choices differ when an action is registered again before the next
  `Update`: the emptied group then keeps its old leftover time. After
  `Register(5, a); Update(0.1); Unregister(5, a); Register(5, a);
  Update(0.1)` the model has called `a` once; removing the group at once
  would leave it uncalled.
- Rates are integers. Every rate in the fixture is an integer literal.
