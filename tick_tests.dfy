/** The scenarios of the scheduler's test fixture, each as a method that drives
    a fresh scheduler and returns what the test observes. Each test starts and
    ends with Clear, as the fixture's set-up and tear-down do. Every closure of
    a test becomes its own action identity; `callCount` becomes the number of
    calls recorded for that action. The last two methods, TenShortUpdatesAtRateTwo
    and UpdatesInChunks, are not tests of the fixture: they extend its
    rate test (a single update by 1.0 s) to elapsed time split into pieces. */
module TickTests {
  import opened Wrappers
  import opened Timing
  import opened Registry
  import opened TickScheduler

  /** Registering an action on an empty registry creates the group at its
      rate holding that action alone, with no time accumulated. */
  lemma RegisterOnEmpty(rate: int, action: ActionId)
    requires rate > 0
    ensures Registered(map[], rate, Some(action)) == Success(map[rate := Group({action}, 0.0)])
  {
    assert {} + {action} == {action};
  }

  /** One update by `d` of a registry holding `action` alone at `rate`, with
      the leftover of `t` seconds: the group carries the leftover of t + d,
      and the calls it makes bring the total from TickCount(t) to
      TickCount(t + d). */
  lemma SingleActionStep(rate: int, action: ActionId, t: real, d: real)
    requires rate > 0 && t >= 0.0 && d >= 0.0
    ensures Advanced(map[rate := Group({action}, Remainder(t, rate))], d)
              == map[rate := Group({action}, Remainder(t + d, rate))]
    ensures TickCount(t, rate) + Firings(map[rate := Group({action}, Remainder(t, rate))], d)[action]
              == TickCount(t + d, rate)
  {
    var g := Group({action}, Remainder(t, rate));
    UpdateSingle(rate, g, d);
    FiresAtItsRate(map[rate := g], d, rate, action);
    CarryForward(t, d, rate);
  }

  /** One `Update(d)` of a scheduler holding `action` alone at `rate`, after
      `elapsed` seconds in all: afterwards the group carries the leftover of
      elapsed + d and the action's count is the firings due from that total. */
  method UpdateSingleAction(tick: Tick, rate: int, action: ActionId, elapsed: real, d: real)
    requires rate > 0 && elapsed >= 0.0 && d >= 0.0
    requires tick.Valid() && tick.groups == map[rate := Group({action}, Remainder(elapsed, rate))]
    requires tick.fired[action] == TickCount(elapsed, rate)
    modifies tick
    ensures tick.Valid() && tick.groups == map[rate := Group({action}, Remainder(elapsed + d, rate))]
    ensures tick.fired[action] == TickCount(elapsed + d, rate)
  {
    tick.Update(d);
    SingleActionStep(rate, action, elapsed, d);
  }

  /** A null action is refused with NullAction and registers nothing. */
  method RegisterThrowsOnNullAction() returns (outcome: Outcome<Error>, registry: Rates)
    ensures outcome == Fail(NullAction)
    ensures registry == map[]
  {
    var tick := new Tick();
    tick.Clear();
    outcome := tick.Register(1, None);
    registry := tick.groups;
    tick.Clear();
  }

  /** Rates 0 and -5 are refused with InvalidRate and register nothing. */
  method RegisterThrowsOnNonPositiveTicksPerSecond() returns (zero: Outcome<Error>, negative: Outcome<Error>, registry: Rates)
    ensures zero == Fail(InvalidRate) && negative == Fail(InvalidRate)
    ensures registry == map[]
  {
    var tick := new Tick();
    tick.Clear();
    zero := tick.Register(0, Some(0));
    negative := tick.Register(-5, Some(1));
    registry := tick.groups;
    tick.Clear();
  }

  /** Registering one action twice at rate 10 keeps it once, and an update by
      exactly one interval (0.1 s) calls it exactly once. */
  method RegisterAddsActionAndDoesNotDuplicate() returns (actions: set<ActionId>, callCount: nat)
    ensures actions == {0}
    ensures callCount == 1
  {
    var tick := new Tick();
    tick.Clear();
    var action: ActionId := 0;
    RegisterOnEmpty(10, action);
    var _ := tick.Register(10, Some(action));
    RegisterIdempotent(map[], 10, Some(action));
    var _ := tick.Register(10, Some(action));
    assert tick.groups == map[10 := Group({action}, 0.0)];
    actions := tick.groups[10].actions;
    tick.Update(0.1);
    FiresAtItsRate(map[10 := Group({action}, 0.0)], 0.1, 10, action);
    callCount := tick.FireCount(action);
    tick.Clear();
  }

  /** An action unregistered before the update is not called. */
  method UnregisterRemovesAction() returns (callCount: nat)
    ensures callCount == 0
  {
    var tick := new Tick();
    tick.Clear();
    var action: ActionId := 0;
    var _ := tick.Register(5, Some(action));
    tick.Unregister(5, action);
    assert tick.groups == map[5 := Group({}, 0.0)];
    tick.Update(1.0);
    UnregisteredNeverFires(map[5 := Group({}, 0.0)], 1.0, action);
    callCount := tick.FireCount(action);
    tick.Clear();
  }

  /** Unregistering an action nobody registered is no error and changes nothing. */
  method UnregisterDoesNothingIfActionNotFound() returns (registry: Rates)
    ensures registry == map[]
  {
    var tick := new Tick();
    tick.Clear();
    tick.Unregister(5, 0);
    registry := tick.groups;
    tick.Clear();
  }

  /** At 2 ticks per second, an update by 1.0 s calls the action exactly twice. */
  method UpdateExecutesRegisteredActionsAtCorrectRate() returns (callCount: nat)
    ensures callCount == 2
  {
    var tick := new Tick();
    tick.Clear();
    var action: ActionId := 0;
    RegisterOnEmpty(2, action);
    var _ := tick.Register(2, Some(action));
    assert tick.groups == map[2 := Group({action}, 0.0)];
    tick.Update(1.0);
    FiresAtItsRate(map[2 := Group({action}, 0.0)], 1.0, 2, action);
    callCount := tick.FireCount(action);
    tick.Clear();
  }

  /** An update with nothing registered calls nothing and leaves no group. */
  method UpdateDoesNotExecuteIfNoActions() returns (registry: Rates, calls: multiset<ActionId>)
    ensures registry == map[]
    ensures calls == multiset{}
  {
    var tick := new Tick();
    tick.Clear();
    tick.Update(1.0);
    UpdateEmpty(1.0);
    registry, calls := tick.groups, tick.fired;
    tick.Clear();
  }

  /** The group left empty at rate 3 is removed by the next update, and its
      former action is not called. */
  method UpdateRemovesEmptyGroups() returns (callCount: nat, registry: Rates)
    ensures callCount == 0
    ensures registry == map[]
  {
    var tick := new Tick();
    tick.Clear();
    var action: ActionId := 0;
    var _ := tick.Register(3, Some(action));
    tick.Unregister(3, action);
    assert tick.groups == map[3 := Group({}, 0.0)];
    tick.Update(1.0);
    UpdateSingle(3, Group({}, 0.0), 1.0);
    UnregisteredNeverFires(map[3 := Group({}, 0.0)], 1.0, action);
    callCount, registry := tick.FireCount(action), tick.groups;
    tick.Clear();
  }

  /** An action registered before Clear is not called by later updates. */
  method ClearResetsAllState() returns (callCount: nat)
    ensures callCount == 0
  {
    var tick := new Tick();
    tick.Clear();
    var action: ActionId := 0;
    var _ := tick.Register(1, Some(action));
    tick.Clear();
    tick.Update(1.0);
    UpdateEmpty(1.0);
    callCount := tick.FireCount(action);
    tick.Clear();
  }

  /** An extension of the fixture's rate test: ten updates by 0.1 s at 2 ticks
      per second call the action twice, as one update by 1.0 s does, because
      leftover time is carried from call to call. */
  method TenShortUpdatesAtRateTwo() returns (callCount: nat)
    ensures callCount == 2
  {
    var tick := new Tick();
    tick.Clear();
    var action: ActionId := 0;
    RegisterOnEmpty(2, action);
    var _ := tick.Register(2, Some(action));
    TickCountUnique(0.0, 2, 0);
    var i, elapsed := 0, 0.0;
    while i < 10
      invariant 0 <= i <= 10 && elapsed == (i as real) * 0.1
      invariant tick.Valid()
      invariant tick.groups == map[2 := Group({action}, Remainder(elapsed, 2))]
      invariant tick.fired[action] == TickCount(elapsed, 2)
    {
      UpdateSingleAction(tick, 2, action, elapsed, 0.1);
      i, elapsed := i + 1, elapsed + 0.1;
    }
    TickCountUnique(1.0, 2, 2);
    callCount := tick.FireCount(action);
    tick.Clear();
  }

  /** An extension of the fixture's rate test: however an elapsed time is
      split into updates, an action registered at `rate` is called exactly
      floor(total * rate) times. This is the scheduler-level form of
      Timing.ChunkingPreservesRate, and the count agrees with ChunkedTicks,
      the value-level count of the same updates. */
  method UpdatesInChunks(rate: int, deltas: seq<real>) returns (callCount: nat)
    requires rate > 0 && NonNegative(deltas)
    ensures Sum(deltas) >= 0.0
    ensures callCount == TickCount(Sum(deltas), rate)
    ensures callCount == ChunkedTicks(0.0, rate, deltas)
  {
    var tick := new Tick();
    tick.Clear();
    var action: ActionId := 0;
    RegisterOnEmpty(rate, action);
    var _ := tick.Register(rate, Some(action));
    TickCountUnique(0.0, rate, 0);
    assert deltas[..0] == [];
    var i, elapsed := 0, 0.0;
    while i < |deltas|
      invariant 0 <= i <= |deltas|
      invariant elapsed == Sum(deltas[..i]) && elapsed >= 0.0
      invariant tick.Valid()
      invariant tick.groups == map[rate := Group({action}, Remainder(elapsed, rate))]
      invariant tick.fired[action] == TickCount(elapsed, rate)
    {
      var d := deltas[i];
      UpdateSingleAction(tick, rate, action, elapsed, d);
      assert deltas[..i + 1] == deltas[..i] + [d];
      SumAppend(deltas[..i], d);
      i, elapsed := i + 1, elapsed + d;
    }
    assert deltas[..i] == deltas;
    ChunkingPreservesRate(0.0, rate, deltas);
    callCount := tick.FireCount(action);
    tick.Clear();
  }
}
