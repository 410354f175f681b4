/** The scheduler's registry as a value: rate groups keyed by ticks per second,
    and what each of the four operations does to it. The class in
    scheduler.dfy is specified by these functions. */
module Registry {
  import opened Wrappers
  import opened Timing

  /** The identity of a registered action: delegates that C# considers equal
      (same target and method) share one identity. */
  type ActionId = nat

  /** All actions registered at one rate, and the time accumulated at that rate
      that has not yet been turned into a firing. */
  datatype Group = Group(actions: set<ActionId>, acc: real)

  /** The registry: ticks per second to the group registered at that rate. */
  type Rates = map<int, Group>

  /** Why a registration is refused: ArgumentNullException for a null action,
      ArgumentException for a rate that is not positive. */
  datatype Error = NullAction | InvalidRate

  /** Every key is a positive rate whose leftover time is less than one interval. */
  ghost predicate WellFormed(groups: Rates)
  {
    forall r | r in groups :: r > 0 && 0.0 <= groups[r].acc < Interval(r)
  }

  /** The group found at `rate`, or the fresh group that would be created there. */
  function GroupAt(groups: Rates, rate: int): (g: Group)
    ensures rate in groups ==> g == groups[rate]
    ensures rate !in groups ==> g == Group({}, 0.0)
    ensures WellFormed(groups) && rate > 0 ==> 0.0 <= g.acc < Interval(rate)
  {
    if rate in groups then groups[rate] else Group({}, 0.0)
  }

  /** The registry after `Register(rate, action)`, or the reason it is refused. */
  function Registered(groups: Rates, rate: int, action: Option<ActionId>): (r: Result<Rates, Error>)
    ensures action.None? ==> r == Failure(NullAction)
    ensures action.Some? && rate <= 0 ==> r == Failure(InvalidRate)
    ensures action.Some? && rate > 0 ==>
              && r.Success?
              && r.value.Keys == groups.Keys + {rate}
              && r.value[rate].actions == GroupAt(groups, rate).actions + {action.value}
              && r.value[rate].acc == GroupAt(groups, rate).acc
              && (forall q | q in groups && q != rate :: r.value[q] == groups[q])
  {
    match action
    case None => Failure(NullAction)
    case Some(a) =>
      if rate <= 0 then Failure(InvalidRate)
      else
        var g := GroupAt(groups, rate);
        Success(groups[rate := g.(actions := g.actions + {a})])
  }

  /** The registry after `Unregister(rate, action)`. A group left without
      actions stays until the next update removes it. */
  function Unregistered(groups: Rates, rate: int, action: ActionId): (r: Rates)
    ensures r.Keys == groups.Keys
    ensures rate in groups ==> r[rate] == groups[rate].(actions := groups[rate].actions - {action})
    ensures forall q | q in groups && q != rate :: r[q] == groups[q]
    ensures rate !in groups || action !in groups[rate].actions ==> r == groups
  {
    if rate in groups && action in groups[rate].actions then
      var g := groups[rate];
      groups[rate := g.(actions := g.actions - {action})]
    else groups
  }

  /** Each action of `actions`, `n` times over: the calls made by n firings. */
  function Repeat(actions: set<ActionId>, n: nat): (calls: multiset<ActionId>)
    ensures forall a :: calls[a] == if a in actions then n else 0
  {
    if n == 0 then multiset{} else Repeat(actions, n - 1) + multiset(actions)
  }

  /** The group at `rate` after `delta` more seconds: its actions, and the
      time left over once every due firing has been taken out. */
  function AdvanceGroup(rate: int, g: Group, delta: real): (next: Group)
    requires rate > 0 && g.acc >= 0.0 && delta >= 0.0
    ensures next.actions == g.actions
    ensures 0.0 <= next.acc < Interval(rate)
    ensures g.acc + delta == next.acc + (TickCount(g.acc + delta, rate) as real) * Interval(rate)
  {
    g.(acc := Remainder(g.acc + delta, rate))
  }

  /** The calls one group makes during an update by `delta`: every action
      once per interval that fits into the accumulated time. */
  function GroupFirings(rate: int, g: Group, delta: real): (calls: multiset<ActionId>)
    requires rate > 0 && g.acc >= 0.0 && delta >= 0.0
    ensures forall a :: calls[a] == if a in g.actions then TickCount(g.acc + delta, rate) else 0
  {
    Repeat(g.actions, TickCount(g.acc + delta, rate))
  }

  /** A non-empty set of rates has an element. */
  lemma SomeRate(rates: set<int>)
    requires rates != {}
    ensures exists r :: r in rates
  {
    if forall r :: r !in rates { assert false; }
  }

  /** Some rate of a non-empty registry. */
  ghost function Pick(groups: Rates): (r: int)
    requires groups.Keys != {}
    ensures r in groups
  {
    SomeRate(groups.Keys);
    var r :| r in groups.Keys; r
  }

  /** Every action registered at some rate. */
  ghost function ActionsOf(groups: Rates): set<ActionId>
  {
    set q, a | q in groups && a in groups[q].actions :: a
  }

  /** All calls an update by `delta` makes, over every group of the registry. */
  ghost function Firings(groups: Rates, delta: real): (calls: multiset<ActionId>)
    requires WellFormed(groups) && delta >= 0.0
    ensures forall a | a in calls :: a in ActionsOf(groups)
    decreases |groups|
  {
    if groups.Keys == {} then multiset{}
    else
      var r := Pick(groups);
      GroupFirings(r, groups[r], delta) + Firings(groups - {r}, delta)
  }

  /** The registry after an update by `delta`: every group advanced, and every
      group without actions removed. */
  function Advanced(groups: Rates, delta: real): (r: Rates)
    requires WellFormed(groups) && delta >= 0.0
    ensures WellFormed(r)
    ensures forall q :: q in r <==> q in groups && groups[q].actions != {}
    ensures forall q | q in r :: r[q].actions == groups[q].actions != {}
    ensures forall q | q in r :: r[q] == AdvanceGroup(q, groups[q], delta)
  {
    map q | q in groups && groups[q].actions != {} :: AdvanceGroup(q, groups[q], delta)
  }

  /** The groups of `groups` whose rates lie in `keys`. */
  function Restrict(groups: Rates, keys: set<int>): (r: Rates)
    ensures r.Keys == groups.Keys * keys
    ensures forall q | q in r :: r[q] == groups[q]
    ensures WellFormed(groups) ==> WellFormed(r)
  {
    map q | q in groups && q in keys :: groups[q]
  }

  /** Restricting a registry to a superset of its rates changes nothing. */
  lemma RestrictToAll(groups: Rates, keys: set<int>)
    requires groups.Keys <= keys
    ensures Restrict(groups, keys) == groups
  {
    var r := Restrict(groups, keys);
    assert r.Keys == groups.Keys;
    assert forall q | q in r :: r[q] == groups[q];
  }

  /** Registration is idempotent: registering an action a second time at the
      same rate leaves the registry as the first registration left it. */
  lemma RegisterIdempotent(groups: Rates, rate: int, action: Option<ActionId>)
    requires Registered(groups, rate, action).Success?
    ensures Registered(Registered(groups, rate, action).value, rate, action) == Registered(groups, rate, action)
  {
    var once := Registered(groups, rate, action).value;
    var twice := Registered(once, rate, action).value;
    assert twice == once;
  }

  /** Registration keeps the registry well formed: a new group starts with no
      leftover time. */
  lemma RegisterWellFormed(groups: Rates, rate: int, action: Option<ActionId>)
    requires WellFormed(groups)
    ensures Registered(groups, rate, action).Success? ==> WellFormed(Registered(groups, rate, action).value)
  {
  }

  /** Removing an action keeps the registry well formed. */
  lemma UnregisterWellFormed(groups: Rates, rate: int, action: ActionId)
    requires WellFormed(groups)
    ensures WellFormed(Unregistered(groups, rate, action))
  {
  }

  /** The calls of an update do not depend on the order in which the groups
      are visited: any group may be taken out first. */
  lemma {:induction false} FiringsOf(groups: Rates, delta: real, r: int)
    requires WellFormed(groups) && delta >= 0.0 && r in groups
    ensures Firings(groups, delta) == GroupFirings(r, groups[r], delta) + Firings(groups - {r}, delta)
    decreases |groups|
  {
    var p := Pick(groups);
    if p != r {
      var rest, other := groups - {p}, groups - {r};
      var both := rest - {r};
      assert both == other - {p};
      assert |rest| < |groups| by { assert rest.Keys == groups.Keys - {p}; }
      assert |other| < |groups| by { assert other.Keys == groups.Keys - {r}; }
      assert rest[r] == groups[r] && other[p] == groups[p];
      var gp, gr := GroupFirings(p, groups[p], delta), GroupFirings(r, groups[r], delta);
      assert Firings(groups, delta) == gp + Firings(rest, delta);
      FiringsOf(rest, delta, r);
      assert Firings(rest, delta) == gr + Firings(both, delta);
      FiringsOf(other, delta, p);
      assert Firings(other, delta) == gp + Firings(both, delta);
    }
  }

  /** An update calls an action only through the groups it is registered in:
      an action in no group is not called at all. */
  lemma {:induction false} UnregisteredNeverFires(groups: Rates, delta: real, a: ActionId)
    requires WellFormed(groups) && delta >= 0.0
    requires forall q | q in groups :: a !in groups[q].actions
    ensures Firings(groups, delta)[a] == 0
    decreases |groups|
  {
    if groups.Keys != {} {
      var r := Pick(groups);
      assert |groups - {r}| < |groups| by { assert (groups - {r}).Keys == groups.Keys - {r}; }
      UnregisteredNeverFires(groups - {r}, delta, a);
    }
  }

  /** An action registered at exactly one rate is called once per interval of
      that rate that fits into the group's accumulated time. */
  lemma FiresAtItsRate(groups: Rates, delta: real, rate: int, a: ActionId)
    requires WellFormed(groups) && delta >= 0.0 && rate in groups
    requires a in groups[rate].actions
    requires forall q | q in groups && q != rate :: a !in groups[q].actions
    ensures Firings(groups, delta)[a] == TickCount(groups[rate].acc + delta, rate)
  {
    FiringsOf(groups, delta, rate);
    UnregisteredNeverFires(groups - {rate}, delta, a);
  }

  /** An update of a registry holding one group advances that group alone,
      and removes it when it has no actions. */
  lemma {:induction false} UpdateSingle(rate: int, g: Group, delta: real)
    requires rate > 0 && 0.0 <= g.acc < Interval(rate) && delta >= 0.0
    ensures Advanced(map[rate := g], delta)
              == if g.actions == {} then map[] else map[rate := AdvanceGroup(rate, g, delta)]
    ensures Firings(map[rate := g], delta) == GroupFirings(rate, g, delta)
  {
    var single := map[rate := g];
    var r := Advanced(single, delta);
    if g.actions == {} {
      assert r.Keys == {};
    } else {
      assert r.Keys == {rate};
    }
    FiringsOf(single, delta, rate);
    assert (single - {rate}).Keys == {};
  }

  /** Once an update has removed a group left without actions, registering
      at that rate again starts a fresh group: no leftover time carries over. */
  lemma ReRegisterAfterReap(groups: Rates, delta: real, rate: int, action: ActionId)
    requires WellFormed(groups) && delta >= 0.0
    requires rate in groups && groups[rate].actions == {}
    ensures Registered(Advanced(groups, delta), rate, Some(action)).Success?
    ensures Registered(Advanced(groups, delta), rate, Some(action)).value[rate] == Group({action}, 0.0)
  {
    assert rate !in Advanced(groups, delta);
    assert {} + {action} == {action};
  }

  /** An update of an empty registry calls nothing and leaves it empty. */
  lemma UpdateEmpty(delta: real)
    requires delta >= 0.0
    ensures Advanced(map[], delta) == map[]
    ensures Firings(map[], delta) == multiset{}
  {
  }
}
