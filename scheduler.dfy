/** The fixed-rate callback scheduler as an object whose registry the four
    operations update in place. Actions are identities; each call of an action
    is recorded in `fired`, which stands for the side effects of the closures
    the callers register (the `callCount++` of the tests). */
module TickScheduler {
  import opened Wrappers
  import opened Timing
  import opened Registry

  /** Taking one interval out of accumulated time leaves one firing fewer due
      and the same time left over. */
  lemma TickCountStep(t: real, rate: int)
    requires rate > 0 && t >= Interval(rate)
    ensures TickCount(t - Interval(rate), rate) == TickCount(t, rate) - 1
    ensures Remainder(t - Interval(rate), rate) == Remainder(t, rate)
  {
    var i := Interval(rate);
    var n := TickCount(t, rate);
    assert ((n - 1) as real) * i == (n as real) * i - i;
    TickCountUnique(t - i, rate, n - 1);
  }

  /** The registry part way through an update: the groups still to visit as
      they were, the groups already visited advanced, or removed when they
      have no actions. */
  function PartlyAdvanced(snapshot: Rates, pending: set<int>, delta: real): (r: Rates)
    requires WellFormed(snapshot) && delta >= 0.0
    ensures pending == {} ==> r == Advanced(snapshot, delta)
  {
    map q | q in snapshot && (q in pending || snapshot[q].actions != {}) ::
      if q in pending then snapshot[q] else AdvanceGroup(q, snapshot[q], delta)
  }

  /** Before any group is visited, the registry is as it was and no calls
      have been made. */
  lemma NoneVisited(snapshot: Rates, delta: real)
    requires WellFormed(snapshot) && delta >= 0.0
    ensures PartlyAdvanced(snapshot, snapshot.Keys, delta) == snapshot
    ensures Firings(Restrict(snapshot, {}), delta) == multiset{}
  {
    var p := PartlyAdvanced(snapshot, snapshot.Keys, delta);
    assert p.Keys == snapshot.Keys;
    assert Restrict(snapshot, {}).Keys == {};
  }

  /** Visiting one more group advances it, or removes it when it has no actions. */
  lemma VisitGroup(snapshot: Rates, pending: set<int>, delta: real, rate: int)
    requires WellFormed(snapshot) && delta >= 0.0 && pending <= snapshot.Keys && rate in pending
    ensures var next := AdvanceGroup(rate, snapshot[rate], delta);
            var before := PartlyAdvanced(snapshot, pending, delta);
            PartlyAdvanced(snapshot, pending - {rate}, delta)
              == if next.actions == {} then before - {rate} else before[rate := next]
  {
    var next := AdvanceGroup(rate, snapshot[rate], delta);
    var before := PartlyAdvanced(snapshot, pending, delta);
    var after := PartlyAdvanced(snapshot, pending - {rate}, delta);
    var expected := if next.actions == {} then before - {rate} else before[rate := next];
    assert after.Keys == expected.Keys;
    assert forall q | q in after :: after[q] == expected[q];
  }

  /** The calls of the visited groups grow by those of the group visited next. */
  lemma VisitGroupFirings(snapshot: Rates, done: set<int>, delta: real, rate: int)
    requires WellFormed(snapshot) && delta >= 0.0 && rate in snapshot && rate !in done
    ensures Firings(Restrict(snapshot, done + {rate}), delta)
              == Firings(Restrict(snapshot, done), delta) + GroupFirings(rate, snapshot[rate], delta)
  {
    FiringsOf(Restrict(snapshot, done + {rate}), delta, rate);
    assert Restrict(snapshot, done + {rate}) - {rate} == Restrict(snapshot, done);
  }

  class Tick {
    /** The registry: ticks per second to the group registered at that rate. */
    var groups: Rates
    /** Every call of a registered action made so far, one entry per call. */
    var fired: multiset<ActionId>

    ghost predicate Valid()
      reads this
    {
      WellFormed(groups)
    }

    /** How many times action `a` has been called. */
    function FireCount(a: ActionId): (n: nat)
      reads this
      ensures n > 0 <==> a in fired
    {
      fired[a]
    }

    /** A scheduler with no groups and no calls made. */
    constructor ()
      ensures Valid() && groups == map[] && fired == multiset{}
    {
      groups := map[];
      fired := multiset{};
    }

    /** Subscribes `action` at `rate` ticks per second. A null action fails with
        NullAction, a rate that is not positive with InvalidRate; either way the
        registry is left as it was. */
    method Register(rate: int, action: Option<ActionId>) returns (outcome: Outcome<Error>)
      requires Valid()
      modifies this
      ensures Valid() && fired == old(fired)
      ensures match Registered(old(groups), rate, action)
                case Success(next) => outcome == Pass && groups == next
                case Failure(e) => outcome == Fail(e) && groups == old(groups)
    {
      match action
      case None =>
        outcome := Fail(NullAction);
      case Some(a) =>
        if rate <= 0 {
          outcome := Fail(InvalidRate);
        } else {
          var g := GroupAt(groups, rate);
          groups := groups[rate := g.(actions := g.actions + {a})];
          outcome := Pass;
        }
    }

    /** Unsubscribes `action` from `rate`; an unknown rate or action is no error. */
    method Unregister(rate: int, action: ActionId)
      requires Valid()
      modifies this
      ensures Valid() && fired == old(fired)
      ensures groups == Unregistered(old(groups), rate, action)
    {
      if rate in groups && action in groups[rate].actions {
        var g := groups[rate];
        groups := groups[rate := g.(actions := g.actions - {action})];
      }
    }

    /** Removes every group and every registered action. */
    method Clear()
      modifies this
      ensures Valid() && fired == old(fired)
      ensures groups == map[]
    {
      groups := map[];
    }

    /** One group's share of an update: the accumulated time grows by `delta`;
        while it is at least one interval, every action of the group is called
        once and one interval is taken out. */
    static method FireDue(rate: int, g: Group, delta: real) returns (next: Group, calls: multiset<ActionId>)
      requires rate > 0 && g.acc >= 0.0 && delta >= 0.0
      ensures next == AdvanceGroup(rate, g, delta)
      ensures calls == GroupFirings(rate, g, delta)
    {
      var interval := Interval(rate);
      var acc := g.acc + delta;
      ghost var rounds: nat := 0;
      calls := multiset{};
      while acc >= interval
        invariant 0.0 <= acc
        invariant rounds + TickCount(acc, rate) == TickCount(g.acc + delta, rate)
        invariant Remainder(acc, rate) == Remainder(g.acc + delta, rate)
        invariant calls == Repeat(g.actions, rounds)
        decreases TickCount(acc, rate)
      {
        TickCountStep(acc, rate);
        calls := calls + multiset(g.actions);
        acc := acc - interval;
        rounds := rounds + 1;
      }
      TickCountUnique(acc, rate, 0);
      next := g.(acc := acc);
    }

    /** The registry and the calls after advancing every group of `snapshot`
        by `delta` seconds, visiting the groups in any order and dropping
        each group that has no actions once it has been visited. */
    static method AdvanceAll(snapshot: Rates, delta: real) returns (live: Rates, calls: multiset<ActionId>)
      requires WellFormed(snapshot) && delta >= 0.0
      ensures live == Advanced(snapshot, delta)
      ensures calls == Firings(snapshot, delta)
    {
      live := snapshot;
      calls := multiset{};
      var pending := snapshot.Keys;
      ghost var done: set<int> := {};
      NoneVisited(snapshot, delta);
      while pending != {}
        invariant pending !! done && pending + done == snapshot.Keys
        invariant live == PartlyAdvanced(snapshot, pending, delta)
        invariant calls == Firings(Restrict(snapshot, done), delta)
        decreases pending
      {
        SomeRate(pending);
        var rate :| rate in pending;
        var next, due := FireDue(rate, snapshot[rate], delta);
        VisitGroup(snapshot, pending, delta, rate);
        VisitGroupFirings(snapshot, done, delta, rate);
        calls := calls + due;
        if next.actions == {} {
          live := live - {rate};
        } else {
          live := live[rate := next];
        }
        pending := pending - {rate};
        done := done + {rate};
      }
      RestrictToAll(snapshot, done);
    }

    /** Advances every group by `delta` seconds, calling each action once per
        interval due, then removes the groups left without actions. */
    method Update(delta: real)
      requires Valid() && delta >= 0.0
      modifies this
      ensures Valid()
      ensures groups == Advanced(old(groups), delta)
      ensures fired == old(fired) + Firings(old(groups), delta)
    {
      var live, calls := AdvanceAll(groups, delta);
      groups, fired := live, fired + calls;
    }
  }
}
