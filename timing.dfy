/** Fixed-rate timing: how many whole intervals fit into accumulated time, and
    what is left over. Time is measured in seconds as exact reals. */
module Timing {

  /** Seconds between two firings at `rate` ticks per second. */
  function Interval(rate: int): (i: real)
    requires rate > 0
    ensures 0.0 < i <= 1.0
    ensures i * (rate as real) == 1.0
  {
    1.0 / (rate as real)
  }

  /** The number of firings due when `t` seconds have accumulated at `rate`
      ticks per second: the largest n with n intervals fitting into t. */
  function TickCount(t: real, rate: int): (n: nat)
    requires t >= 0.0 && rate > 0
    ensures (n as real) * Interval(rate) <= t < ((n + 1) as real) * Interval(rate)
  {
    var x := t * (rate as real);
    assert x >= 0.0;
    var n: nat := x.Floor;
    WholeIntervals(t, rate, n);
    n
  }

  /** Time left over after the due firings have been taken out of `t`. */
  function Remainder(t: real, rate: int): (rest: real)
    requires t >= 0.0 && rate > 0
    ensures 0.0 <= rest < Interval(rate)
    ensures t == rest + (TickCount(t, rate) as real) * Interval(rate)
  {
    t - (TickCount(t, rate) as real) * Interval(rate)
  }

  /** Multiplying both sides by a positive factor keeps an order. */
  lemma ScaleOrder(a: real, b: real, r: real)
    requires r > 0.0
    ensures a <= b <==> a * r <= b * r
    ensures a < b <==> a * r < b * r
  {
  }

  /** Scaling a number of intervals by the rate gives back the number. */
  lemma IntervalsTimesRate(k: real, rate: int)
    requires rate > 0
    ensures k * Interval(rate) * (rate as real) == k
  {
    var i := Interval(rate);
    var r := rate as real;
    assert k * i * r == k * (i * r);
  }

  /** k intervals compare with t as k compares with t * rate. */
  lemma ScaledIntervals(t: real, rate: int, k: real)
    requires rate > 0
    ensures k * Interval(rate) <= t <==> k <= t * (rate as real)
    ensures t < k * Interval(rate) <==> t * (rate as real) < k
  {
    var r := rate as real;
    var i := Interval(rate);
    IntervalsTimesRate(k, rate);
    ScaleOrder(k * i, t, r);
    ScaleOrder(t, k * i, r);
  }

  /** n intervals fit into t exactly when n ticks fit into t * rate. */
  lemma WholeIntervals(t: real, rate: int, n: int)
    requires rate > 0
    ensures (n as real) * Interval(rate) <= t <==> (n as real) <= t * (rate as real)
    ensures t < ((n + 1) as real) * Interval(rate) <==> t * (rate as real) < (n + 1) as real
  {
    ScaledIntervals(t, rate, n as real);
    ScaledIntervals(t, rate, (n + 1) as real);
  }

  /** The firing count is the only count that leaves less than one interval
      over: `while (acc >= interval) { fire; acc -= interval; }` stops after
      exactly TickCount(t, rate) rounds, whichever way one counts them. */
  lemma TickCountUnique(t: real, rate: int, n: nat)
    requires t >= 0.0 && rate > 0
    ensures TickCount(t, rate) == n <==>
              (n as real) * Interval(rate) <= t && t - (n as real) * Interval(rate) < Interval(rate)
  {
    var m := TickCount(t, rate);
    var i := Interval(rate);
    if (n as real) * i <= t && t - (n as real) * i < i {
      assert t < ((n + 1) as real) * i;
      WholeIntervals(t, rate, n);
      WholeIntervals(t, rate, m);
      assert (n as real) <= t * (rate as real) < (n + 1) as real;
      assert (m as real) <= t * (rate as real) < (m + 1) as real;
    }
  }

  /** n + m intervals are n intervals and then m more. */
  lemma AddIntervals(n: nat, m: nat, i: real)
    ensures ((n + m) as real) * i == (n as real) * i + (m as real) * i
  {
  }

  /** Carrying the remainder forward loses no time: the firings due from the
      leftover of t plus a further d, added to those already due from t, are
      exactly those due from t + d. */
  lemma {:induction false} CarryForward(t: real, d: real, rate: int)
    requires t >= 0.0 && d >= 0.0 && rate > 0
    ensures TickCount(t, rate) + TickCount(Remainder(t, rate) + d, rate) == TickCount(t + d, rate)
    ensures Remainder(Remainder(t, rate) + d, rate) == Remainder(t + d, rate)
  {
    var i := Interval(rate);
    var n := TickCount(t, rate);
    var rest := Remainder(t, rate);
    var m := TickCount(rest + d, rate);
    var k := n + m;
    AddIntervals(n, m, i);
    TickCountUnique(t + d, rate, k);
  }

  /** The sum of a sequence of elapsed times. */
  function Sum(deltas: seq<real>): real
  {
    if deltas == [] then 0.0 else deltas[0] + Sum(deltas[1..])
  }

  /** Adding one more elapsed time at the end adds it to the sum. */
  lemma {:induction false} SumAppend(deltas: seq<real>, d: real)
    ensures Sum(deltas + [d]) == Sum(deltas) + d
    decreases |deltas|
  {
    if deltas == [] {
      assert [] + [d] == [d];
    } else {
      assert (deltas + [d])[1..] == deltas[1..] + [d];
      SumAppend(deltas[1..], d);
    }
  }

  /** True when every elapsed time in `deltas` is non-negative. */
  predicate NonNegative(deltas: seq<real>)
  {
    forall k :: 0 <= k < |deltas| ==> deltas[k] >= 0.0
  }

  /** The firings one group produces over successive updates by `deltas`,
      starting from leftover time `acc` and carrying the remainder across
      calls. */
  function ChunkedTicks(acc: real, rate: int, deltas: seq<real>): (n: nat)
    requires acc >= 0.0 && rate > 0 && NonNegative(deltas)
    ensures Sum(deltas) >= 0.0
    ensures (n as real) * Interval(rate) <= acc + Sum(deltas)
    decreases |deltas|
  {
    if deltas == [] then 0
    else
      var t := acc + deltas[0];
      var now := TickCount(t, rate);
      var later := ChunkedTicks(Remainder(t, rate), rate, deltas[1..]);
      assert ((now + later) as real) * Interval(rate)
               == (now as real) * Interval(rate) + (later as real) * Interval(rate);
      now + later
  }

  /** However the elapsed time is chopped into updates, a group fires exactly
      as often as one update by the total would make it fire. */
  lemma {:induction false} ChunkingPreservesRate(acc: real, rate: int, deltas: seq<real>)
    requires rate > 0 && 0.0 <= acc < Interval(rate) && NonNegative(deltas)
    ensures Sum(deltas) >= 0.0
    ensures ChunkedTicks(acc, rate, deltas) == TickCount(acc + Sum(deltas), rate)
    decreases |deltas|
  {
    if deltas == [] {
      TickCountUnique(acc, rate, 0);
    } else {
      var t := acc + deltas[0];
      var rest := deltas[1..];
      assert NonNegative(rest) by {
        forall k | 0 <= k < |rest| ensures rest[k] >= 0.0 { assert rest[k] == deltas[k + 1]; }
      }
      ChunkingPreservesRate(Remainder(t, rate), rate, rest);
      CarryForward(t, Sum(rest), rate);
      assert acc + Sum(deltas) == t + Sum(rest);
    }
  }
}
