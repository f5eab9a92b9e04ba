/** The sharing of one link in emulation/src/bwsync.rs: rounds of equal parts until nobody leaves anything over. */
module WaterFilling {
  import opened Prelude

  /** The rates of a flow; its source and destination are its key. */
  datatype Flow = Flow(authorized: nat, used: nat, max: nat, hungry: bool)

  // ----- Usage -----

  /** What some of the flows use together. */
  ghost function UsedOn<K>(flows: map<K, Flow>, s: set<K>): nat
    requires s <= flows.Keys
  {
    if s == {} then 0
    else
      var k :| k in s;
      flows[k].used + UsedOn(flows, s - {k})
  }

  ghost function Used<K>(flows: map<K, Flow>): nat { UsedOn(flows, flows.Keys) }

  lemma {:induction false} UsedPick<K>(flows: map<K, Flow>, s: set<K>, k: K)
    requires s <= flows.Keys && k in s
    ensures UsedOn(flows, s) == flows[k].used + UsedOn(flows, s - {k})
    decreases |s|
  {
    var j :| j in s && UsedOn(flows, s) == flows[j].used + UsedOn(flows, s - {j});
    if j != k {
      UsedPick(flows, s - {j}, k);
      UsedPick(flows, s - {k}, j);
      assert s - {j} - {k} == s - {k} - {j};
    }
  }

  lemma UsedOneMore<K>(flows: map<K, Flow>, s: set<K>, k: K)
    requires s <= flows.Keys && k in flows && k !in s
    ensures UsedOn(flows, s + {k}) == UsedOn(flows, s) + flows[k].used
  {
    UsedPick(flows, s + {k}, k);
    assert s + {k} - {k} == s;
  }

  lemma {:induction false} UsedAdds<K>(flows: map<K, Flow>, s: set<K>, t: set<K>)
    requires s <= flows.Keys && t <= flows.Keys && s !! t
    ensures UsedOn(flows, s + t) == UsedOn(flows, s) + UsedOn(flows, t)
    decreases |t|
  {
    if t == {} {
      assert s + t == s;
    } else {
      var k :| k in t;
      UsedPick(flows, t, k);
      UsedPick(flows, s + t, k);
      UsedAdds(flows, s, t - {k});
      assert s + t - {k} == s + (t - {k});
    }
  }

  /** Nobody uses more: the sum is not more. */
  lemma {:induction false} UsedMonotone<K>(a: map<K, Flow>, b: map<K, Flow>, s: set<K>, t: set<K>)
    requires s <= a.Keys && t <= b.Keys && s <= t && forall k | k in s :: a[k].used <= b[k].used
    ensures UsedOn(a, s) <= UsedOn(b, t)
    decreases |s|
  {
    if s != {} {
      var k :| k in s;
      UsedPick(a, s, k);
      UsedPick(b, t, k);
      UsedMonotone(a, b, s - {k}, t - {k});
    }
  }

  lemma UsedSame<K>(a: map<K, Flow>, b: map<K, Flow>, s: set<K>)
    requires s <= a.Keys && s <= b.Keys && forall k | k in s :: a[k].used == b[k].used
    ensures UsedOn(a, s) == UsedOn(b, s)
  {
    UsedMonotone(a, b, s, s);
    UsedMonotone(b, a, s, s);
  }

  // ----- Multiples -----

  /** n parts of a given size. */
  ghost function Times(part: real, n: nat): real {
    if n == 0 then 0.0 else Times(part, n - 1) + part
  }

  lemma {:induction false} TimesIsProduct(part: real, n: nat)
    ensures Times(part, n) == part * n as real
  {
    if n > 0 {
      TimesIsProduct(part, n - 1);
    }
  }

  lemma {:induction false} TimesAdds(part: real, m: nat, n: nat)
    ensures Times(part, m + n) == Times(part, m) + Times(part, n)
  {
    if n > 0 {
      TimesAdds(part, m, n - 1);
    }
  }

  lemma {:induction false} TimesRises(low: real, high: real, n: nat)
    requires low <= high
    ensures Times(low, n) <= Times(high, n)
    ensures low < high && n > 0 ==> Times(low, n) < Times(high, n)
  {
    if n > 0 {
      TimesRises(low, high, n - 1);
    }
  }

  lemma {:induction false} TimesNegative(part: real, n: nat)
    ensures part < 0.0 && n > 0 ==> Times(part, n) < 0.0
  {
    if n > 1 {
      TimesNegative(part, n - 1);
    }
  }

  lemma PartTimes(whole: real, n: nat)
    requires n > 0
    ensures Times(whole / n as real, n) == whole
  {
    TimesIsProduct(whole / n as real, n);
  }

  lemma CardAdds<K>(s: set<K>, t: set<K>)
    requires t <= s
    ensures |s| == |t| + |s - t|
  {
    assert s == t + (s - t);
  }

  /** Flows that each use more than the level use more than the level together. */
  lemma {:induction false} UsedAbove<K>(flows: map<K, Flow>, s: set<K>, level: real)
    requires s <= flows.Keys && forall k | k in s :: flows[k].used as real > level
    ensures UsedOn(flows, s) as real >= Times(level, |s|)
    ensures s != {} ==> UsedOn(flows, s) as real > Times(level, |s|)
    decreases |s|
  {
    if s != {} {
      var k :| k in s;
      UsedPick(flows, s, k);
      UsedAbove(flows, s - {k}, level);
    }
  }

  lemma {:induction false} UsedBelow<K>(flows: map<K, Flow>, s: set<K>, level: real)
    requires s <= flows.Keys && forall k | k in s :: flows[k].used as real <= level
    ensures UsedOn(flows, s) as real <= Times(level, |s|)
    decreases |s|
  {
    if s != {} {
      var k :| k in s;
      UsedPick(flows, s, k);
      UsedBelow(flows, s - {k}, level);
    }
  }

  // ----- Levels -----

  /** Not reduced before, and content with the level. */
  predicate Content(f: Flow, level: real) { !f.hungry && f.used as real <= level }

  function Floor(x: real): nat { if x < 0.0 then 0 else x.Floor }

  /** A flow that keeps what it uses. */
  function Freed(f: Flow): Flow { f.(authorized := f.max, hungry := false) }

  /** A flow reduced to a level. */
  function Capped(f: Flow, level: real): Flow {
    var rate := Min(Floor(level), f.max);
    f.(authorized := rate, used := rate, hungry := true)
  }

  /** What a flow gets at a level. */
  function Settle(f: Flow, level: real): Flow { if Content(f, level) then Freed(f) else Capped(f, level) }

  ghost function Settled<K>(flows: map<K, Flow>, level: real): map<K, Flow> {
    map k | k in flows :: Settle(flows[k], level)
  }

  /** The flows that a level reduces. */
  ghost function Reduced<K>(flows: map<K, Flow>, level: real): set<K> {
    set k | k in flows && !Content(flows[k], level)
  }

  /** The usage when every reduced flow uses the level and every other flow what it uses now. */
  ghost function Filled<K>(flows: map<K, Flow>, level: real): real {
    UsedOn(flows, flows.Keys - Reduced(flows, level)) as real + Times(level, |Reduced(flows, level)|)
  }

  /** The level fills the link, or the link has room for all. */
  ghost predicate IsLevel<K>(flows: map<K, Flow>, capacity: nat, level: real) {
    || Filled(flows, level) == capacity as real
    || (Filled(flows, level) <= capacity as real && Reduced(flows, level) == {})
  }

  /** Flows that use more than the level stop being held to it. */
  lemma FillingRises<K>(flows: map<K, Flow>, atLow: set<K>, atHigh: set<K>, low: real, high: real)
    requires low < high && atHigh <= atLow <= flows.Keys && atLow != {}
    requires forall k | k in atLow - atHigh :: flows[k].used as real > low
    ensures UsedOn(flows, flows.Keys - atLow) as real + Times(low, |atLow|)
      < UsedOn(flows, flows.Keys - atHigh) as real + Times(high, |atHigh|)
  {
    var freed, n, m := FreedUsage(flows, atLow, atHigh, low);
    PartsRise(freed as real, n, m, low, high);
  }

  lemma FreedUsage<K>(flows: map<K, Flow>, atLow: set<K>, atHigh: set<K>, low: real) returns (freed: nat, n: nat, m: nat)
    requires atHigh <= atLow <= flows.Keys && forall k | k in atLow - atHigh :: flows[k].used as real > low
    ensures n == |atHigh| && n + m == |atLow|
    ensures UsedOn(flows, flows.Keys - atHigh) == UsedOn(flows, flows.Keys - atLow) + freed
    ensures freed as real >= Times(low, m) && (m > 0 ==> freed as real > Times(low, m))
  {
    var between := atLow - atHigh;
    UsedAbove(flows, between, low);
    CardAdds(atLow, atHigh);
    freed, n, m := UsedOn(flows, between), |atHigh|, |between|;
    assert flows.Keys - atHigh == (flows.Keys - atLow) + between;
    UsedAdds(flows, flows.Keys - atLow, between);
  }

  lemma PartsRise(freed: real, n: nat, m: nat, low: real, high: real)
    requires low < high && n + m > 0 && freed >= Times(low, m) && (m > 0 ==> freed > Times(low, m))
    ensures Times(low, n + m) < freed + Times(high, n)
  {
    TimesAdds(low, n, m);
    TimesRises(low, high, n);
  }

  lemma ReducedFalls<K>(flows: map<K, Flow>, low: real, high: real)
    requires low < high
    ensures Reduced(flows, high) <= Reduced(flows, low) <= flows.Keys
    ensures forall k | k in Reduced(flows, low) - Reduced(flows, high) :: flows[k].used as real > low
  {
  }

  /** Raising the level raises the filling, strictly while anyone is reduced. */
  lemma FilledRises<K>(flows: map<K, Flow>, low: real, high: real)
    requires low < high && Reduced(flows, low) != {}
    ensures Filled(flows, low) < Filled(flows, high)
  {
    ReducedFalls(flows, low, high);
    FillingRises(flows, Reduced(flows, low), Reduced(flows, high), low, high);
  }

  lemma LevelUniqueOrdered<K>(flows: map<K, Flow>, capacity: nat, low: real, high: real)
    requires low <= high && IsLevel(flows, capacity, low) && IsLevel(flows, capacity, high)
    ensures Settled(flows, low) == Settled(flows, high)
  {
    if low < high && Reduced(flows, low) != {} {
      FilledRises(flows, low, high);
    } else {
      assert forall k | k in flows :: k in Reduced(flows, low) || Content(flows[k], low);
    }
  }

  /** All levels of a link give every flow the same. */
  lemma LevelUnique<K>(flows: map<K, Flow>, capacity: nat, a: real, b: real)
    requires IsLevel(flows, capacity, a) && IsLevel(flows, capacity, b)
    ensures Settled(flows, a) == Settled(flows, b)
  {
    if a <= b {
      LevelUniqueOrdered(flows, capacity, a, b);
    } else {
      LevelUniqueOrdered(flows, capacity, b, a);
    }
  }

  // ----- The rounds -----

  /** After some rounds: all but the remaining flows are content, and the remaining ones have equal parts of the rest. */
  ghost predicate Sharing<K>(flows: map<K, Flow>, remaining: set<K>, partition: real, capacity: nat) {
    && remaining <= flows.Keys && partition >= 0.0
    && (forall k | k in flows && k !in remaining :: Content(flows[k], partition))
    && (remaining != {} ==> UsedOn(flows, flows.Keys - remaining) as real + Times(partition, |remaining|) == capacity as real)
    && (remaining == {} ==> Used(flows) <= capacity)
  }

  /** What flows leave over of their parts. */
  ghost function Spare<K>(flows: map<K, Flow>, s: set<K>, partition: real): real
    requires s <= flows.Keys
  {
    Times(partition, |s|) - UsedOn(flows, s) as real
  }

  ghost function Contented<K>(flows: map<K, Flow>, s: set<K>, partition: real): set<K>
    requires s <= flows.Keys
  {
    set k | k in s && Content(flows[k], partition)
  }

  /** The partition after a round. */
  function NextPartition(partition: real, spare: real, n: nat): real {
    if n == 0 then partition else partition + spare / n as real
  }

  /** Spreading the spare of m flows over n flows keeps the total. */
  lemma Spread(partition: real, m: nat, n: nat, used: real)
    requires used <= Times(partition, m)
    ensures var next := NextPartition(partition, Times(partition, m) - used, n);
      next >= partition && (n > 0 ==> used + Times(next, n) == Times(partition, m + n))
  {
    if n > 0 {
      var spare := Times(partition, m) - used;
      var more := spare / n as real;
      TimesAdds(partition, m, n);
      TimesIsProduct(partition, n);
      TimesIsProduct(partition + more, n);
      PartTimes(spare, n);
      TimesIsProduct(more, n);
    }
  }

  lemma RoundKeepsSharing<K>(flows: map<K, Flow>, remaining: set<K>, partition: real, capacity: nat)
    requires Sharing(flows, remaining, partition, capacity) && Contented(flows, remaining, partition) != {}
    ensures var maxed := Contented(flows, remaining, partition);
      var rest := remaining - maxed;
      && |rest| < |remaining|
      && Sharing(flows, rest, NextPartition(partition, Spare(flows, maxed, partition), |rest|), capacity)
  {
    var maxed := Contented(flows, remaining, partition);
    var rest := remaining - maxed;
    CardAdds(remaining, maxed);
    UsedBelow(flows, maxed, partition);
    Spread(partition, |maxed|, |rest|, UsedOn(flows, maxed) as real);
    RoundKeepsTotal(flows, remaining, maxed, partition);
  }

  lemma RoundKeepsTotal<K>(flows: map<K, Flow>, remaining: set<K>, maxed: set<K>, partition: real)
    requires maxed <= remaining <= flows.Keys
    ensures UsedOn(flows, flows.Keys - (remaining - maxed)) == UsedOn(flows, flows.Keys - remaining) + UsedOn(flows, maxed)
    ensures remaining == maxed ==> Used(flows) == UsedOn(flows, flows.Keys - remaining) + UsedOn(flows, maxed)
  {
    UsedAdds(flows, flows.Keys - remaining, maxed);
    assert flows.Keys - (remaining - maxed) == (flows.Keys - remaining) + maxed;
    assert remaining == maxed ==> (flows.Keys - remaining) + maxed == flows.Keys;
  }

  lemma LastRoundIsLevel<K>(flows: map<K, Flow>, remaining: set<K>, partition: real, capacity: nat)
    requires Sharing(flows, remaining, partition, capacity) && Contented(flows, remaining, partition) == {}
    ensures Reduced(flows, partition) == remaining && IsLevel(flows, capacity, partition)
  {
    assert forall k | k in remaining :: k in Contented(flows, remaining, partition) || !Content(flows[k], partition);
    assert Reduced(flows, partition) == remaining;
    assert flows.Keys - {} == flows.Keys;
  }

  lemma FirstRound<K>(flows: map<K, Flow>, capacity: nat)
    ensures Sharing(flows, flows.Keys, NextPartition(0.0, capacity as real, |flows|), capacity)
  {
    assert flows.Keys - flows.Keys == {} && |flows.Keys| == |flows|;
    if flows != map[] {
      PartTimes(capacity as real, |flows|);
      TimesNegative(capacity as real / |flows| as real, |flows|);
    }
  }

  lemma {:induction false} LevelFrom<K>(flows: map<K, Flow>, remaining: set<K>, partition: real, capacity: nat)
    requires Sharing(flows, remaining, partition, capacity)
    ensures exists level :: level >= 0.0 && IsLevel(flows, capacity, level)
    decreases |remaining|
  {
    var maxed := Contented(flows, remaining, partition);
    if maxed == {} {
      LastRoundIsLevel(flows, remaining, partition, capacity);
    } else {
      RoundKeepsSharing(flows, remaining, partition, capacity);
      var rest := remaining - maxed;
      LevelFrom(flows, rest, NextPartition(partition, Spare(flows, maxed, partition), |rest|), capacity);
    }
  }

  /** Every link has a level. */
  ghost function Level<K>(flows: map<K, Flow>, capacity: nat): (level: real)
    ensures level >= 0.0 && IsLevel(flows, capacity, level)
  {
    FirstRound(flows, capacity);
    LevelFrom(flows, flows.Keys, NextPartition(0.0, capacity as real, |flows|), capacity);
    var level :| level >= 0.0 && IsLevel(flows, capacity, level);
    level
  }

  /** What the flows of a link get. */
  ghost function Share<K>(flows: map<K, Flow>, capacity: nat): map<K, Flow> {
    Settled(flows, Level(flows, capacity))
  }

  lemma SpareOneMore<K>(flows: map<K, Flow>, maxedOut: set<K>, rest: set<K>, k: K, partition: real)
    requires k in rest && rest <= maxedOut <= flows.Keys
    ensures Spare(flows, maxedOut - (rest - {k}), partition) == Spare(flows, maxedOut - rest, partition) + (partition - flows[k].used as real)
  {
    var done := maxedOut - (rest - {k});
    assert done - {k} == maxedOut - rest;
    UsedPick(flows, done, k);
  }

  /** The fold over the maxed out flows. */
  method SpareBandwidth<K(==)>(flows: map<K, Flow>, maxedOut: set<K>, partition: real) returns (spare: real)
    requires maxedOut <= flows.Keys
    ensures spare == Spare(flows, maxedOut, partition)
  {
    spare := 0.0;
    var rest := maxedOut;
    assert maxedOut - rest == {};
    while rest != {}
      invariant rest <= maxedOut && spare == Spare(flows, maxedOut - rest, partition)
      decreases |rest|
    {
      var k :| k in rest;
      SpareOneMore(flows, maxedOut, rest, k, partition);
      spare := spare + (partition - flows[k].used as real);
      rest := rest - {k};
    }
    assert maxedOut - rest == maxedOut;
  }

  function AllFreed<K>(flows: map<K, Flow>, s: set<K>): map<K, Flow>
    requires s <= flows.Keys
  {
    map k | k in s :: Freed(flows[k])
  }

  function AllCapped<K>(flows: map<K, Flow>, s: set<K>, level: real): map<K, Flow>
    requires s <= flows.Keys
  {
    map k | k in s :: Capped(flows[k], level)
  }

  lemma FreedAdds<K>(flows: map<K, Flow>, s: set<K>, t: set<K>)
    requires s <= flows.Keys && t <= flows.Keys
    ensures AllFreed(flows, s) + AllFreed(flows, t) == AllFreed(flows, s + t)
  {
  }

  lemma SettledInTwo<K>(flows: map<K, Flow>, level: real)
    ensures Settled(flows, level) == AllFreed(flows, flows.Keys - Reduced(flows, level)) + AllCapped(flows, Reduced(flows, level), level)
  {
  }

  lemma LastRoundShares<K>(flows: map<K, Flow>, remaining: set<K>, partition: real, capacity: nat)
    requires Sharing(flows, remaining, partition, capacity) && Contented(flows, remaining, partition) == {}
    ensures AllFreed(flows, flows.Keys - remaining) + AllCapped(flows, remaining, partition) == Share(flows, capacity)
  {
    LastRoundIsLevel(flows, remaining, partition, capacity);
    LevelUnique(flows, capacity, partition, Level(flows, capacity));
    SettledInTwo(flows, partition);
  }

  /** distribute_bandwidth_across_flow. */
  method DistributeBandwidthAcrossFlow<K(==)>(capacity: nat, flows: map<K, Flow>) returns (newFlows: map<K, Flow>)
    ensures newFlows == Share(flows, capacity)
  {
    var remaining := flows.Keys;
    newFlows := map[];
    var partition := NextPartition(0.0, capacity as real, |flows|);
    FirstRound(flows, capacity);
    while true
      invariant Sharing(flows, remaining, partition, capacity)
      invariant newFlows == AllFreed(flows, flows.Keys - remaining)
      decreases |remaining|
    {
      var maxedOut := set k | k in remaining && flows[k].used as real <= partition && !flows[k].hungry;
      assert maxedOut == Contented(flows, remaining, partition);
      if maxedOut == {} {
        LastRoundShares(flows, remaining, partition, capacity);
        newFlows := newFlows + AllCapped(flows, remaining, partition);
        return;
      }
      RoundKeepsSharing(flows, remaining, partition, capacity);
      FreedAdds(flows, flows.Keys - remaining, maxedOut);
      assert flows.Keys - remaining + maxedOut == flows.Keys - (remaining - maxedOut);
      newFlows := newFlows + AllFreed(flows, maxedOut);
      remaining := remaining - maxedOut;
      var spare := SpareBandwidth(flows, maxedOut, partition);
      partition := NextPartition(partition, spare, |remaining|);
    }
  }

  // ----- What sharing guarantees -----

  /** The flows of a link together never use more than the link has. */
  lemma ShareFits<K>(flows: map<K, Flow>, capacity: nat)
    ensures Used(Share(flows, capacity)) <= capacity
  {
    var level := Level(flows, capacity);
    var shared := Share(flows, capacity);
    var reduced := Reduced(flows, level);
    var kept := flows.Keys - reduced;
    assert shared.Keys == kept + reduced;
    UsedAdds(shared, kept, reduced);
    UsedMonotone(shared, flows, kept, kept);
    UsedBelow(shared, reduced, level);
  }

  /** What a flow gets: it keeps its usage when it was not reduced before and uses no more than the level, and otherwise
      it gets the level cut to an integer, or its maximum when that is less. */
  lemma ShareOfFlow<K>(flows: map<K, Flow>, capacity: nat, k: K)
    requires k in flows
    ensures k in Share(flows, capacity)
    ensures var f, g, level := flows[k], Share(flows, capacity)[k], Level(flows, capacity);
      && g.max == f.max && (g.hungry <==> f.hungry || f.used as real > level)
      && (!g.hungry ==> g.used == f.used && g.authorized == f.max)
      && (g.hungry ==>
            && g.authorized == g.used <= f.max && g.used as real <= level
            && (level < g.used as real + 1.0 || g.used == f.max))
  {
  }

  /** Flows that each use less than one below the level. */
  lemma {:induction false} UsedNearly<K>(flows: map<K, Flow>, s: set<K>, level: real)
    requires s <= flows.Keys && forall k | k in s :: flows[k].used as real + 1.0 > level
    ensures UsedOn(flows, s) as real + |s| as real >= Times(level, |s|)
    ensures s != {} ==> UsedOn(flows, s) as real + |s| as real > Times(level, |s|)
    decreases |s|
  {
    if s != {} {
      var k :| k in s;
      UsedPick(flows, s, k);
      UsedNearly(flows, s - {k}, level);
    }
  }

  ghost function HungryAfter<K>(flows: map<K, Flow>, capacity: nat): set<K> {
    set k | k in flows && Share(flows, capacity)[k].hungry
  }

  /** The link is used up but for less than one unit for each reduced flow, unless a reduced flow is at a maximum below
      the capacity. */
  lemma ShareUsesUp<K>(flows: map<K, Flow>, capacity: nat)
    requires HungryAfter(flows, capacity) != {}
    requires forall k | k in HungryAfter(flows, capacity) :: flows[k].max >= capacity || Share(flows, capacity)[k].used < flows[k].max
    ensures Used(Share(flows, capacity)) + |HungryAfter(flows, capacity)| > capacity
  {
    var level, shared, reduced := Level(flows, capacity), Share(flows, capacity), HungryAfter(flows, capacity);
    var kept := flows.Keys - reduced;
    assert reduced == Reduced(flows, level);
    LevelWithin(flows, capacity, level);
    forall k | k in reduced
      ensures shared[k].used as real + 1.0 > level
    {
      ShareOfFlow(flows, capacity, k);
    }
    UsedNearly(shared, reduced, level);
    UsedMonotone(flows, shared, kept, kept);
    assert shared.Keys == kept + reduced;
    UsedAdds(shared, kept, reduced);
  }

  /** While a flow is reduced, the level is at most the capacity. */
  lemma LevelWithin<K>(flows: map<K, Flow>, capacity: nat, level: real)
    requires level >= 0.0 && IsLevel(flows, capacity, level) && Reduced(flows, level) != {}
    ensures Filled(flows, level) == capacity as real && level <= capacity as real
  {
    TimesRises(0.0, level, |Reduced(flows, level)| - 1);
    TimesIsProduct(0.0, |Reduced(flows, level)| - 1);
  }

  /** A link with room for all that was asked takes nothing from a flow. */
  lemma RoomForAll<K>(flows: map<K, Flow>, capacity: nat, k: K)
    requires Used(flows) <= capacity && (forall j | j in flows :: !flows[j].hungry) && k in flows
    ensures k in Share(flows, capacity) && Share(flows, capacity)[k].used == flows[k].used
    ensures !Share(flows, capacity)[k].hungry
  {
    forall j | j in flows
      ensures flows[j].used <= capacity
    {
      UsedPick(flows, flows.Keys, j);
    }
    var level := capacity as real;
    assert Reduced(flows, level) == {};
    assert flows.Keys - {} == flows.Keys;
    assert IsLevel(flows, capacity, level);
    LevelUnique(flows, capacity, level, Level(flows, capacity));
    assert Settled(flows, level)[k] == Share(flows, capacity)[k];
  }
}
