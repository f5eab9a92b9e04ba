/** merge of emulation/src/bwsync.rs: when several links share out the same flows, the strictest share of a flow counts. */
module StrictestWins {
  import opened Prelude
  import opened WaterFilling

  /** merge: of a flow in both, the one with less authorized. */
  function Merge<K>(a: map<K, Flow>, b: map<K, Flow>): map<K, Flow> {
    map k | k in a.Keys + b.Keys ::
      if k in a && k in b then (if a[k].authorized < b[k].authorized then a[k] else b[k])
      else if k in a then a[k] else b[k]
  }

  ghost predicate WithinMax<K>(flows: map<K, Flow>) {
    forall k | k in flows :: flows[k].used <= flows[k].max
  }

  /** f has been given its part of a link at some level. */
  ghost predicate Judged(f: Flow, g: Flow) {
    exists level :: level >= 0.0 && g == Settle(f, level)
  }

  /** Less authorized is less used, and as much authorized is the same share, for flows within their maximum. */
  lemma StricterUsesLess(f: Flow, g: Flow, h: Flow)
    requires f.used <= f.max && Judged(f, g) && Judged(f, h) && g.authorized <= h.authorized
    ensures g.used <= h.used && (g.authorized == h.authorized ==> g == h)
  {
    var a :| a >= 0.0 && g == Settle(f, a);
    var b :| b >= 0.0 && h == Settle(f, b);
  }

  lemma JudgedWithinMax(f: Flow, g: Flow)
    requires f.used <= f.max && Judged(f, g)
    ensures g.used <= g.max && g.max == f.max
  {
    var level :| level >= 0.0 && g == Settle(f, level);
  }

  lemma NotHungryUsesNoMore(f: Flow, g: Flow)
    requires !f.hungry && Judged(f, g)
    ensures g.used <= f.used
  {
    var level :| level >= 0.0 && g == Settle(f, level);
  }

  /** What each link gives the flows on it. */
  ghost predicate AllJudged<K, L>(flows: map<K, Flow>, shares: map<L, map<K, Flow>>) {
    forall l, k | l in shares && k in shares[l] :: k in flows && Judged(flows[k], shares[l][k])
  }

  predicate NotAbove(f: Flow, g: Flow) { f.authorized <= g.authorized && f.used <= g.used }

  /** f is what one of the links gives the flow, and no other link gives it less. */
  ghost predicate IsStrictest<K, L>(shares: map<L, map<K, Flow>>, links: set<L>, k: K, f: Flow)
    requires links <= shares.Keys
  {
    && (exists l :: l in links && k in shares[l] && f == shares[l][k])
    && forall l | l in links && k in shares[l] :: NotAbove(f, shares[l][k])
  }

  /** Every flow on some of the links has the strictest of its shares. */
  ghost predicate Strictest<K, L>(shares: map<L, map<K, Flow>>, links: set<L>, result: map<K, Flow>) {
    && links <= shares.Keys
    && (forall k | k in result :: IsStrictest(shares, links, k, result[k]))
    && (forall l, k | l in links && k in shares[l] :: k in result)
  }

  lemma MergeOne<K, L>(flows: map<K, Flow>, shares: map<L, map<K, Flow>>, links: set<L>, result: map<K, Flow>, link: L, k: K)
    requires WithinMax(flows) && AllJudged(flows, shares) && Strictest(shares, links, result)
    requires link in shares && k in Merge(result, shares[link])
    ensures IsStrictest(shares, links + {link}, k, Merge(result, shares[link])[k])
  {
    var share := shares[link];
    var f := Merge(result, share)[k];
    if k in result && k in share {
      var l :| l in links && k in shares[l] && result[k] == shares[l][k];
      if share[k].authorized <= result[k].authorized {
        StricterUsesLess(flows[k], share[k], result[k]);
      } else {
        StricterUsesLess(flows[k], result[k], share[k]);
      }
      assert NotAbove(f, share[k]) && NotAbove(f, result[k]);
    } else if k in result {
      var l :| l in links && k in shares[l] && result[k] == shares[l][k];
    }
  }

  /** Taking one more link into account. */
  lemma MergeKeepsStrictest<K, L>(flows: map<K, Flow>, shares: map<L, map<K, Flow>>, links: set<L>, result: map<K, Flow>, link: L)
    requires WithinMax(flows) && AllJudged(flows, shares) && Strictest(shares, links, result) && link in shares
    ensures Strictest(shares, links + {link}, Merge(result, shares[link]))
  {
    var merged := Merge(result, shares[link]);
    forall k | k in merged
      ensures IsStrictest(shares, links + {link}, k, merged[k])
    {
      MergeOne(flows, shares, links, result, link, k);
    }
  }

  /** The outcome does not depend on the order in which the links are taken. */
  lemma StrictestIsUnique<K, L>(flows: map<K, Flow>, shares: map<L, map<K, Flow>>, links: set<L>, a: map<K, Flow>, b: map<K, Flow>)
    requires WithinMax(flows) && AllJudged(flows, shares) && Strictest(shares, links, a) && Strictest(shares, links, b)
    ensures a == b
  {
    forall k | k in a || k in b
      ensures k in a && k in b && a[k] == b[k]
    {
      SameStrictest(flows, shares, links, a, b, k);
    }
  }

  lemma SameStrictest<K, L>(flows: map<K, Flow>, shares: map<L, map<K, Flow>>, links: set<L>, a: map<K, Flow>, b: map<K, Flow>, k: K)
    requires WithinMax(flows) && AllJudged(flows, shares) && Strictest(shares, links, a) && Strictest(shares, links, b)
    requires k in a || k in b
    ensures k in a && k in b && a[k] == b[k]
  {
    var l :| l in links && k in shares[l] && a[k] == shares[l][k];
    var m :| m in links && k in shares[m] && b[k] == shares[m][k];
    StricterUsesLess(flows[k], shares[l][k], shares[m][k]);
  }

  /** No flow exceeds its maximum, and each was on some link. */
  lemma StrictestWithinMax<K, L>(flows: map<K, Flow>, shares: map<L, map<K, Flow>>, links: set<L>, result: map<K, Flow>)
    requires WithinMax(flows) && AllJudged(flows, shares) && Strictest(shares, links, result)
    ensures WithinMax(result) && result.Keys <= flows.Keys
    ensures forall k | k in result :: exists l :: l in links && k in shares[l]
  {
    forall k | k in result
      ensures result[k].used <= result[k].max && k in flows && exists l :: l in links && k in shares[l]
    {
      var l :| l in links && k in shares[l] && result[k] == shares[l][k];
      JudgedWithinMax(flows[k], shares[l][k]);
    }
  }

  /** On a link that shares fit on, the strictest shares fit too. */
  lemma StrictestFits<K, L>(shares: map<L, map<K, Flow>>, links: set<L>, result: map<K, Flow>, link: L, after: map<K, Flow>, users: set<K>)
    requires Strictest(shares, links, result) && link in links
    requires users <= shares[link].Keys && users <= after.Keys && forall k | k in users :: k in result && after[k] == result[k]
    ensures UsedOn(after, users) <= Used(shares[link])
  {
    var share := shares[link];
    forall k | k in users
      ensures after[k].used <= share[k].used
    {
      assert IsStrictest(shares, links, k, result[k]);
      assert NotAbove(result[k], share[k]);
    }
    UsedMonotone(after, share, users, share.Keys);
  }

  /** A flow that gave nothing up before is not raised. */
  lemma StrictestNotHungry<K, L>(flows: map<K, Flow>, shares: map<L, map<K, Flow>>, links: set<L>, result: map<K, Flow>, k: K)
    requires AllJudged(flows, shares) && Strictest(shares, links, result) && k in result
    ensures k in flows && (!flows[k].hungry ==> result[k].used <= flows[k].used)
  {
    assert IsStrictest(shares, links, k, result[k]);
    var l :| l in links && k in shares[l] && result[k] == shares[l][k];
    if !flows[k].hungry {
      NotHungryUsesNoMore(flows[k], shares[l][k]);
    }
  }

  // ----- Least parts -----

  /** The least part on those links of a path that count. */
  ghost function LeastOn<L>(path: seq<L>, on: L -> bool, part: L -> nat): Option<nat> {
    if path == [] then None
    else
      var rest := LeastOn(path[1..], on, part);
      if !on(path[0]) then rest
      else if rest.None? then Some(part(path[0]))
      else Some(Min(part(path[0]), rest.value))
  }

  ghost predicate IsLeastOn<L>(path: seq<L>, on: L -> bool, part: L -> nat, u: nat) {
    && (exists l :: l in path && on(l) && u == part(l))
    && forall l | l in path && on(l) :: u <= part(l)
  }

  lemma {:induction false} LeastOnIsLeast<L>(path: seq<L>, on: L -> bool, part: L -> nat)
    ensures LeastOn(path, on, part).Some? ==> IsLeastOn(path, on, part, LeastOn(path, on, part).value)
    ensures LeastOn(path, on, part).None? <==> forall l | l in path :: !on(l)
    decreases |path|
  {
    if path != [] {
      LeastOnIsLeast(path[1..], on, part);
      assert path[0] in path;
      assert forall l :: l in path <==> l == path[0] || l in path[1..];
    }
  }

  lemma LeastOnUnique<L>(path: seq<L>, on: L -> bool, part: L -> nat, u: nat)
    requires IsLeastOn(path, on, part, u)
    ensures LeastOn(path, on, part) == Some(u)
  {
    LeastOnIsLeast(path, on, part);
  }

  /** The least part is more than v exactly when every part is. */
  lemma LeastAbove<L>(path: seq<L>, on: L -> bool, part: L -> nat, u: nat, v: nat)
    requires IsLeastOn(path, on, part, u)
    ensures u > v <==> forall l | l in path && on(l) :: part(l) > v
  {
  }

  /** The strictest share of a flow uses the least part that the links give it. */
  lemma StrictestIsLeast<K, L>(shares: map<L, map<K, Flow>>, path: seq<L>, result: map<K, Flow>, k: K, on: L -> bool, part: L -> nat)
    requires Strictest(shares, (set l | l in path), result) && k in result
    requires forall l | l in path :: l in shares && (k in shares[l] <==> on(l)) && (on(l) ==> shares[l][k].used == part(l))
    ensures IsLeastOn(path, on, part, result[k].used)
  {
    var links := set l | l in path;
    assert IsStrictest(shares, links, k, result[k]);
    var l :| l in links && k in shares[l] && result[k] == shares[l][k];
    assert l in path && on(l);
    forall m | m in path && on(m)
      ensures result[k].used <= part(m)
    {
      assert m in links && NotAbove(result[k], shares[m][k]);
    }
  }
}
