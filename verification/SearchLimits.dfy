/** How complete the placement search of emulation/src/orchestrator.rs is: it uses a host only so many times. */
module SearchLimits {
  import opened Prelude
  import opened SymMatrices
  import opened Placements
  import opened Orchestrators

  /** Some host is used more often than the search can. */
  ghost predicate BeyondSearch(pl: seq<nat>, k: nat, n: nat) {
    exists h :: 0 <= h < n && multiset(pl)[h] > CopyLimit(k, n)
  }

  /** Every accepted placement is within the reach of the search. */
  ghost predicate Reached(g: Sym<nat>, residual: Sym<nat>, load: seq<nat>, maxLoad: nat) {
    forall pl: seq<nat> | Accepts(g, residual, load, maxLoad, pl) :: !BeyondSearch(pl, g.n, residual.n)
  }

  /** Completeness: if some placement is accepted, one within the reach of the search is. */
  ghost predicate Complete(g: Sym<nat>, residual: Sym<nat>, load: seq<nat>, maxLoad: nat) {
    (exists pl: seq<nat> :: Accepts(g, residual, load, maxLoad, pl)) ==>
      exists pl: seq<nat> :: Accepts(g, residual, load, maxLoad, pl) && !BeyondSearch(pl, g.n, residual.n)
  }

  /** The search of an orchestrator succeeds exactly when an accepted placement is within reach. */
  lemma PlaceableIsReach(o: Orchestrator, g: Sym<nat>)
    requires o.Indexed() && o.residual.n >= 1 && g.Valid()
    ensures o.Placeable(g) <==>
      exists pl: seq<nat> :: Accepts(g, o.residual.View(), o.Loads(), o.maxLoad, pl) && !BeyondSearch(pl, g.n, o.residual.n)
  {
    if o.Placeable(g) {
      var pl :| o.Placement(pl, g.n) && o.WithinCopies(pl, CopyLimit(g.n, o.residual.n)) && o.Accepted(g, pl);
      assert Accepts(g, o.residual.View(), o.Loads(), o.maxLoad, pl) && !BeyondSearch(pl, g.n, o.residual.n);
    }
    if pl: seq<nat> :| Accepts(g, o.residual.View(), o.Loads(), o.maxLoad, pl) && !BeyondSearch(pl, g.n, o.residual.n) {
      assert o.WithinCopies(pl, CopyLimit(g.n, o.residual.n));
      o.IsPlaceable(g, pl);
    }
  }

  lemma {:induction false} CountAtMost(pl: seq<nat>, h: nat)
    ensures multiset(pl)[h] <= |pl|
    decreases |pl|
  {
    if |pl| > 0 {
      CountAtMost(pl[1..], h);
      assert pl == [pl[0]] + pl[1..];
    }
  }

  lemma {:induction false} CountAll(pl: seq<nat>, h: nat)
    requires forall a | 0 <= a < |pl| :: pl[a] == h
    ensures multiset(pl)[h] == |pl|
    decreases |pl|
  {
    if |pl| > 0 {
      CountAll(pl[1..], h);
      assert pl == [pl[0]] + pl[1..];
    }
  }

  lemma NeverUsed(pl: seq<nat>, h: nat)
    requires h !in pl
    ensures multiset(pl)[h] == 0
  {
  }

  /** With few applications, or hosts that take few, the search reaches every placement. */
  lemma ReachedWhenSmall(g: Sym<nat>, residual: Sym<nat>, load: seq<nat>, maxLoad: nat)
    requires g.n <= CopyLimit(g.n, residual.n) || maxLoad <= CopyLimit(g.n, residual.n)
    ensures Reached(g, residual, load, maxLoad)
  {
    forall pl: seq<nat> | Accepts(g, residual, load, maxLoad, pl)
      ensures !BeyondSearch(pl, g.n, residual.n)
    {
      forall h | 0 <= h < residual.n
        ensures multiset(pl)[h] <= CopyLimit(g.n, residual.n)
      {
        CountAtMost(pl, h);
        if h in pl {
          var a :| 0 <= a < |pl| && pl[a] == h;
          assert HostFits(g, residual, load, maxLoad, pl, pl[a]);
        } else {
          NeverUsed(pl, h);
        }
      }
    }
  }

  /** The bandwidth that two applications of a group of m ask for; all others ask for nothing. */
  function Ask(m: nat, c: nat, a: nat, b: nat): nat {
    if a == b then MAX_BANDWIDTH else if a < m && b < m then c + 1 else 0
  }

  /** The same speed between any two hosts. */
  function Speed(c: nat, h: nat, o: nat): nat { if h == o then MAX_BANDWIDTH else c }

  /** m of the applications ask each other for more than the speed c that any two hosts have. */
  ghost predicate Tight(g: Sym<nat>, residual: Sym<nat>, m: nat, c: nat) {
    && g.Valid() && residual.Valid() && m <= g.n
    && (forall a, b | 0 <= a <= b < g.n :: g.At(a, b) == Ask(m, c, a, b))
    && (forall h, o | 0 <= h <= o < residual.n :: residual.At(h, o) == Speed(c, h, o))
  }

  lemma {:induction false} ToOthersPositive(g: Sym<nat>, pl: seq<nat>, host: nat, a: nat, b: nat, n: nat)
    requires g.Valid() && |pl| == g.n && a < g.n && b < n <= g.n && pl[b] != host
    ensures ToOthers(g, pl, host, a, n) >= g.At(a, b)
  {
    if b < n - 1 {
      ToOthersPositive(g, pl, host, a, b, n - 1);
    }
  }

  lemma {:induction false} OutgoingPositive(g: Sym<nat>, pl: seq<nat>, a: nat, b: nat, n: nat)
    requires g.Valid() && |pl| == g.n && a < n <= g.n && b < g.n && pl[b] != pl[a]
    ensures Outgoing(g, pl, pl[a], n) >= g.At(a, b)
  {
    if a < n - 1 {
      OutgoingPositive(g, pl, a, b, n - 1);
    } else {
      ToOthersPositive(g, pl, pl[a], a, b, g.n);
    }
  }

  /** Applications of the group on one host, and each other application, ask the others for nothing. */
  lemma {:induction false} QuietToOthers(g: Sym<nat>, pl: seq<nat>, m: nat, c: nat, host: nat, a: nat, n: nat)
    requires g.Valid() && |pl| == g.n && a < g.n && n <= g.n
    requires forall x, y | 0 <= x <= y < g.n :: g.At(x, y) == Ask(m, c, x, y)
    requires pl[a] == host && forall b | 0 <= b < m && b < |pl| && a < m :: pl[b] == host
    ensures ToOthers(g, pl, host, a, n) == 0
  {
    if n > 0 {
      QuietToOthers(g, pl, m, c, host, a, n - 1);
      AtSymmetric(g, a, n - 1);
    }
  }

  /** All of the group is on one host. */
  ghost predicate Together(pl: seq<nat>, m: nat, host: nat) {
    m <= |pl| && forall b | 0 <= b < m :: pl[b] == host
  }

  lemma {:induction false} QuietOutgoing(g: Sym<nat>, pl: seq<nat>, m: nat, c: nat, together: nat, host: nat, n: nat)
    requires g.Valid() && |pl| == g.n && n <= g.n && Together(pl, m, together)
    requires forall x, y | 0 <= x <= y < g.n :: g.At(x, y) == Ask(m, c, x, y)
    ensures Outgoing(g, pl, host, n) == 0
  {
    if n > 0 {
      QuietOutgoing(g, pl, m, c, together, host, n - 1);
      if pl[n - 1] == host {
        QuietToOthers(g, pl, m, c, host, n - 1, g.n);
      }
    }
  }

  /** On a tight network the group must share one host. */
  lemma TightShares(g: Sym<nat>, residual: Sym<nat>, m: nat, c: nat, load: seq<nat>, maxLoad: nat, pl: seq<nat>, a: nat, b: nat)
    requires Tight(g, residual, m, c) && Accepts(g, residual, load, maxLoad, pl)
    requires a < m && b < m
    ensures pl[a] == pl[b]
  {
    if pl[a] != pl[b] {
      assert HostFits(g, residual, load, maxLoad, pl, pl[a]);
      OutgoingPositive(g, pl, a, b, g.n);
      AtSymmetric(g, a, b);
      AtSymmetric(residual, pl[a], pl[b]);
      assert false;
    }
  }

  /** The group on host 0 and the others one to a host. */
  function Spread(k: nat, m: nat): (pl: seq<nat>)
    ensures |pl| == k && forall a | 0 <= a < k :: pl[a] == if a < m then 0 else a - m + 1
  {
    seq(k, a => if a < m then 0 else a - m + 1)
  }

  lemma {:induction false} SpreadCount(k: nat, m: nat, h: nat)
    requires m <= k
    ensures multiset(Spread(k, m))[h] <= if h == 0 then m else 1
  {
    if k > m {
      SpreadCount(k - 1, m, h);
      assert Spread(k, m) == Spread(k - 1, m) + [k - m];
      if h == k - m {
        NeverUsed(Spread(k - 1, m), h);
      }
    } else if h == 0 {
      CountAtMost(Spread(k, m), 0);
    } else {
      NeverUsed(Spread(k, m), h);
    }
  }

  lemma SpreadAccepted(g: Sym<nat>, residual: Sym<nat>, m: nat, c: nat, load: seq<nat>, maxLoad: nat)
    requires Tight(g, residual, m, c) && residual.n >= 1 && |load| == residual.n && forall h | 0 <= h < |load| :: load[h] == 0
    requires 1 <= m <= maxLoad && g.n - m < residual.n
    ensures Accepts(g, residual, load, maxLoad, Spread(g.n, m))
  {
    var pl := Spread(g.n, m);
    forall a | 0 <= a < |pl|
      ensures HostFits(g, residual, load, maxLoad, pl, pl[a])
    {
      SpreadCount(g.n, m, pl[a]);
      QuietOutgoing(g, pl, m, c, 0, pl[a], g.n);
    }
  }

  lemma {:induction false} TogetherCount(pl: seq<nat>, m: nat, host: nat)
    requires Together(pl, m, host)
    ensures multiset(pl)[host] >= m
  {
    CountAll(pl[..m], host);
    assert pl == pl[..m] + pl[m..];
  }

  /** With more applications, and hosts that take more, than the search can put on one host: whatever the speed c
      between the hosts, applications that ask for more are placed by some placement, and the search reaches none. */
  lemma MissedWhenLarge(k: nat, n: nat, maxLoad: nat, c: nat) returns (g: Sym<nat>, residual: Sym<nat>, load: seq<nat>, found: seq<nat>)
    requires n >= 1 && CopyLimit(k, n) < k && CopyLimit(k, n) < maxLoad && c < MAX_BANDWIDTH
    ensures g.Valid() && residual.Valid() && g.n == k && residual.n == n && load == seq(n, _ => 0)
    ensures forall h, o | 0 <= h < o < n :: residual.At(h, o) == c
    ensures Accepts(g, residual, load, maxLoad, found)
    ensures forall pl: seq<nat> | Accepts(g, residual, load, maxLoad, pl) :: BeyondSearch(pl, k, n)
  {
    var m := if k <= maxLoad then k else maxLoad;
    g := FromCells(k, (a: nat, b: nat) => Ask(m, c, a, b));
    residual := FromCells(n, (h: nat, o: nat) => Speed(c, h, o));
    load := seq(n, _ => 0);
    SpreadAccepted(g, residual, m, c, load, maxLoad);
    found := Spread(k, m);
    forall pl: seq<nat> | Accepts(g, residual, load, maxLoad, pl)
      ensures BeyondSearch(pl, k, n)
    {
      forall a | 0 <= a < m
        ensures pl[a] == pl[0]
      {
        TightShares(g, residual, m, c, load, maxLoad, pl, a, 0);
      }
      TogetherCount(pl, m, pl[0]);
    }
  }

  /** The search is complete for k applications on n hosts, whatever the network, exactly when it can put all the
      applications on one host or as many as a host takes. */
  lemma SearchIsCompleteIff(k: nat, n: nat, maxLoad: nat)
    requires n >= 1
    ensures var limit := (if k > n then k - n else 0) + if 1 <= k && (k == n || n == 1) then 1 else 5;
      k <= limit || maxLoad <= limit <==>
      forall g: Sym<nat>, residual: Sym<nat>, load: seq<nat> | g.n == k && residual.n == n :: Complete(g, residual, load, maxLoad)
  {
    if k <= CopyLimit(k, n) || maxLoad <= CopyLimit(k, n) {
      forall g: Sym<nat>, residual: Sym<nat>, load: seq<nat> | g.n == k && residual.n == n
        ensures Complete(g, residual, load, maxLoad)
      {
        ReachedWhenSmall(g, residual, load, maxLoad);
      }
    } else {
      var g, residual, load, found := MissedWhenLarge(k, n, maxLoad, 1000);
      assert !Complete(g, residual, load, maxLoad);
    }
  }
}
