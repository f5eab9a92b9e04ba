/** What a placement of applications on hosts must satisfy, and how host combinations stand for
    placements (emulation/src/orchestrator.rs), on values. */
module Placements {
  import opened SymMatrices
  import opened HeapPermutations

  /** The requirement that verify_permutation decides: every host used has room for its applications,
      and its traffic to all other hosts fits the remaining bandwidth to each of them. */
  ghost predicate Feasible(g: Sym<nat>, residual: Sym<nat>, load: seq<nat>, maxLoad: nat, pl: seq<nat>)
    requires WellSized(g, residual, load, pl)
  {
    forall a | 0 <= a < |pl| :: HostFits(g, residual, load, maxLoad, pl, pl[a])
  }

  ghost predicate WellSized(g: Sym<nat>, residual: Sym<nat>, load: seq<nat>, pl: seq<nat>) {
    && g.Valid() && residual.Valid() && |load| == residual.n && |pl| == g.n
    && forall a | 0 <= a < |pl| :: pl[a] < residual.n
  }

  ghost predicate HostFits(g: Sym<nat>, residual: Sym<nat>, load: seq<nat>, maxLoad: nat, pl: seq<nat>, host: nat)
    requires WellSized(g, residual, load, pl) && host < residual.n
  {
    && load[host] + multiset(pl)[host] <= maxLoad
    && forall b | 0 <= b < |pl| && pl[b] != host :: Outgoing(g, pl, host, g.n) <= residual.At(host, pl[b])
  }

  /** Bandwidth from application a to the first n applications that are not on `host`. */
  ghost function ToOthers(g: Sym<nat>, pl: seq<nat>, host: nat, a: nat, n: nat): nat
    requires g.Valid() && |pl| == g.n && a < g.n && n <= g.n
  {
    if n == 0 then 0 else ToOthers(g, pl, host, a, n - 1) + if pl[n - 1] != host then g.At(a, n - 1) else 0
  }

  /** Bandwidth that leaves `host`, counted over its applications among the first n. */
  ghost function Outgoing(g: Sym<nat>, pl: seq<nat>, host: nat, n: nat): nat
    requires g.Valid() && |pl| == g.n && n <= g.n
  {
    if n == 0 then 0
    else Outgoing(g, pl, host, n - 1) + if pl[n - 1] == host then ToOthers(g, pl, host, n - 1, g.n) else 0
  }

  // ----- Reservations -----

  ghost predicate SamePair(h: nat, o: nat, x: nat, y: nat) { (h == x && o == y) || (h == y && o == x) }

  /** Bandwidth between application a and the first n applications, over the pair of hosts h, o. */
  ghost function CreditRow(g: Sym<nat>, pl: seq<nat>, h: nat, o: nat, a: nat, n: nat): nat
    requires g.Valid() && |pl| == g.n && a < g.n && n <= g.n
  {
    if n == 0 then 0
    else CreditRow(g, pl, h, o, a, n - 1) + if SamePair(h, o, pl[a], pl[n - 1]) then g.At(a, n - 1) else 0
  }

  /** Bandwidth of all pairs among the first n applications that run over the pair of hosts h, o. */
  ghost function Credit(g: Sym<nat>, pl: seq<nat>, h: nat, o: nat, n: nat): nat
    requires g.Valid() && |pl| == g.n && n <= g.n
  {
    if n == 0 then 0 else Credit(g, pl, h, o, n - 1) + CreditRow(g, pl, h, o, n - 1, n - 1)
  }

  ghost function Reserved(g: Sym<nat>, pl: seq<nat>, h: nat, o: nat): nat
    requires g.Valid() && |pl| == g.n
  {
    Credit(g, pl, h, o, g.n)
  }

  /** Bandwidth from application a to those of the first n applications that run on host o. */
  ghost function ToHost(g: Sym<nat>, pl: seq<nat>, o: nat, a: nat, n: nat): nat
    requires g.Valid() && |pl| == g.n && a < g.n && n <= g.n
  {
    if n == 0 then 0 else ToHost(g, pl, o, a, n - 1) + if pl[n - 1] == o then g.At(a, n - 1) else 0
  }

  /** Bandwidth from the first m applications, those on h, to the first n, those on o. */
  ghost function Between(g: Sym<nat>, pl: seq<nat>, h: nat, o: nat, m: nat, n: nat): nat
    requires g.Valid() && |pl| == g.n && m <= g.n && n <= g.n
  {
    if m == 0 then 0 else Between(g, pl, h, o, m - 1, n) + if pl[m - 1] == h then ToHost(g, pl, o, m - 1, n) else 0
  }

  lemma {:induction false} BetweenColumn(g: Sym<nat>, pl: seq<nat>, h: nat, o: nat, m: nat, n: nat)
    requires g.Valid() && |pl| == g.n && m <= g.n && n < g.n
    ensures Between(g, pl, h, o, m, n + 1) == Between(g, pl, h, o, m, n) + if pl[n] == o then ToHost(g, pl, h, n, m) else 0
  {
    if m > 0 {
      BetweenColumn(g, pl, h, o, m - 1, n);
      AtSymmetric(g, m - 1, n);
    }
  }

  lemma {:induction false} CreditRowIsToHost(g: Sym<nat>, pl: seq<nat>, h: nat, o: nat, a: nat, n: nat)
    requires g.Valid() && |pl| == g.n && a < g.n && n <= g.n && h != o
    ensures CreditRow(g, pl, h, o, a, n)
         == if pl[a] == h then ToHost(g, pl, o, a, n) else if pl[a] == o then ToHost(g, pl, h, a, n) else 0
  {
    if n > 0 {
      CreditRowIsToHost(g, pl, h, o, a, n - 1);
    }
  }

  /** Counting each unordered pair once is counting from one host to the other. */
  lemma {:induction false} CreditIsBetween(g: Sym<nat>, pl: seq<nat>, h: nat, o: nat, n: nat)
    requires g.Valid() && |pl| == g.n && n <= g.n && h != o
    ensures Credit(g, pl, h, o, n) == Between(g, pl, h, o, n, n)
  {
    if n > 0 {
      CreditIsBetween(g, pl, h, o, n - 1);
      CreditRowIsToHost(g, pl, h, o, n - 1, n - 1);
      BetweenColumn(g, pl, h, o, n, n - 1);
    }
  }

  lemma {:induction false} ToHostBound(g: Sym<nat>, pl: seq<nat>, h: nat, o: nat, a: nat, n: nat)
    requires g.Valid() && |pl| == g.n && a < g.n && n <= g.n && h != o
    ensures ToHost(g, pl, o, a, n) <= ToOthers(g, pl, h, a, n)
  {
    if n > 0 {
      ToHostBound(g, pl, h, o, a, n - 1);
    }
  }

  lemma {:induction false} BetweenBound(g: Sym<nat>, pl: seq<nat>, h: nat, o: nat, m: nat)
    requires g.Valid() && |pl| == g.n && m <= g.n && h != o
    ensures Between(g, pl, h, o, m, g.n) <= Outgoing(g, pl, h, m)
  {
    if m > 0 {
      BetweenBound(g, pl, h, o, m - 1);
      ToHostBound(g, pl, h, o, m - 1, g.n);
    }
  }

  lemma {:induction false} NoAppNoCredit(g: Sym<nat>, pl: seq<nat>, h: nat, o: nat, n: nat)
    requires g.Valid() && |pl| == g.n && n <= g.n
    requires forall a | 0 <= a < |pl| :: pl[a] != h
    ensures Credit(g, pl, h, o, n) == 0
  {
    if n > 0 {
      NoAppNoCredit(g, pl, h, o, n - 1);
      NoAppNoCreditRow(g, pl, h, o, n - 1, n - 1);
    }
  }

  lemma {:induction false} NoAppNoCreditRow(g: Sym<nat>, pl: seq<nat>, h: nat, o: nat, a: nat, n: nat)
    requires g.Valid() && |pl| == g.n && a < g.n && n <= g.n
    requires forall b | 0 <= b < |pl| :: pl[b] != h
    ensures CreditRow(g, pl, h, o, a, n) == 0
  {
    if n > 0 {
      NoAppNoCreditRow(g, pl, h, o, a, n - 1);
    }
  }

  lemma CreditSymmetric(g: Sym<nat>, pl: seq<nat>, h: nat, o: nat, n: nat)
    requires g.Valid() && |pl| == g.n && n <= g.n
    ensures Credit(g, pl, h, o, n) == Credit(g, pl, o, h, n)
  {
    if n > 0 {
      CreditSymmetric(g, pl, h, o, n - 1);
      CreditRowSymmetric(g, pl, h, o, n - 1, n - 1);
    }
  }

  lemma CreditRowSymmetric(g: Sym<nat>, pl: seq<nat>, h: nat, o: nat, a: nat, n: nat)
    requires g.Valid() && |pl| == g.n && a < g.n && n <= g.n
    ensures CreditRow(g, pl, h, o, a, n) == CreditRow(g, pl, o, h, a, n)
  {
  }

  lemma {:induction false} CreditGrows(g: Sym<nat>, pl: seq<nat>, h: nat, o: nat, i: nat, n: nat)
    requires g.Valid() && |pl| == g.n && i <= n <= g.n
    ensures Credit(g, pl, h, o, i) <= Credit(g, pl, h, o, n)
    decreases n
  {
    if i < n {
      CreditGrows(g, pl, h, o, i, n - 1);
    }
  }

  lemma {:induction false} CreditRowGrows(g: Sym<nat>, pl: seq<nat>, h: nat, o: nat, a: nat, j: nat, n: nat)
    requires g.Valid() && |pl| == g.n && a < g.n && j <= n <= g.n
    ensures CreditRow(g, pl, h, o, a, j) <= CreditRow(g, pl, h, o, a, n)
    decreases n
  {
    if j < n {
      CreditRowGrows(g, pl, h, o, a, j, n - 1);
    }
  }

  /** A part of the pairs asks for no more than all of them. */
  lemma PartialCredit(g: Sym<nat>, pl: seq<nat>, h: nat, o: nat, i: nat, j: nat)
    requires g.Valid() && |pl| == g.n && j <= i < g.n
    ensures Credit(g, pl, h, o, i) + CreditRow(g, pl, h, o, i, j) <= Reserved(g, pl, h, o)
  {
    CreditRowGrows(g, pl, h, o, i, j, i);
    CreditGrows(g, pl, h, o, i + 1, g.n);
  }

  /** What stop_app_emulation_on gives back for one application: its bandwidth to all others. */
  ghost function AppCredit(g: Sym<nat>, pl: seq<nat>, h: nat, o: nat, a: nat, n: nat): nat
    requires g.Valid() && |pl| == g.n && a < g.n && n <= g.n
  {
    if n == 0 then 0
    else AppCredit(g, pl, h, o, a, n - 1) + if n - 1 != a && SamePair(h, o, pl[a], pl[n - 1]) then g.At(a, n - 1) else 0
  }

  ghost function AppCredits(g: Sym<nat>, pl: seq<nat>, h: nat, o: nat, m: nat, n: nat): nat
    requires g.Valid() && |pl| == g.n && m <= g.n && n <= g.n
  {
    if m == 0 then 0 else AppCredits(g, pl, h, o, m - 1, n) + AppCredit(g, pl, h, o, m - 1, n)
  }

  lemma {:induction false} AppCreditIsRow(g: Sym<nat>, pl: seq<nat>, h: nat, o: nat, a: nat, n: nat)
    requires g.Valid() && |pl| == g.n && n <= a < g.n
    ensures AppCredit(g, pl, h, o, a, n) == CreditRow(g, pl, h, o, a, n)
  {
    if n > 0 {
      AppCreditIsRow(g, pl, h, o, a, n - 1);
    }
  }

  lemma {:induction false} AppCreditsColumn(g: Sym<nat>, pl: seq<nat>, h: nat, o: nat, m: nat, n: nat)
    requires g.Valid() && |pl| == g.n && m <= n < g.n
    ensures AppCredits(g, pl, h, o, m, n + 1) == AppCredits(g, pl, h, o, m, n) + CreditRow(g, pl, h, o, n, m)
  {
    if m > 0 {
      AppCreditsColumn(g, pl, h, o, m - 1, n);
      AtSymmetric(g, m - 1, n);
    }
  }

  /** Stopping the applications one at a time gives every pair of hosts twice what was reserved. */
  lemma {:induction false} StoppingAppsCreditsTwice(g: Sym<nat>, pl: seq<nat>, h: nat, o: nat, n: nat)
    requires g.Valid() && |pl| == g.n && n <= g.n
    ensures AppCredits(g, pl, h, o, n, n) == 2 * Credit(g, pl, h, o, n)
  {
    if n > 0 {
      StoppingAppsCreditsTwice(g, pl, h, o, n - 1);
      AppCreditsColumn(g, pl, h, o, n - 1, n - 1);
      AppCreditIsRow(g, pl, h, o, n - 1, n - 1);
    }
  }

  /** An accepted placement never asks a pair of distinct hosts for more than is left between them. */
  lemma FeasibleFitsResidual(g: Sym<nat>, residual: Sym<nat>, load: seq<nat>, maxLoad: nat, pl: seq<nat>, h: nat, o: nat)
    requires WellSized(g, residual, load, pl) && Feasible(g, residual, load, maxLoad, pl)
    requires h < residual.n && o < residual.n && h != o
    ensures Reserved(g, pl, h, o) <= residual.At(h, o)
  {
    if a, b :| 0 <= a < |pl| && 0 <= b < |pl| && pl[a] == h && pl[b] == o {
      assert HostFits(g, residual, load, maxLoad, pl, pl[a]);
      CreditIsBetween(g, pl, h, o, g.n);
      BetweenBound(g, pl, h, o, g.n);
    } else if forall a | 0 <= a < |pl| :: pl[a] != h {
      NoAppNoCredit(g, pl, h, o, g.n);
    } else {
      NoAppNoCredit(g, pl, o, h, g.n);
      CreditSymmetric(g, pl, h, o, g.n);
    }
  }

  // ----- Acceptance, in terms of what is reserved -----

  /** What a placement reserves between a host and those of the first m hosts that are not the host itself. */
  ghost function ReservedFrom(g: Sym<nat>, pl: seq<nat>, host: nat, m: nat): nat
    requires g.Valid() && |pl| == g.n
  {
    if m == 0 then 0 else ReservedFrom(g, pl, host, m - 1) + if m - 1 != host then Reserved(g, pl, host, m - 1) else 0
  }

  /** Bandwidth from the first k applications, those on the host, to the first m hosts that are not the host itself. */
  ghost function OutFirst(g: Sym<nat>, pl: seq<nat>, host: nat, m: nat, k: nat): nat
    requires g.Valid() && |pl| == g.n && k <= g.n
  {
    if m == 0 then 0 else OutFirst(g, pl, host, m - 1, k) + if m - 1 != host then Between(g, pl, host, m - 1, k, g.n) else 0
  }

  /** Bandwidth from application a to the first b applications, those on the first m hosts that are not the host itself. */
  ghost function ToFirst(g: Sym<nat>, pl: seq<nat>, host: nat, a: nat, m: nat, b: nat): nat
    requires g.Valid() && |pl| == g.n && a < g.n && b <= g.n
  {
    if m == 0 then 0 else ToFirst(g, pl, host, a, m - 1, b) + if m - 1 != host then ToHost(g, pl, m - 1, a, b) else 0
  }

  lemma {:induction false} ReservedIsOutFirst(g: Sym<nat>, pl: seq<nat>, host: nat, m: nat)
    requires g.Valid() && |pl| == g.n
    ensures ReservedFrom(g, pl, host, m) == OutFirst(g, pl, host, m, g.n)
  {
    if m > 0 {
      ReservedIsOutFirst(g, pl, host, m - 1);
      if m - 1 != host {
        CreditIsBetween(g, pl, host, m - 1, g.n);
      }
    }
  }

  lemma {:induction false} OutFirstApp(g: Sym<nat>, pl: seq<nat>, host: nat, m: nat, k: nat)
    requires g.Valid() && |pl| == g.n && k <= g.n
    ensures OutFirst(g, pl, host, m, k)
         == if k == 0 then 0 else OutFirst(g, pl, host, m, k - 1) + if pl[k - 1] == host then ToFirst(g, pl, host, k - 1, m, g.n) else 0
  {
    if m > 0 {
      OutFirstApp(g, pl, host, m - 1, k);
    }
  }

  lemma {:induction false} ToFirstApp(g: Sym<nat>, pl: seq<nat>, host: nat, a: nat, m: nat, b: nat)
    requires g.Valid() && |pl| == g.n && a < g.n && b <= g.n
    ensures ToFirst(g, pl, host, a, m, b)
         == if b == 0 then 0 else ToFirst(g, pl, host, a, m, b - 1) + if pl[b - 1] != host && pl[b - 1] < m then g.At(a, b - 1) else 0
  {
    if m > 0 {
      ToFirstApp(g, pl, host, a, m - 1, b);
    }
  }

  lemma {:induction false} ToFirstIsToOthers(g: Sym<nat>, pl: seq<nat>, host: nat, a: nat, m: nat, b: nat)
    requires g.Valid() && |pl| == g.n && a < g.n && b <= g.n && forall c | 0 <= c < |pl| :: pl[c] < m
    ensures ToFirst(g, pl, host, a, m, b) == ToOthers(g, pl, host, a, b)
  {
    ToFirstApp(g, pl, host, a, m, b);
    if b > 0 {
      ToFirstIsToOthers(g, pl, host, a, m, b - 1);
    }
  }

  lemma {:induction false} OutFirstIsOutgoing(g: Sym<nat>, pl: seq<nat>, host: nat, m: nat, k: nat)
    requires g.Valid() && |pl| == g.n && k <= g.n && forall c | 0 <= c < |pl| :: pl[c] < m
    ensures OutFirst(g, pl, host, m, k) == Outgoing(g, pl, host, k)
  {
    OutFirstApp(g, pl, host, m, k);
    if k > 0 {
      OutFirstIsOutgoing(g, pl, host, m, k - 1);
      ToFirstIsToOthers(g, pl, host, k - 1, m, g.n);
    }
  }

  /** What leaves a host is what the placement reserves between it and all other hosts. */
  lemma OutgoingIsReserved(g: Sym<nat>, pl: seq<nat>, host: nat, m: nat)
    requires g.Valid() && |pl| == g.n && forall c | 0 <= c < |pl| :: pl[c] < m
    ensures Outgoing(g, pl, host, g.n) == ReservedFrom(g, pl, host, m)
  {
    ReservedIsOutFirst(g, pl, host, m);
    OutFirstIsOutgoing(g, pl, host, m, g.n);
  }

  lemma {:induction false} ToHostOfOne(g: Sym<nat>, pl: seq<nat>, o: nat, a: nat, b: nat, n: nat)
    requires g.Valid() && |pl| == g.n && a < g.n && b < g.n && n <= g.n && forall c | 0 <= c < |pl| :: pl[c] == o <==> c == b
    ensures ToHost(g, pl, o, a, n) == if b < n then g.At(a, b) else 0
  {
    if n > 0 {
      ToHostOfOne(g, pl, o, a, b, n - 1);
    }
  }

  lemma {:induction false} BetweenOfTwo(g: Sym<nat>, pl: seq<nat>, h: nat, o: nat, a: nat, b: nat, m: nat)
    requires g.Valid() && |pl| == g.n && a < g.n && b < g.n && m <= g.n
    requires forall c | 0 <= c < |pl| :: (pl[c] == h <==> c == a) && (pl[c] == o <==> c == b)
    ensures Between(g, pl, h, o, m, g.n) == if a < m then g.At(a, b) else 0
  {
    if m > 0 {
      BetweenOfTwo(g, pl, h, o, a, b, m - 1);
      ToHostOfOne(g, pl, o, m - 1, b, g.n);
    }
  }

  /** Two applications that are alone on their hosts reserve what they ask of each other. */
  lemma ReservedOfTwo(g: Sym<nat>, pl: seq<nat>, h: nat, o: nat, a: nat, b: nat)
    requires g.Valid() && |pl| == g.n && a < g.n && b < g.n && h != o
    requires forall c | 0 <= c < |pl| :: (pl[c] == h <==> c == a) && (pl[c] == o <==> c == b)
    ensures Reserved(g, pl, h, o) == g.At(a, b)
  {
    CreditIsBetween(g, pl, h, o, g.n);
    BetweenOfTwo(g, pl, h, o, a, b, g.n);
  }

  /** The applications on a host. */
  ghost function AppsAt(pl: seq<nat>, host: nat): set<nat> { set a: nat | a < |pl| && pl[a] == host }

  lemma {:induction false} AppsAtCount(pl: seq<nat>, host: nat)
    ensures |AppsAt(pl, host)| == multiset(pl)[host]
  {
    if pl == [] {
      assert AppsAt(pl, host) == {};
    } else {
      var n := |pl| - 1;
      AppsAtCount(pl[..n], host);
      assert pl == pl[..n] + [pl[n]];
      assert AppsAt(pl, host) == AppsAt(pl[..n], host) + if pl[n] == host then {n} else {};
    }
  }

  /** A placement is accepted exactly when every host it uses has room for its applications, and what the placement
      reserves between that host and all others fits what is left between it and each other host used. */
  lemma FeasibleIff(g: Sym<nat>, residual: Sym<nat>, load: seq<nat>, maxLoad: nat, pl: seq<nat>)
    requires WellSized(g, residual, load, pl)
    ensures Feasible(g, residual, load, maxLoad, pl) <==>
      forall h | h in pl ::
        && load[h] + |AppsAt(pl, h)| <= maxLoad
        && forall o | o in pl && o != h :: ReservedFrom(g, pl, h, residual.n) <= residual.At(h, o)
  {
    forall h | h in pl
      ensures HostFits(g, residual, load, maxLoad, pl, h) <==>
        && load[h] + |AppsAt(pl, h)| <= maxLoad
        && forall o | o in pl && o != h :: ReservedFrom(g, pl, h, residual.n) <= residual.At(h, o)
    {
      HostFitsIff(g, residual, load, maxLoad, pl, h);
    }
    if Feasible(g, residual, load, maxLoad, pl) {
      forall h | h in pl
        ensures HostFits(g, residual, load, maxLoad, pl, h)
      {
        var a :| 0 <= a < |pl| && pl[a] == h;
      }
    }
  }

  lemma HostFitsIff(g: Sym<nat>, residual: Sym<nat>, load: seq<nat>, maxLoad: nat, pl: seq<nat>, h: nat)
    requires WellSized(g, residual, load, pl) && h < residual.n
    ensures HostFits(g, residual, load, maxLoad, pl, h) <==>
      && load[h] + |AppsAt(pl, h)| <= maxLoad
      && forall o | o in pl && o != h :: ReservedFrom(g, pl, h, residual.n) <= residual.At(h, o)
  {
    OutgoingIsReserved(g, pl, h, residual.n);
    AppsAtCount(pl, h);
    forall b | 0 <= b < |pl|
      ensures pl[b] in pl
    {
    }
  }

  // ----- Combinations and the placements they stand for -----

  /** The hosts of the entries of a combination over cloned hosts. */
  function Hosts(comb: seq<nat>, n: nat): (hs: seq<nat>)
    requires n >= 1
    ensures |hs| == |comb| && forall i | 0 <= i < |hs| :: hs[i] < n
  {
    seq(|comb|, i requires 0 <= i < |comb| => comb[i] % n)
  }

  /** Where each application goes when it takes the combination's entries in the order p. */
  function Placed(p: seq<nat>, hosts: seq<nat>): (pl: seq<nat>)
    requires |p| == |hosts| && forall i | 0 <= i < |p| :: p[i] < |hosts|
    ensures |pl| == |p|
  {
    seq(|p|, i requires 0 <= i < |p| => hosts[p[i]])
  }

  /** The canonical set of a list of hosts: host h with m entries gives h, h+n, ..., h+(m-1)n. */
  ghost function Canonical(hs: seq<nat>, n: nat): set<nat>
    requires n >= 1
  {
    set v | 0 <= v < n * |hs| && v / n < multiset(hs)[v % n]
  }

  lemma DivModOf(h: nat, j: nat, n: nat)
    requires h < n
    ensures (h + n * j) / n == j && (h + n * j) % n == h
  {
    if j > 0 {
      DivModOf(h, j - 1, n);
      assert h + n * j == h + n * (j - 1) + n;
      StepDivMod(h + n * (j - 1), n);
    }
  }

  lemma StepDivMod(v: nat, n: nat)
    requires n >= 1
    ensures (v + n) / n == v / n + 1 && (v + n) % n == v % n
  {
    QuotientUnique(v + n, n, v / n + 1, v % n);
  }

  lemma QuotientUnique(v: nat, n: nat, q: nat, r: nat)
    requires r < n && v == n * q + r
    ensures v / n == q && v % n == r
  {
    var d, m := v / n, v % n;
    assert v == n * d + m;
    assert n * (d + 1) == n * d + n && n * (q + 1) == n * q + n;
    if d < q {
      MulLe(n, d + 1, q);
    } else if q < d {
      MulLe(n, q + 1, d);
    }
  }

  lemma MultisetCount(s: seq<nat>, x: nat)
    ensures multiset(s)[x] <= |s|
    ensures multiset(s)[x] > 0 <==> x in s
  {
    assert multiset(s)[x] <= |multiset(s)|;
  }

  lemma InCanonical(hs: seq<nat>, n: nat, v: nat)
    requires n >= 1
    ensures v in Canonical(hs, n) <==> v / n < multiset(hs)[v % n]
  {
    if v / n < multiset(hs)[v % n] {
      MultisetCount(hs, v % n);
      assert v == n * (v / n) + v % n;
      assert n * (v / n) + n <= n * |hs| by { assert v / n + 1 <= |hs|; MulLe(n, v / n + 1, |hs|); }
    }
  }

  lemma MulLe(n: nat, a: nat, b: nat)
    requires a <= b
    ensures n * a <= n * b
  {
  }

  /** Copy number j of host h is in the canonical set when h has more than j entries. */
  lemma CopyInCanonical(hs: seq<nat>, h: nat, j: nat, n: nat)
    requires h < n
    ensures h + n * j in Canonical(hs, n) <==> j < multiset(hs)[h]
    ensures h + n * (j + 1) == h + n * j + n
  {
    DivModOf(h, j, n);
    InCanonical(hs, n, h + n * j);
  }

  /** A placement on a host that is already full is not accepted. */
  lemma FullHostInfeasible(g: Sym<nat>, residual: Sym<nat>, load: seq<nat>, maxLoad: nat, pl: seq<nat>, v: nat)
    requires WellSized(g, residual, load, pl) && residual.n >= 1
    requires v in Canonical(pl, residual.n) && load[v % residual.n] >= maxLoad
    ensures !Feasible(g, residual, load, maxLoad, pl)
  {
    var host := v % residual.n;
    assert multiset(pl)[host] > 0;
    MultisetCount(pl, host);
    var a: nat :| a < |pl| && pl[a] == host;
    assert !HostFits(g, residual, load, maxLoad, pl, pl[a]);
  }

  /** Equal canonical sets come from equal multisets of hosts. */
  lemma CanonicalDeterminesHosts(hs: seq<nat>, ts: seq<nat>, n: nat)
    requires n >= 1 && Canonical(hs, n) == Canonical(ts, n)
    requires forall i | 0 <= i < |hs| :: hs[i] < n
    requires forall i | 0 <= i < |ts| :: ts[i] < n
    ensures multiset(hs) == multiset(ts)
  {
    forall h: nat
      ensures multiset(hs)[h] == multiset(ts)[h]
    {
      MultisetCount(hs, h);
      MultisetCount(ts, h);
      if h < n {
        CanonicalCounts(hs, ts, h, n);
        CanonicalCounts(ts, hs, h, n);
      }
    }
  }

  lemma CanonicalCounts(hs: seq<nat>, ts: seq<nat>, h: nat, n: nat)
    requires h < n && Canonical(hs, n) == Canonical(ts, n)
    ensures multiset(hs)[h] <= multiset(ts)[h]
  {
    var v := h + n * multiset(ts)[h];
    DivModOf(h, multiset(ts)[h], n);
    InCanonical(hs, n, v);
    InCanonical(ts, n, v);
  }

  /** b without its entry at q. */
  function Without<T>(b: seq<T>, q: nat): (c: seq<T>)
    requires q < |b|
    ensures |c| == |b| - 1 && forall i | 0 <= i < |c| :: c[i] == b[Skip(i, q)]
  {
    b[..q] + b[q + 1..]
  }

  lemma WithoutMultiset(b: seq<nat>, q: nat)
    requires q < |b|
    ensures multiset(Without(b, q)) == multiset(b) - multiset{b[q]}
  {
    assert b == b[..q] + [b[q]] + b[q + 1..];
  }

  /** A rearrangement of the front of a into b without entry q, completed by sending the last entry to q. */
  lemma ExtendRearrangement(a: seq<nat>, b: seq<nat>, q: nat, r: seq<nat>) returns (p: seq<nat>)
    requires |a| == |b| > 0 && q < |b| && b[q] == a[|a| - 1]
    requires |r| == |a| - 1 && IsPermutation(r)
    requires Placed(r, Without(b, q)) == a[..|a| - 1]
    ensures |p| == |b| && IsPermutation(p) && Placed(p, b) == a
  {
    var n := |a| - 1;
    p := seq(n, i requires 0 <= i < n => Skip(r[i], q)) + [q];
    forall i | 0 <= i < |a|
      ensures p[i] < |b| && b[p[i]] == a[i]
    {
      if i < n {
        assert a[i] == a[..n][i] == Placed(r, Without(b, q))[i];
      }
    }
  }

  /** Sequences with the same multiset are rearrangements of each other. */
  lemma {:induction false} Rearrangement(a: seq<nat>, b: seq<nat>) returns (p: seq<nat>)
    requires multiset(a) == multiset(b)
    ensures |a| == |b| == |p| && IsPermutation(p) && Placed(p, b) == a
    decreases |a|
  {
    assert |multiset(a)| == |a| && |multiset(b)| == |b|;
    if a == [] {
      p := [];
    } else {
      var n := |a| - 1;
      assert a == a[..n] + [a[n]];
      assert a[n] in multiset(b);
      var q: nat :| q < |b| && b[q] == a[n];
      WithoutMultiset(b, q);
      var r := Rearrangement(a[..n], Without(b, q));
      p := ExtendRearrangement(a, b, q, r);
    }
  }

  /** Pruning by canonical set loses nothing: if no order of one combination is accepted, no placement
      with the same canonical set is. */
  lemma PruningIsLossless(hosts: seq<nat>, pl: seq<nat>, n: nat, ok: seq<nat> -> bool)
    requires n >= 1
    requires forall i | 0 <= i < |hosts| :: hosts[i] < n
    requires forall i | 0 <= i < |pl| :: pl[i] < n
    requires forall p | |p| == |hosts| && IsPermutation(p) :: !ok(Placed(p, hosts))
    requires Canonical(pl, n) == Canonical(hosts, n)
    ensures !ok(pl)
  {
    CanonicalDeterminesHosts(pl, hosts, n);
    var p := Rearrangement(pl, hosts);
    assert !ok(Placed(p, hosts));
  }

  /** One more host adds its next copy to the canonical set. */
  lemma CanonicalSnoc(hs: seq<nat>, h: nat, n: nat)
    requires h < n
    ensures Canonical(hs + [h], n) == Canonical(hs, n) + {h + n * multiset(hs)[h]}
  {
    var m := multiset(hs)[h];
    assert multiset(hs + [h]) == multiset(hs) + multiset{h};
    forall v: nat
      ensures v in Canonical(hs + [h], n) <==> v in Canonical(hs, n) || v == h + n * m
    {
      InCanonical(hs, n, v);
      InCanonical(hs + [h], n, v);
      DivModOf(h, m, n);
      assert v == n * (v / n) + v % n;
    }
  }

  // ----- Every placement that uses each host at most c+1 times is found among the combinations -----

  /** Application i takes the next copy of its host that no earlier application took. */
  function Copies(pl: seq<nat>, n: nat): (e: seq<nat>)
    ensures |e| == |pl|
  {
    if pl == [] then [] else
      var front := pl[..|pl| - 1];
      Copies(front, n) + [pl[|pl| - 1] + n * multiset(front)[pl[|pl| - 1]]]
  }

  lemma NextCopy(front: seq<nat>, h: nat, n: nat) returns (v: nat)
    requires h < n
    ensures v == h + n * multiset(front)[h] && Hosts([v], n) == [h]
    ensures v !in Canonical(front, n) && Canonical(front + [h], n) == Canonical(front, n) + {v}
  {
    v := h + n * multiset(front)[h];
    CanonicalSnoc(front, h, n);
    DivModOf(h, multiset(front)[h], n);
    InCanonical(front, n, v);
  }

  lemma {:induction false} CopiesAreCanonical(pl: seq<nat>, n: nat)
    requires n >= 1 && forall i | 0 <= i < |pl| :: pl[i] < n
    ensures Hosts(Copies(pl, n), n) == pl
    ensures forall v :: v in Copies(pl, n) <==> v in Canonical(pl, n)
    ensures forall i, j | 0 <= i < j < |pl| :: Copies(pl, n)[i] != Copies(pl, n)[j]
  {
    if pl != [] {
      var front: seq<nat>, h: nat := pl[..|pl| - 1], pl[|pl| - 1];
      assert pl == front + [h];
      CopiesAreCanonical(front, n);
      var v := NextCopy(front, h, n);
      assert Copies(pl, n) == Copies(front, n) + [v];
      HostsOfConcat(Copies(front, n), [v], n);
    }
  }

  ghost predicate Increasing(d: seq<nat>) {
    forall i, j | 0 <= i < j < |d| :: d[i] < d[j]
  }

  lemma HostsOfConcat(a: seq<nat>, b: seq<nat>, n: nat)
    requires n >= 1
    ensures Hosts(a + b, n) == Hosts(a, n) + Hosts(b, n)
  {
  }

  /** Inserting into an increasing sequence. */
  lemma Insert(d: seq<nat>, x: nat, n: nat) returns (r: seq<nat>)
    requires n >= 1 && Increasing(d) && x !in d
    ensures Increasing(r) && multiset(r) == multiset(d + [x])
    ensures multiset(Hosts(r, n)) == multiset(Hosts(d + [x], n))
  {
    var j := 0;
    while j < |d| && d[j] < x
      invariant j <= |d| && forall i | 0 <= i < j :: d[i] < x
    {
      j := j + 1;
    }
    r := d[..j] + [x] + d[j..];
    InsertedIncreases(d, x, j, r);
    InsertedSame(d, x, j, r);
    HostsOfConcat(d[..j], [x], n);
    HostsOfConcat(d[..j] + [x], d[j..], n);
    HostsOfConcat(d[..j], d[j..], n);
    HostsOfConcat(d, [x], n);
  }

  lemma InsertedSame(d: seq<nat>, x: nat, j: nat, r: seq<nat>)
    requires j <= |d| && r == d[..j] + [x] + d[j..]
    ensures d == d[..j] + d[j..] && multiset(r) == multiset(d + [x])
  {
    assert d == d[..j] + d[j..];
  }

  lemma InsertedIncreases(d: seq<nat>, x: nat, j: nat, r: seq<nat>)
    requires Increasing(d) && x !in d && j <= |d| && (forall i | 0 <= i < j :: d[i] < x) && (j < |d| ==> d[j] >= x)
    requires r == d[..j] + [x] + d[j..]
    ensures Increasing(r)
  {
    forall i | j <= i < |d|
      ensures x < d[i]
    {
      assert d[i] in d && d[j] <= d[i];
    }
  }

  lemma {:induction false} Sorted(e: seq<nat>, n: nat) returns (d: seq<nat>)
    requires n >= 1 && forall i, j | 0 <= i < j < |e| :: e[i] != e[j]
    ensures Increasing(d) && multiset(d) == multiset(e) && |d| == |e|
    ensures multiset(Hosts(d, n)) == multiset(Hosts(e, n))
    decreases |e|
  {
    if e == [] {
      d := [];
    } else {
      var f, x := e[..|e| - 1], e[|e| - 1];
      assert e == f + [x];
      var g := Sorted(f, n);
      assert x in multiset(f) <==> x in f;
      assert x in multiset(g) <==> x in g;
      d := Insert(g, x, n);
      HostsOfConcat(f, [x], n);
      HostsOfConcat(g, [x], n);
      assert |multiset(d)| == |d| && |multiset(e)| == |e|;
    }
  }

  lemma SameMultisetSameCanonical(hs: seq<nat>, ts: seq<nat>, n: nat)
    requires n >= 1 && multiset(hs) == multiset(ts)
    ensures Canonical(hs, n) == Canonical(ts, n)
  {
    forall v: nat
      ensures v in Canonical(hs, n) <==> v in Canonical(ts, n)
    {
      InCanonical(hs, n, v);
      InCanonical(ts, n, v);
    }
  }

  lemma CanonicalBelow(pl: seq<nat>, n: nat, c: nat, v: nat)
    requires n >= 1 && v in Canonical(pl, n)
    requires forall h | 0 <= h < n :: multiset(pl)[h] <= c + 1
    ensures v < n * (c + 1)
  {
    assert v / n < multiset(pl)[v % n];
    QuotientAbove(v, n, v / n, v % n, c + 1);
  }

  lemma QuotientAbove(v: nat, n: nat, q: nat, r: nat, c: nat)
    requires v == n * q + r && r < n && q < c
    ensures v < n * c
  {
    MulLe(n, q + 1, c);
    assert n * (q + 1) == n * q + n;
  }

  lemma CanonicalDown(pl: seq<nat>, n: nat, v: nat)
    requires n >= 1 && v in Canonical(pl, n) && v >= n
    ensures v - n in Canonical(pl, n)
  {
    InCanonical(pl, n, v);
    InCanonical(pl, n, v - n);
    StepDivMod(v - n, n);
  }

  lemma SameMultisetSameElements(d: seq<nat>, e: seq<nat>, v: nat)
    requires multiset(d) == multiset(e)
    ensures v in d <==> v in e
  {
    assert v in multiset(d) <==> v in d;
    assert v in multiset(e) <==> v in e;
  }

  /** The combination that stands for a placement: its canonical set, in increasing order. It stays
      below n(c+1), and it begins with a first copy of some host. */
  lemma CombinationOf(pl: seq<nat>, n: nat, c: nat) returns (d: seq<nat>)
    requires n >= 1 && |pl| >= 1 && forall i | 0 <= i < |pl| :: pl[i] < n
    requires forall h | 0 <= h < n :: multiset(pl)[h] <= c + 1
    ensures |d| == |pl| && Increasing(d)
    ensures forall i | 0 <= i < |d| :: d[i] < n * (c + 1)
    ensures d[0] < n
    ensures Canonical(Hosts(d, n), n) == Canonical(pl, n)
  {
    var e := Copies(pl, n);
    CopiesAreCanonical(pl, n);
    d := Sorted(e, n);
    SameMultisetSameCanonical(Hosts(d, n), pl, n);
    forall i | 0 <= i < |d|
      ensures d[i] < n * (c + 1)
    {
      SameMultisetSameElements(d, e, d[i]);
      CanonicalBelow(pl, n, c, d[i]);
    }
    LeastIsFirstCopy(pl, n, d, e);
  }

  /** The least entry of a canonical set is the first copy of its host. */
  lemma LeastIsFirstCopy(pl: seq<nat>, n: nat, d: seq<nat>, e: seq<nat>)
    requires n >= 1 && |d| >= 1 && Increasing(d) && multiset(d) == multiset(e)
    requires forall v :: v in e <==> v in Canonical(pl, n)
    ensures d[0] < n
  {
    if d[0] >= n {
      SameMultisetSameElements(d, e, d[0]);
      CanonicalDown(pl, n, d[0]);
      SameMultisetSameElements(d, e, d[0] - n);
    }
  }

  /** The entry is one of the first q copies of h, if it is a copy of h at all. */
  ghost predicate CopyBelow(v: nat, n: nat, h: nat, q: nat)
    requires n >= 1
  {
    v % n == h ==> v / n < q
  }

  lemma EarlierCopies(x: nat, n: nat, h: nat, q: nat) returns (before: nat)
    requires n >= 1 && x % n == h && CopyBelow(x, n, h, q)
    ensures before < q && forall v: nat | v < x :: CopyBelow(v, n, h, before)
  {
    before := x / n;
    forall v: nat | v < x
      ensures CopyBelow(v, n, h, before)
    {
      if v % n == h {
        SmallerQuotient(v, x, n);
      }
    }
  }

  /** A host occurs in a combination below n(c+1) at most c+1 times. */
  lemma {:induction false} CopiesBound(comb: seq<nat>, n: nat, h: nat, q: nat)
    requires n >= 1 && h < n && Increasing(comb)
    requires forall i | 0 <= i < |comb| :: CopyBelow(comb[i], n, h, q)
    ensures multiset(Hosts(comb, n))[h] <= q
    decreases |comb|
  {
    if comb != [] {
      var front, x := comb[..|comb| - 1], comb[|comb| - 1];
      HostsOfLast(comb, front, x, n, h);
      if x % n == h {
        assert CopyBelow(comb[|front|], n, h, q);
        var before := EarlierCopies(x, n, h, q);
        CopiesBound(front, n, h, before);
      } else {
        CopiesBound(front, n, h, q);
      }
    }
  }

  lemma HostsOfLast(comb: seq<nat>, front: seq<nat>, x: nat, n: nat, h: nat)
    requires n >= 1 && comb == front + [x]
    ensures multiset(Hosts(comb, n))[h] == multiset(Hosts(front, n))[h] + if x % n == h then 1 else 0
  {
    HostsOfConcat(front, [x], n);
  }

  lemma SmallerQuotient(v: nat, w: nat, n: nat)
    requires n >= 1 && v < w && v % n == w % n
    ensures v / n < w / n
  {
    assert v == n * (v / n) + v % n && w == n * (w / n) + w % n;
    if w / n <= v / n {
      MulLe(n, w / n, v / n);
    }
  }

  lemma {:induction false} PlacedMultiset(p: seq<nat>, b: seq<nat>)
    requires IsPermutation(p) && |p| == |b|
    ensures multiset(Placed(p, b)) == multiset(b)
    decreases |p|
  {
    if p != [] {
      var n := |p| - 1;
      var i := PermutationIsOnto(p, n);
      assert b == b[..n] + [b[n]];
      PlacedMultiset(Without(p, i), b[..n]);
      WithoutMultiset(Placed(p, b), i);
      assert Placed(Without(p, i), b[..n]) == Without(Placed(p, b), i);
      assert Placed(p, b)[i] == b[n];
    }
  }

  /** What a search level can produce: orders of combinations below n(c+1). */
  lemma PlacedWithinCopies(p: seq<nat>, comb: seq<nat>, n: nat, c: nat)
    requires n >= 1 && IsPermutation(p) && |p| == |comb| && Increasing(comb)
    requires forall i | 0 <= i < |comb| :: comb[i] < n * (c + 1)
    ensures forall h | 0 <= h < n :: multiset(Placed(p, Hosts(comb, n)))[h] <= c + 1
  {
    PlacedMultiset(p, Hosts(comb, n));
    forall h | 0 <= h < n
      ensures multiset(Hosts(comb, n))[h] <= c + 1
    {
      HostWithinCopies(comb, n, c + 1, h);
    }
  }

  lemma HostWithinCopies(comb: seq<nat>, n: nat, q: nat, h: nat)
    requires n >= 1 && h < n && Increasing(comb) && forall i | 0 <= i < |comb| :: comb[i] < n * q
    ensures multiset(Hosts(comb, n))[h] <= q
  {
    forall i | 0 <= i < |comb|
      ensures comb[i] / n < q
    {
      QuotientBelow(comb[i], n, q);
    }
    CopiesBound(comb, n, h, q);
  }

  lemma QuotientBelow(v: nat, n: nat, q: nat)
    requires n >= 1 && v < n * q
    ensures v / n < q
  {
    assert v == n * (v / n) + v % n;
    if v / n >= q {
      MulLe(n, q, v / n);
    }
  }
}
