/** The placement search of emulation/src/orchestrator.rs and its books of bandwidth and load. */
module Orchestrators {
  import opened Prelude
  import opened SymMatrices
  import opened HeapPermutations
  import opened Combinations
  import opened Placements
  import opened Sums
  import opened Bookkeeping

  datatype Result<+T> = Ok(value: T) | InvalidData

  datatype Deployment = Deployed(placement: seq<nat>, affected: set<ClusterNodeInfo>) | NoPlacement | Panicked

  /** Panics: an unsigned subtraction or a vector index of the source goes out of range. */
  datatype SearchResult = Found(placement: seq<nat>) | NotFound | Panics

  /** Overflow: an unsigned addition of the source goes above u32::MAX. */
  datatype StopResult = Stopped | Unknown | Overflow

  datatype Removal = Removed(uuids: seq<Uuid>) | NoSuchHost | OverflowOnStop

  /** What verify_permutation accepts, for a whole placement. */
  ghost predicate Accepts(g: Sym<nat>, residual: Sym<nat>, load: seq<nat>, maxLoad: nat, pl: seq<nat>) {
    WellSized(g, residual, load, pl) && Feasible(g, residual, load, maxLoad, pl)
  }

  /** The orders of a list of hosts that are accepted. */
  ghost function PlacedAccepted(g: Sym<nat>, residual: Sym<nat>, load: seq<nat>, maxLoad: nat, hosts: seq<nat>): seq<nat> -> bool {
    (p: seq<nat>) => |p| == |hosts| && Below(p, |hosts|) && Accepts(g, residual, load, maxLoad, Placed(p, hosts))
  }

  // ----- The two filters of verify_permutation and the sums over them -----

  /** Those of the first n applications that run on `host`. */
  ghost function AppsOn(pl: seq<nat>, host: nat, n: nat): (r: seq<nat>)
    requires n <= |pl|
    ensures Below(r, n)
  {
    if n == 0 then [] else AppsOn(pl, host, n - 1) + if pl[n - 1] == host then [n - 1] else []
  }

  ghost function AppsOff(pl: seq<nat>, host: nat, n: nat): (r: seq<nat>)
    requires n <= |pl|
    ensures Below(r, n)
  {
    if n == 0 then [] else AppsOff(pl, host, n - 1) + if pl[n - 1] != host then [n - 1] else []
  }

  ghost predicate Below(xs: seq<nat>, n: nat) { forall i | 0 <= i < |xs| :: xs[i] < n }

  ghost function RowSum(g: Sym<nat>, a: nat, ys: seq<nat>): nat
    requires g.Valid() && a < g.n && Below(ys, g.n)
  {
    if ys == [] then 0 else RowSum(g, a, ys[..|ys| - 1]) + g.At(a, ys[|ys| - 1])
  }

  ghost function PairSum(g: Sym<nat>, xs: seq<nat>, ys: seq<nat>): nat
    requires g.Valid() && Below(xs, g.n) && Below(ys, g.n)
  {
    if xs == [] then 0 else PairSum(g, xs[..|xs| - 1], ys) + RowSum(g, xs[|xs| - 1], ys)
  }

  lemma {:induction false} AppsOnCount(pl: seq<nat>, host: nat, n: nat)
    requires n <= |pl|
    ensures |AppsOn(pl, host, n)| == multiset(pl[..n])[host]
  {
    if n > 0 {
      AppsOnCount(pl, host, n - 1);
      assert pl[..n] == pl[..n - 1] + [pl[n - 1]];
      assert multiset(pl[..n]) == multiset(pl[..n - 1]) + multiset{pl[n - 1]};
    }
  }

  lemma RowSumSnoc(g: Sym<nat>, a: nat, ys: seq<nat>, y: nat)
    requires g.Valid() && a < g.n && Below(ys, g.n) && y < g.n
    ensures RowSum(g, a, ys + [y]) == RowSum(g, a, ys) + g.At(a, y)
  {
    assert (ys + [y])[..|ys|] == ys;
  }

  lemma PairSumSnoc(g: Sym<nat>, xs: seq<nat>, x: nat, ys: seq<nat>)
    requires g.Valid() && x < g.n && Below(xs, g.n) && Below(ys, g.n)
    ensures PairSum(g, xs + [x], ys) == PairSum(g, xs, ys) + RowSum(g, x, ys)
  {
    assert (xs + [x])[..|xs|] == xs;
  }

  lemma {:induction false} RowSumOff(g: Sym<nat>, pl: seq<nat>, host: nat, a: nat, n: nat)
    requires g.Valid() && |pl| == g.n && a < g.n && n <= g.n
    ensures RowSum(g, a, AppsOff(pl, host, n)) == ToOthers(g, pl, host, a, n)
  {
    if n > 0 {
      RowSumOff(g, pl, host, a, n - 1);
      var ys := AppsOff(pl, host, n - 1);
      if pl[n - 1] != host {
        assert AppsOff(pl, host, n) == ys + [n - 1];
        RowSumSnoc(g, a, ys, n - 1);
      } else {
        assert AppsOff(pl, host, n) == ys;
      }
    }
  }

  lemma {:induction false} PairSumIsOutgoing(g: Sym<nat>, pl: seq<nat>, host: nat, off: seq<nat>, n: nat)
    requires g.Valid() && |pl| == g.n && n <= g.n
    requires Below(off, g.n) && forall a: nat | a < g.n :: RowSum(g, a, off) == ToOthers(g, pl, host, a, g.n)
    ensures PairSum(g, AppsOn(pl, host, n), off) == Outgoing(g, pl, host, n)
  {
    if n > 0 {
      PairSumIsOutgoing(g, pl, host, off, n - 1);
      var on := AppsOn(pl, host, n - 1);
      if pl[n - 1] == host {
        assert AppsOn(pl, host, n) == on + [n - 1];
        PairSumSnoc(g, on, n - 1, off);
      } else {
        assert AppsOn(pl, host, n) == on;
      }
    }
  }

  ghost predicate AllFit(g: Sym<nat>, residual: Sym<nat>, load: seq<nat>, maxLoad: nat, pl: seq<nat>, checked: set<nat>) {
    WellSized(g, residual, load, pl) && forall h | h in checked :: h < residual.n && HostFits(g, residual, load, maxLoad, pl, h)
  }

  lemma CheckedIsFeasible(g: Sym<nat>, residual: Sym<nat>, load: seq<nat>, maxLoad: nat, p: seq<nat>, hosts: seq<nat>, checked: set<nat>)
    requires |p| == |hosts| && Below(p, |hosts|) && AllFit(g, residual, load, maxLoad, Placed(p, hosts), checked)
    requires forall j | 0 <= j < |hosts| :: hosts[j] in checked
    ensures Feasible(g, residual, load, maxLoad, Placed(p, hosts))
  {
    var pl := Placed(p, hosts);
    forall a | 0 <= a < |pl|
      ensures HostFits(g, residual, load, maxLoad, pl, pl[a])
    {
      assert hosts[p[a]] in checked;
    }
  }

  lemma HostRejects(g: Sym<nat>, residual: Sym<nat>, load: seq<nat>, maxLoad: nat, p: seq<nat>, hosts: seq<nat>, a: nat)
    requires |p| == |hosts| && Below(p, |hosts|) && a < |p|
    requires WellSized(g, residual, load, Placed(p, hosts)) && hosts[p[a]] < residual.n && !HostFits(g, residual, load, maxLoad, Placed(p, hosts), hosts[p[a]])
    ensures !PlacedAccepted(g, residual, load, maxLoad, hosts)(p)
  {
    assert Placed(p, hosts)[a] == hosts[p[a]];
  }

  lemma TotalIsOutgoing(g: Sym<nat>, pl: seq<nat>, host: nat)
    requires g.Valid() && |pl| == g.n
    ensures PairSum(g, AppsOn(pl, host, g.n), AppsOff(pl, host, g.n)) == Outgoing(g, pl, host, g.n)
  {
    forall a: nat | a < g.n
      ensures RowSum(g, a, AppsOff(pl, host, g.n)) == ToOthers(g, pl, host, a, g.n)
    {
      RowSumOff(g, pl, host, a, g.n);
    }
    PairSumIsOutgoing(g, pl, host, AppsOff(pl, host, g.n), g.n);
  }

  class Orchestrator {
    var residual: SymMatrix<nat>
    var hostMapping: seq<ClusterNodeInfo>
    var attributed: map<ClusterNodeInfo, set<Uuid>>
    var emulations: map<Uuid, Emulation>
    var currentLoad: map<ClusterNodeInfo, map<Uuid, nat>>
    const maxLoad: nat
    const port: nat
    /** The applications of each live emulation that have not stopped yet. */
    ghost var running: map<Uuid, set<nat>>
    /** The speeds before any emulation. */
    ghost var base: Sym<nat>

    constructor (speeds: SymMatrix<nat>, nodes: seq<ClusterNodeInfo>, emanagersPort: nat, max: nat)
      requires speeds.Valid() && speeds.n == |nodes| && IsSpeeds(speeds.View())
      requires forall i, j | 0 <= i < j < |nodes| :: nodes[i].ip != nodes[j].ip
      ensures Valid() && Ledger() && residual == speeds && maxLoad == max && port == emanagersPort
      ensures emulations == map[] && currentLoad == map[] && attributed == map[]
      ensures hostMapping == seq(|nodes|, i requires 0 <= i < |nodes| => nodes[i].(port := emanagersPort))
    {
      residual := speeds;
      hostMapping := seq(|nodes|, i requires 0 <= i < |nodes| => nodes[i].(port := emanagersPort));
      attributed := map[];
      emulations := map[];
      currentLoad := map[];
      running := map[];
      base := speeds.View();
      maxLoad := max;
      port := emanagersPort;
    }

    /** The matrix and the host list belong together, and no host carries more than allowed. */
    ghost predicate Indexed()
      reads this, residual
    {
      && residual.Valid() && residual.n == |hostMapping|
      && (forall i, j | 0 <= i < j < |hostMapping| :: hostMapping[i] != hostMapping[j])
      && (forall h | 0 <= h < |hostMapping| :: LoadOf(hostMapping[h]) <= maxLoad)
    }

    ghost function BooksNow(): Books
      reads this
    {
      Books(hostMapping, attributed, currentLoad, emulations, running)
    }

    ghost predicate Valid()
      reads this, residual
    {
      Indexed() && BooksNow().Kept() && IsSpeeds(residual.View())
    }

    /** The bandwidth ledger. */
    ghost predicate Ledger()
      reads this, residual
    {
      Balanced(residual.View(), emulations, base) && IsSpeeds(base)
    }

    ghost function LoadOf(node: ClusterNodeInfo): nat
      reads this
    {
      if node in currentLoad then Sum(currentLoad[node]) else 0
    }

    ghost function Loads(): (l: seq<nat>)
      reads this
      ensures |l| == |hostMapping|
    {
      seq(|hostMapping|, h requires 0 <= h < |hostMapping| reads this => LoadOf(hostMapping[h]))
    }

    ghost predicate Accepted(g: Sym<nat>, pl: seq<nat>)
      reads this, residual
    {
      Accepts(g, residual.View(), Loads(), maxLoad, pl)
    }

    /** The orders in which the entries of a combination may be given to the applications. */
    ghost function AcceptedOrders(g: Sym<nat>, mapper: seq<nat>): seq<nat> -> bool
      requires residual.n >= 1
      reads this, residual
    {
      PlacedAccepted(g, residual.View(), Loads(), maxLoad, Hosts(mapper, residual.n))
    }

    method GetActualLoad(host: nat) returns (load: nat)
      requires host < |hostMapping|
      ensures load == Loads()[host]
    {
      var node := hostMapping[host];
      load := 0;
      if node in currentLoad {
        var rest := currentLoad[node];
        while rest != map[]
          invariant load + Sum(rest) == LoadOf(node)
          decreases |rest|
        {
          var id :| id in rest;
          SumPick(rest, id);
          load := load + rest[id];
          rest := rest - {id};
        }
      }
    }

    /** Bandwidth asked for between the applications of one host and all the others. */
    method TotalRequired(g1: SymMatrix<nat>, on: seq<nat>, off: seq<nat>) returns (total: nat)
      requires g1.Valid() && Below(on, g1.n) && Below(off, g1.n)
      ensures total == PairSum(g1.View(), on, off)
    {
      total := 0;
      for x := 0 to |on|
        invariant total == PairSum(g1.View(), on[..x], off)
      {
        ghost var before := total;
        for y := 0 to |off|
          invariant total == before + RowSum(g1.View(), on[x], off[..y])
        {
          total := total + g1.Get(on[x], off[y]);
          assert off[..y + 1][..y] == off[..y];
        }
        assert off[..|off|] == off && on[..x + 1][..x] == on[..x];
      }
      assert on[..|on|] == on;
    }

    /** The filter for the applications on a host. */
    method SameHostApps(equivalence: seq<nat>, mapper: seq<nat>, n: nat, host: nat) returns (apps: seq<nat>)
      requires n >= 1 && IsPermutation(equivalence) && |equivalence| == |mapper|
      ensures apps == AppsOn(Placed(equivalence, Hosts(mapper, n)), host, |equivalence|)
    {
      ghost var pl := Placed(equivalence, Hosts(mapper, n));
      apps := [];
      for app := 0 to |equivalence|
        invariant apps == AppsOn(pl, host, app)
      {
        if mapper[equivalence[app]] % n == host {
          apps := apps + [app];
        }
      }
    }

    /** The filter for all others. */
    method OtherHostApps(equivalence: seq<nat>, mapper: seq<nat>, n: nat, host: nat) returns (apps: seq<nat>)
      requires n >= 1 && IsPermutation(equivalence) && |equivalence| == |mapper|
      ensures apps == AppsOff(Placed(equivalence, Hosts(mapper, n)), host, |equivalence|)
    {
      ghost var pl := Placed(equivalence, Hosts(mapper, n));
      apps := [];
      for app := 0 to |equivalence|
        invariant apps == AppsOff(pl, host, app)
      {
        if mapper[equivalence[app]] % n != host {
          apps := apps + [app];
        }
      }
    }

    /** Is there enough bandwidth from the host to every other host used? */
    method BandwidthFits(equivalence: seq<nat>, mapper: seq<nat>, host: nat, total: nat) returns (ok: bool)
      requires residual.Valid() && host < residual.n && IsPermutation(equivalence) && |equivalence| == |mapper|
      ensures var pl := Placed(equivalence, Hosts(mapper, residual.n));
        ok <==> forall b | 0 <= b < |pl| && pl[b] != host :: total <= residual.View().At(host, pl[b])
    {
      var n := residual.Size();
      ghost var pl := Placed(equivalence, Hosts(mapper, n));
      for i := 0 to |equivalence|
        invariant forall b | 0 <= b < i && pl[b] != host :: total <= residual.View().At(host, pl[b])
      {
        var other := mapper[equivalence[i]] % n;
        assert pl[i] == other;
        if other != host && total > residual.Get(host, other) {
          return false;
        }
      }
      return true;
    }

    /** The checks made for one host of the permutation. */
    method HostAccepts(g1: SymMatrix<nat>, equivalence: seq<nat>, mapper: seq<nat>, host: nat) returns (ok: bool)
      requires Indexed() && g1.Valid() && host < residual.n
      requires IsPermutation(equivalence) && |equivalence| == |mapper| == g1.n
      ensures var pl := Placed(equivalence, Hosts(mapper, residual.n));
        && ok == HostFits(g1.View(), residual.View(), Loads(), maxLoad, pl, host)
        && (ok <==>
              && Loads()[host] + |AppsAt(pl, host)| <= maxLoad
              && forall o | o in pl && o != host :: ReservedFrom(g1.View(), pl, host, residual.n) <= residual.View().At(host, o))
    {
      var n := residual.Size();
      ghost var pl := Placed(equivalence, Hosts(mapper, n));
      var appsOnSameHost := SameHostApps(equivalence, mapper, n, host);
      AppsOnCount(pl, host, |pl|);
      assert pl[..|pl|] == pl;
      HostFitsIff(g1.View(), residual.View(), Loads(), maxLoad, pl, host);
      var load := GetActualLoad(host);
      if maxLoad - load < |appsOnSameHost| {
        return false;
      }
      var appsNotSameHost := OtherHostApps(equivalence, mapper, n, host);
      var total := TotalRequired(g1, appsOnSameHost, appsNotSameHost);
      TotalIsOutgoing(g1.View(), pl, host);
      ok := BandwidthFits(equivalence, mapper, host, total);
    }

    method VerifyPermutation(g1: SymMatrix<nat>, subGraph: SymMatrix<nat>, equivalence: seq<nat>, mapper: seq<nat>)
      returns (ok: bool)
      requires Indexed() && residual.n >= 1 && g1.Valid() && subGraph.n == g1.n
      requires IsPermutation(equivalence) && |equivalence| == |mapper| == g1.n
      ensures ok == AcceptedOrders(g1.View(), mapper)(equivalence)
    {
      var sizeBeforeCloning := residual.Size();
      ghost var hosts := Hosts(mapper, sizeBeforeCloning);
      ghost var pl := Placed(equivalence, hosts);
      ghost var g, left, loads := g1.View(), residual.View(), Loads();
      var checkedHosts: set<nat> := {};
      for i := 0 to subGraph.Size()
        invariant forall j | 0 <= j < i :: hosts[j] in checkedHosts
        invariant AllFit(g, left, loads, maxLoad, pl, checkedHosts)
      {
        var host := mapper[i] % sizeBeforeCloning;
        if host in checkedHosts {
          continue;
        }
        checkedHosts := checkedHosts + {host};
        var fits := HostAccepts(g1, equivalence, mapper, host);
        if !fits {
          var a := PermutationIsOnto(equivalence, i);
          HostRejects(g, left, loads, maxLoad, equivalence, hosts, a);
          return false;
        }
      }
      CheckedIsFeasible(g, left, loads, maxLoad, equivalence, hosts, checkedHosts);
      return true;
    }

    /** Heap's algorithm: some permutation if and only if one is accepted, after at most n! checks. */
    method GraphIsomorphism(g1: SymMatrix<nat>, subGraph: SymMatrix<nat>, mapper: seq<nat>)
      returns (r: Result<Option<seq<nat>>>, ghost checks: nat)
      requires Indexed() && residual.n >= 1 && g1.Valid() && |mapper| == subGraph.n
      ensures r.InvalidData? <==> g1.n != subGraph.n
      ensures r.Ok? && r.value.Some? ==>
        |r.value.value| == g1.n && IsPermutation(r.value.value) && FirstAccepted(AcceptedOrders(g1.View(), mapper), g1.n, r.value.value)
      ensures r.Ok? && r.value.None? ==>
        forall p | |p| == g1.n && IsPermutation(p) :: !AcceptedOrders(g1.View(), mapper)(p)
      ensures checks <= Factorial(g1.n)
    {
      checks := 0;
      if g1.Size() != subGraph.Size() {
        return InvalidData, checks;
      }
      var n := g1.Size();
      var equivalence := Identity(n);
      var accepted := VerifyPermutation(g1, subGraph, equivalence, mapper);
      checks := 1;
      if accepted {
        IdentityFirst(AcceptedOrders(g1.View(), mapper), n);
        return Ok(Some(equivalence)), checks;
      }
      EmptyPlacementAccepted(g1.View(), mapper, equivalence);
      var found, made := TryPermutations(g1, subGraph, mapper);
      return Ok(found), made;
    }

    /** The loop of Heap's algorithm, once the identity has been rejected. */
    method TryPermutations(g1: SymMatrix<nat>, subGraph: SymMatrix<nat>, mapper: seq<nat>) returns (r: Option<seq<nat>>, ghost checks: nat)
      requires Indexed() && residual.n >= 1 && g1.Valid() && g1.n >= 1 && |mapper| == subGraph.n == g1.n
      requires !AcceptedOrders(g1.View(), mapper)(Identity(g1.n))
      ensures r.Some? ==> |r.value| == g1.n && IsPermutation(r.value) && FirstAccepted(AcceptedOrders(g1.View(), mapper), g1.n, r.value)
      ensures r.None? ==> forall p | |p| == g1.n && IsPermutation(p) :: !AcceptedOrders(g1.View(), mapper)(p)
      ensures checks <= Factorial(g1.n)
    {
      var n := g1.Size();
      ghost var ok := AcceptedOrders(g1.View(), mapper);
      var equivalence := Identity(n);
      var exchangeCounter: seq<nat> := seq(n, _ => 0);
      var exchangeIndex: nat := 1;
      checks := 1;
      EnumerationStarts(ok, n);
      ghost var passes := 0;
      while exchangeIndex < n
        invariant Enumerating(ok, n, passes, exchangeCounter, exchangeIndex, equivalence, checks)
        decreases Factorial(n) - checks, n - exchangeIndex
      {
        if exchangeCounter[exchangeIndex] < exchangeIndex {
          var accepted;
          accepted, equivalence, exchangeCounter := ExchangeAndVerify(g1, subGraph, mapper, ok, passes, exchangeCounter, exchangeIndex, equivalence, checks);
          checks := checks + 1;
          if accepted {
            return Some(equivalence), checks;
          }
          exchangeIndex := 1;
        } else {
          CarryPass(ok, n, passes, exchangeCounter, exchangeIndex, equivalence, checks);
          exchangeCounter := exchangeCounter[exchangeIndex := 0];
          exchangeIndex := exchangeIndex + 1;
        }
        passes := passes + 1;
      }
      EndedRunRejectsAll(ok, n, passes);
      return None, checks;
    }

    /** The branch that exchanges two entries and checks the new vector. */
    method ExchangeAndVerify(g1: SymMatrix<nat>, subGraph: SymMatrix<nat>, mapper: seq<nat>, ghost ok: seq<nat> -> bool, ghost passes: nat,
      counter: seq<nat>, index: nat, equivalence: seq<nat>, ghost checks: nat) returns (accepted: bool, swapped: seq<nat>, counted: seq<nat>)
      requires Indexed() && residual.n >= 1 && g1.Valid() && |mapper| == subGraph.n == g1.n && ok == AcceptedOrders(g1.View(), mapper)
      requires Enumerating(ok, g1.n, passes, counter, index, equivalence, checks) && index < g1.n && counter[index] < index
      ensures checks + 1 <= Factorial(g1.n) && |swapped| == g1.n && IsPermutation(swapped)
      ensures accepted ==> FirstAccepted(ok, g1.n, swapped)
      ensures !accepted ==> Enumerating(ok, g1.n, passes + 1, counted, 1, swapped, checks + 1)
    {
      MoreChecks(g1.n, passes, counter, index, equivalence);
      var position := ExchangePosition(index, counter[index]);
      SwapKeepsPermutation(equivalence, position, index);
      swapped := Swap(equivalence, position, index);
      accepted := VerifyPermutation(g1, subGraph, swapped, mapper);
      counted := counter[index := counter[index] + 1];
      if accepted {
        ExchangeFinds(ok, g1.n, passes, counter, index, equivalence, checks);
      } else {
        ExchangePass(ok, g1.n, passes, counter, index, equivalence, checks);
      }
    }

    lemma ExchangeFinds(ok: seq<nat> -> bool, n: nat, t: nat, c: seq<nat>, i: nat, p: seq<nat>, checks: nat)
      requires Enumerating(ok, n, t, c, i, p, checks) && i < n && c[i] < i
      requires ok(Swap(p, ExchangePosition(i, c[i]), i))
      ensures FirstAccepted(ok, n, Swap(p, ExchangePosition(i, c[i]), i))
    {
      RunStep(n, t, c, i, p);
      assert FirstAcceptedAt(ok, n, Swap(p, ExchangePosition(i, c[i]), i), t + 1);
    }

    lemma MoreChecks(n: nat, t: nat, c: seq<nat>, i: nat, p: seq<nat>)
      requires n >= 1 && Run(n, t) == Heap(c, i, p) && i < n && c[i] < i
      ensures ChecksMade(c, i) + 1 <= Factorial(n)
    {
      RunStep(n, t, c, i, p);
    }

    lemma EmptyPlacementAccepted(g: Sym<nat>, mapper: seq<nat>, p: seq<nat>)
      requires Indexed() && residual.n >= 1 && g.Valid() && |p| == |mapper| == g.n
      ensures g.n == 0 ==> AcceptedOrders(g, mapper)(p)
    {
    }

    /** A placement of k applications on the hosts. */
    ghost predicate Placement(pl: seq<nat>, k: nat)
      reads this, residual
    {
      |pl| == k && forall a | 0 <= a < k :: pl[a] < residual.n
    }

    /** No placement with this canonical set is accepted. */
    ghost predicate Rejects(g: Sym<nat>, canonical: set<nat>)
      requires residual.n >= 1
      reads this, residual
    {
      forall pl | Placement(pl, g.n) && Canonical(pl, residual.n) == canonical :: !Accepted(g, pl)
    }

    ghost predicate CombinationRejected(g: Sym<nat>, comb: seq<nat>)
      requires residual.n >= 1
      reads this, residual
    {
      Rejects(g, Canonical(Hosts(comb, residual.n), residual.n))
    }

    ghost predicate AllRejected(g: Sym<nat>, tested: seq<set<nat>>)
      requires residual.n >= 1
      reads this, residual
    {
      forall i | 0 <= i < |tested| :: Rejects(g, tested[i])
    }

    /** The combination as a set, every clone lowered to the first copy of its host that is free. */
    method CanonicalSet(combination: seq<nat>) returns (acc: set<nat>)
      requires Indexed() && residual.n >= 1
      ensures acc == Canonical(Hosts(combination, residual.n), residual.n)
    {
      var n := residual.Size();
      ghost var hosts := Hosts(combination, n);
      acc := {};
      for i := 0 to |combination|
        invariant acc == Canonical(hosts[..i], n)
      {
        var val := combination[i] % n;
        ghost var h, j: nat, m: nat := val, 0, multiset(hosts[..i])[val];
        while val in acc
          invariant val == h + n * j && j <= m
          decreases m - j
        {
          CopyInCanonical(hosts[..i], h, j, n);
          val := val + n;
          j := j + 1;
        }
        CopyInCanonical(hosts[..i], h, j, n);
        CanonicalSnoc(hosts[..i], h, n);
        acc := acc + {val};
        assert hosts[..i + 1] == hosts[..i] + [h];
      }
      assert hosts[..|combination|] == hosts;
    }

    /** Is there room for one more application on every host of the set? */
    method Remaining(combinationSet: set<nat>) returns (remaining: bool)
      requires Indexed() && residual.n >= 1
      ensures remaining <==> forall v | v in combinationSet :: Loads()[v % residual.n] < maxLoad
    {
      var n := residual.Size();
      remaining := true;
      var rest := combinationSet;
      while rest != {}
        invariant rest <= combinationSet
        invariant forall v | v in combinationSet && v !in rest :: Loads()[v % n] < maxLoad
        decreases |rest|
      {
        var i :| i in rest;
        rest := rest - {i};
        var load := GetActualLoad(i % n);
        remaining := load < maxLoad;
        if !remaining {
          return;
        }
      }
    }

    lemma FullHostRejects(g: Sym<nat>, canonical: set<nat>, v: nat)
      requires Indexed() && residual.n >= 1 && g.Valid()
      requires v in canonical && Loads()[v % residual.n] >= maxLoad
      ensures Rejects(g, canonical)
    {
      forall pl | Placement(pl, g.n) && Canonical(pl, residual.n) == canonical
        ensures !Accepted(g, pl)
      {
        FullHostInfeasible(g, residual.View(), Loads(), maxLoad, pl, v);
      }
    }

    lemma RejectedOrdersReject(g: Sym<nat>, comb: seq<nat>)
      requires Indexed() && residual.n >= 1 && g.Valid() && |comb| == g.n
      requires forall p | |p| == g.n && IsPermutation(p) :: !AcceptedOrders(g, comb)(p)
      ensures CombinationRejected(g, comb)
    {
      var n, hosts := residual.n, Hosts(comb, residual.n);
      var res, loads, max := residual.View(), Loads(), maxLoad;
      var ok := (pl: seq<nat>) => Accepts(g, res, loads, max, pl);
      forall pl | Placement(pl, g.n) && Canonical(pl, n) == Canonical(hosts, n)
        ensures !Accepted(g, pl)
      {
        forall p | |p| == |hosts| && IsPermutation(p)
          ensures !ok(Placed(p, hosts))
        {
          assert !AcceptedOrders(g, comb)(p);
        }
        PruningIsLossless(hosts, pl, n, ok);
      }
    }

    /** The residual bandwidths between the entries of a combination. */
    method SubGraph(combination: seq<nat>) returns (subGraph: SymMatrix<nat>)
      requires Indexed() && residual.n >= 1
      ensures fresh(subGraph) && subGraph.Valid() && subGraph.n == |combination|
      ensures forall r, c | 0 <= r <= c < |combination| ::
        subGraph.View().At(r, c) == residual.View().At(combination[r] % residual.n, combination[c] % residual.n)
    {
      var d, size := residual.data, residual.Size();
      subGraph := new SymMatrix<nat>.NewFn(|combination|,
        (row: nat, col: nat) requires row < |combination| && col < |combination| && |d| == Cells(size) && size >= 1 =>
          d[OutToInIndex(combination[row] % size, combination[col] % size, size)]);
    }

    lemma OrderAccepted(g: Sym<nat>, comb: seq<nat>, order: seq<nat>)
      requires residual.n >= 1 && AcceptedOrders(g, comb)(order)
      ensures Accepted(g, Placed(order, Hosts(comb, residual.n)))
    {
    }

    /** Tries all orders of a combination. */
    method TestCombination(g1: SymMatrix<nat>, combination: seq<nat>) returns (r: Option<seq<nat>>, ghost order: seq<nat>)
      requires Indexed() && residual.n >= 1 && g1.Valid() && |combination| == g1.n
      ensures r.Some? ==>
        && |order| == g1.n && IsPermutation(order) && r.value == Placed(order, Hosts(combination, residual.n))
        && Accepted(g1.View(), r.value) && FirstAccepted(AcceptedOrders(g1.View(), combination), g1.n, order)
      ensures r.None? ==> CombinationRejected(g1.View(), combination)
    {
      var subGraph := SubGraph(combination);
      var result, checks := GraphIsomorphism(g1, subGraph, combination);
      match result.value {
        case None =>
          RejectedOrdersReject(g1.View(), combination);
          return None, [];
        case Some(equivalence) =>
          OrderAccepted(g1.View(), combination, equivalence);
          var n := residual.Size();
          var placement := seq(|equivalence|, i requires 0 <= i < |equivalence| => combination[equivalence[i]] % n);
          assert placement == Placed(equivalence, Hosts(combination, n));
          return Some(placement), equivalence;
      }
    }

    /** One pass of the search loop: a placement, or the knowledge that the combination has none. */
    method TryCombination(g1: SymMatrix<nat>, combination: seq<nat>, testedBefore: seq<set<nat>>)
      returns (r: Option<seq<nat>>, tested: seq<set<nat>>, ghost order: seq<nat>)
      requires Indexed() && residual.n >= 1 && g1.Valid() && |combination| == g1.n
      requires AllRejected(g1.View(), testedBefore)
      ensures AllRejected(g1.View(), tested)
      ensures r.Some? ==>
        && |order| == g1.n && IsPermutation(order) && r.value == Placed(order, Hosts(combination, residual.n))
        && Accepted(g1.View(), r.value) && FirstAccepted(AcceptedOrders(g1.View(), combination), g1.n, order)
      ensures r.None? ==> CombinationRejected(g1.View(), combination)
    {
      tested, order, r := testedBefore, [], None;
      var n := residual.Size();
      var combinationSet := CanonicalSet(combination);
      var remaining := Remaining(combinationSet);
      if combinationSet !in tested && remaining {
        r, order := TestCombination(g1, combination);
        if r.None? {
          RejectedOneMore(g1.View(), tested, combinationSet);
          tested := tested + [combinationSet];
        }
      } else if !remaining {
        ghost var v :| v in combinationSet && Loads()[v % n] >= maxLoad;
        FullHostRejects(g1.View(), combinationSet, v);
      }
    }

    lemma RejectedOneMore(g: Sym<nat>, tested: seq<set<nat>>, canonical: set<nat>)
      requires residual.n >= 1 && AllRejected(g, tested) && Rejects(g, canonical)
      ensures AllRejected(g, tested + [canonical])
    {
      forall i | 0 <= i < |tested| + 1
        ensures Rejects(g, (tested + [canonical])[i])
      {
        if i < |tested| {
          assert Rejects(g, tested[i]);
        }
      }
    }

    /** The placement uses no host more than c times. */
    ghost predicate WithinCopies(pl: seq<nat>, c: nat)
      reads this, residual
    {
      forall h | 0 <= h < residual.n :: multiset(pl)[h] <= c
    }

    /** Some accepted placement uses no host more often than the search can. */
    ghost predicate Placeable(g: Sym<nat>)
      reads this, residual
    {
      residual.n >= 1 && exists pl ::
        Placement(pl, g.n) && WithinCopies(pl, CopyLimit(g.n, residual.n)) && Accepted(g, pl)
    }

    ghost predicate NoneWithin(g: Sym<nat>, c: nat)
      reads this, residual
    {
      forall pl | Placement(pl, g.n) && WithinCopies(pl, c) :: !Accepted(g, pl)
    }

    /** The k-combinations of 0..top that the search has been through. */
    ghost predicate SearchedBelow(g: Sym<nat>, comb: seq<nat>, top: nat)
      requires residual.n >= 1
      reads this, residual
    {
      forall d | IsCombination(d, g.n, top) && Less(d, comb) :: CombinationRejected(g, d)
    }

    ghost predicate LevelSearched(g: Sym<nat>, top: nat)
      requires residual.n >= 1 && g.n >= 1
      reads this, residual
    {
      forall d | IsCombination(d, g.n, top) && d[0] + g.n <= top :: CombinationRejected(g, d)
    }

    /** The placement comes from a combination of a level, all lesser ones of which were rejected, and from the first order
        of that combination that is accepted. */
    ghost predicate FirstOnLevel(g: Sym<nat>, pl: seq<nat>, clones: nat, comb: seq<nat>, order: seq<nat>)
      requires residual.n >= 1
      reads this, residual
    {
      var top := Top(residual.n, clones);
      && IsCombination(comb, g.n, top) && (1 <= g.n <= top ==> comb[0] + g.n <= top) && SearchedBelow(g, comb, top)
      && |order| == g.n && IsPermutation(order) && FirstAccepted(AcceptedOrders(g, comb), g.n, order)
      && pl == Placed(order, Hosts(comb, residual.n)) && Accepted(g, pl)
    }

    /** Every combination that the level enumerates was rejected. */
    ghost predicate LevelEmpty(g: Sym<nat>, clones: nat)
      requires residual.n >= 1
      reads this, residual
    {
      1 <= g.n <= Top(residual.n, clones) && LevelSearched(g, Top(residual.n, clones))
    }

    /** The first placement in the order of the search: fewer clones first, then lesser combinations, then earlier orders. */
    ghost predicate FirstInSearch(g: Sym<nat>, pl: seq<nat>)
      reads this, residual
    {
      residual.n >= 1 && exists c, comb, order :: FirstFrom(g, pl, StartClones(g.n, residual.n), c, comb, order)
    }

    ghost predicate FirstFrom(g: Sym<nat>, pl: seq<nat>, start: nat, c: nat, comb: seq<nat>, order: seq<nat>)
      requires residual.n >= 1
      reads this, residual
    {
      start <= c && FirstOnLevel(g, pl, c, comb, order) && forall b | start <= b < c :: LevelEmpty(g, b)
    }

    lemma FirstFromNext(g: Sym<nat>, pl: seq<nat>, start: nat, c: nat, comb: seq<nat>, order: seq<nat>)
      requires residual.n >= 1 && LevelEmpty(g, start) && FirstFrom(g, pl, start + 1, c, comb, order)
      ensures FirstFrom(g, pl, start, c, comb, order)
    {
    }

    lemma FoundOnLevel(g: Sym<nat>, pl: seq<nat>, clones: nat, comb: seq<nat>, order: seq<nat>)
      requires residual.n >= 1 && IsCombination(comb, g.n, Top(residual.n, clones)) && SearchedBelow(g, comb, Top(residual.n, clones))
      requires 1 <= g.n <= Top(residual.n, clones) ==> comb[0] + g.n <= Top(residual.n, clones)
      requires |order| == g.n && IsPermutation(order) && FirstAccepted(AcceptedOrders(g, comb), g.n, order)
      requires pl == Placed(order, Hosts(comb, residual.n)) && Accepted(g, pl)
      ensures FirstOnLevel(g, pl, clones, comb, order)
    {
    }

    lemma FoundWithinCopies(order: seq<nat>, comb: seq<nat>, clones: nat)
      requires residual.n >= 1 && IsPermutation(order) && |order| == |comb| && Increasing(comb)
      requires forall i | 0 <= i < |comb| :: comb[i] < residual.n * (clones + 1)
      ensures WithinCopies(Placed(order, Hosts(comb, residual.n)), clones + 1)
    {
      PlacedWithinCopies(order, comb, residual.n, clones);
    }

    /** A searched level leaves no accepted placement with that many copies of each host, provided the
        last combination, which the enumeration omits, is not needed. */
    lemma LevelCovers(g: Sym<nat>, clones: nat, top: nat)
      requires residual.n >= 1 && g.n >= 1 && top + 1 == residual.n * (clones + 1)
      requires residual.n + g.n <= top + 1
      requires LevelSearched(g, top)
      ensures NoneWithin(g, clones + 1)
    {
      forall pl | Placement(pl, g.n) && WithinCopies(pl, clones + 1)
        ensures !Accepted(g, pl)
      {
        var d := CombinationOf(pl, residual.n, clones);
        assert IsCombination(d, g.n, top) && d[0] + g.n <= top;
        assert CombinationRejected(g, d);
      }
    }

    /** When there are exactly as many copies as applications, one combination is all. */
    lemma OnlyCombinationCovers(g: Sym<nat>, clones: nat, top: nat)
      requires residual.n >= 1 && g.n >= 1 && top + 1 == residual.n * (clones + 1) == g.n
      requires CombinationRejected(g, First(g.n))
      ensures NoneWithin(g, clones + 1)
    {
      forall pl | Placement(pl, g.n) && WithinCopies(pl, clones + 1)
        ensures !Accepted(g, pl)
      {
        var d := CombinationOf(pl, residual.n, clones);
        OnlyCombination(d, g.n, top);
      }
    }

    lemma NothingBelowFirst(g: Sym<nat>, top: nat)
      requires residual.n >= 1
      ensures SearchedBelow(g, First(g.n), top)
    {
      forall d | IsCombination(d, g.n, top)
        ensures !Less(d, First(g.n))
      {
        FirstIsLeast(g.n, top, d);
      }
    }

    lemma SearchedOneMore(g: Sym<nat>, comb: seq<nat>, next: seq<nat>, top: nat)
      requires residual.n >= 1 && SearchedBelow(g, comb, top) && CombinationRejected(g, comb)
      requires |comb| == g.n
      requires forall d | IsCombination(d, g.n, top) :: !(Less(comb, d) && Less(d, next))
      ensures SearchedBelow(g, next, top)
    {
      forall d | IsCombination(d, g.n, top) && Less(d, next)
        ensures CombinationRejected(g, d)
      {
        LessIsTotal(d, comb);
      }
    }

    lemma SearchedToTheEnd(g: Sym<nat>, comb: seq<nat>, top: nat)
      requires residual.n >= 1 && SearchedBelow(g, comb, top) && CombinationRejected(g, comb)
      requires |comb| == g.n && 1 <= g.n <= top
      requires forall d | IsCombination(d, g.n, top) && Less(comb, d) :: d[0] > top - g.n
      ensures LevelSearched(g, top)
    {
      forall d | IsCombination(d, g.n, top) && d[0] + g.n <= top
        ensures CombinationRejected(g, d)
      {
        LessIsTotal(d, comb);
      }
    }

    lemma EmptyIsNotRejected(g: Sym<nat>)
      requires Indexed() && residual.n >= 1 && g.Valid()
      ensures g.n == 0 ==> !CombinationRejected(g, [])
    {
      var none: seq<nat> := [];
      assert Hosts(none, residual.n) == none;
      assert g.n == 0 ==> Accepted(g, none);
    }

    /** The largest entry of a combination at this level: every host has clones + 1 copies. */
    method SearchingSetSize(clones: nat) returns (top: nat)
      requires Indexed() && residual.n >= 1
      ensures top + 1 == residual.n * (clones + 1) == Slots(residual.n, clones + 1) && top == Top(residual.n, clones)
      ensures residual.n * clones == Slots(residual.n, clones)
    {
      SlotsIsProduct(residual.n, clones);
      SlotsIsProduct(residual.n, clones + 1);
      top := residual.Size() - 1;
      if clones > 0 {
        top := top + residual.Size() * clones;
      }
    }

    /** Moves on after a rejected combination. */
    method NextToSearch(ghost g: Sym<nat>, combination: seq<nat>, k: nat, top: nat) returns (next: Option<seq<nat>>)
      requires residual.n >= 1 && 1 <= k <= top && g.n == k
      requires IsCombination(combination, k, top) && combination[0] <= top - k
      requires SearchedBelow(g, combination, top) && CombinationRejected(g, combination)
      ensures next.None? ==> LevelSearched(g, top)
      ensures next.Some? ==>
        && IsCombination(next.value, k, top) && next.value[0] <= top - k && SearchedBelow(g, next.value, top)
        && Rank(combination, top) < Rank(next.value, top) < Power(top + 1, k)
    {
      next := NextComb(combination, k, top);
      if next.Some? {
        SearchedOneMore(g, combination, next.value, top);
        RankRises(combination, next.value, top);
      } else {
        SearchedToTheEnd(g, combination, top);
      }
    }

    /** The loop over the combinations of one level. */
    method SearchLevel(g1: SymMatrix<nat>, clones: nat, top: nat, testedBefore: seq<set<nat>>)
      returns (r: SearchResult, tested: seq<set<nat>>, ghost comb: seq<nat>, ghost order: seq<nat>)
      requires Indexed() && residual.n >= 1 && g1.Valid()
      requires g1.n <= top + 1 == residual.n * (clones + 1) && top == Top(residual.n, clones)
      requires AllRejected(g1.View(), testedBefore)
      ensures AllRejected(g1.View(), tested)
      ensures r.Found? ==> FirstOnLevel(g1.View(), r.placement, clones, comb, order)
      ensures r.NotFound? ==> 1 <= g1.n <= top && LevelSearched(g1.View(), top)
      ensures r.Panics? ==> 1 <= g1.n == top + 1 && NoneWithin(g1.View(), clones + 1)
    {
      ghost var g := g1.View();
      tested, comb, order := testedBefore, [], [];
      var k := g1.Size();
      var combination: seq<nat> := First(k);
      NothingBelowFirst(g, top);
      EmptyIsNotRejected(g);
      while true
        invariant IsCombination(combination, k, top) && (1 <= k <= top ==> combination[0] <= top - k)
        invariant AllRejected(g, tested) && SearchedBelow(g, combination, top)
        decreases Power(top + 1, k) - Rank(combination, top)
      {
        var placement;
        placement, tested, order := TryCombination(g1, combination, tested);
        if placement.Some? {
          FoundOnLevel(g, placement.value, clones, combination, order);
          return Found(placement.value), tested, combination, order;
        }
        if k > top {
          // next_comb would compute n - k below zero here
          OnlyCombination(combination, k, top);
          OnlyCombinationCovers(g, clones, top);
          return Panics, tested, comb, order;
        }
        var next := NextToSearch(g, combination, k, top);
        if next.None? {
          return NotFound, tested, comb, order;
        }
        combination := next.value;
      }
    }

    /** The search of one level. */
    method SearchWithClones(g1: SymMatrix<nat>, clones: nat, testedBefore: seq<set<nat>>)
      returns (r: SearchResult, tested: seq<set<nat>>, ghost comb: seq<nat>, ghost order: seq<nat>)
      requires Indexed() && residual.n >= 1 && g1.Valid()
      requires g1.n <= Slots(residual.n, clones + 1)
      requires AllRejected(g1.View(), testedBefore)
      ensures AllRejected(g1.View(), tested)
      ensures r.Found? ==>
        Accepted(g1.View(), r.placement) && WithinCopies(r.placement, clones + 1) && FirstFrom(g1.View(), r.placement, clones, clones, comb, order)
      ensures r.NotFound? ==> g1.n < Slots(residual.n, clones + 1) && LevelEmpty(g1.View(), clones)
      ensures r.NotFound? && g1.n <= Slots(residual.n, clones) ==> NoneWithin(g1.View(), clones + 1)
      ensures r.Panics? ==> 1 <= g1.n == Slots(residual.n, clones + 1) && NoneWithin(g1.View(), clones + 1)
    {
      var top := SearchingSetSize(clones);
      r, tested, comb, order := SearchLevel(g1, clones, top, testedBefore);
      if r.Found? {
        LevelWithinCopies(g1.View(), r.placement, clones, comb, order);
      }
      if r.NotFound? {
        LevelEnds(g1.View(), clones, top);
      }
    }

    /** The search of one level and, if it fails, of the levels with more clones. */
    method FindIsoInternal(g1: SymMatrix<nat>, clones: nat, testedBefore: seq<set<nat>>, maxDepth: nat)
      returns (r: SearchResult, ghost c: nat, ghost comb: seq<nat>, ghost order: seq<nat>)
      requires Indexed() && residual.n >= 1 && g1.Valid()
      requires g1.n <= Slots(residual.n, clones + 1)
      requires AllRejected(g1.View(), testedBefore)
      ensures r.Found? ==> Accepted(g1.View(), r.placement) && WithinCopies(r.placement, clones + maxDepth)
      ensures r.Found? ==> FirstFrom(g1.View(), r.placement, clones, c, comb, order)
      ensures r.NotFound? && maxDepth >= 1 && g1.n <= Slots(residual.n, clones + maxDepth - 1) ==>
        NoneWithin(g1.View(), clones + maxDepth)
      ensures r.Panics? ==> 1 <= g1.n == Slots(residual.n, clones + 1) && NoneWithin(g1.View(), clones + 1)
      ensures 1 <= g1.n == Slots(residual.n, clones + 1) && maxDepth >= 1 ==>
        !r.NotFound? && (r.Found? ==> WithinCopies(r.placement, clones + 1))
      decreases maxDepth
    {
      c := clones;
      if maxDepth == 0 {
        return NotFound, c, [], [];
      }
      var tested;
      r, tested, comb, order := SearchWithClones(g1, clones, testedBefore);
      if r.NotFound? {
        r, c, comb, order := FindIsoInternal(g1, clones + 1, tested, maxDepth - 1);
        if r.Found? {
          FirstFromNext(g1.View(), r.placement, clones, c, comb, order);
        }
      }
    }

    lemma LevelEnds(g: Sym<nat>, clones: nat, top: nat)
      requires residual.n >= 1 && g.n >= 1 && top + 1 == residual.n * (clones + 1) && LevelSearched(g, top)
      ensures g.n <= Slots(residual.n, clones) ==> NoneWithin(g, clones + 1)
    {
      if g.n <= Slots(residual.n, clones) {
        SlotsIsProduct(residual.n, clones);
        LevelCovers(g, clones, top);
      }
    }

    lemma IsPlaceable(g: Sym<nat>, pl: seq<nat>)
      requires residual.n >= 1 && Accepted(g, pl) && WithinCopies(pl, CopyLimit(g.n, residual.n))
      ensures Placeable(g)
    {
      assert Placement(pl, g.n);
    }

    lemma NotPlaceable(g: Sym<nat>, c: nat)
      requires NoneWithin(g, c) && c == CopyLimit(g.n, residual.n)
      ensures !Placeable(g)
    {
    }

    lemma LevelWithinCopies(g: Sym<nat>, pl: seq<nat>, c: nat, comb: seq<nat>, order: seq<nat>)
      requires residual.n >= 1 && FirstOnLevel(g, pl, c, comb, order)
      ensures WithinCopies(pl, c + 1)
    {
      TopIsProduct(residual.n, c);
      FoundWithinCopies(order, comb, c);
    }

    lemma SparingLevels(g: Sym<nat>, pl: seq<nat>, c: nat)
      requires residual.n >= 1 && FirstInSearch(g, pl) && c >= StartClones(g.n, residual.n) && !WithinCopies(pl, c + 1)
      ensures LevelEmpty(g, c)
    {
      var d, comb, order :| FirstFrom(g, pl, StartClones(g.n, residual.n), d, comb, order);
      LevelWithinCopies(g, pl, d, comb, order);
    }

    /** The search prefers fewer clones: when what it found uses some host more than c + 1 times, every combination that
        level c enumerates was rejected. */
    lemma FewerClonesFirst(g: Sym<nat>, pl: seq<nat>, c: nat, top: nat)
      requires residual.n >= 1 && FirstInSearch(g, pl) && c >= StartClones(g.n, residual.n) && top + 1 == residual.n * (c + 1)
      requires exists h :: 0 <= h < residual.n && multiset(pl)[h] > c + 1
      ensures 1 <= g.n <= top && LevelSearched(g, top)
    {
      TopIsProduct(residual.n, c);
      assert top == Top(residual.n, c);
      SparingLevels(g, pl, c);
    }

    /** So it uses no host more often than any accepted placement needs, from the clones on that it starts with. */
    lemma FoundIsSparing(g: Sym<nat>, pl: seq<nat>, other: seq<nat>, c: nat)
      requires residual.n >= 1 && FirstInSearch(g, pl) && c >= StartClones(g.n, residual.n) && g.n <= residual.n * c
      requires Accepted(g, other) && WithinCopies(other, c + 1)
      ensures WithinCopies(pl, c + 1)
    {
      if !WithinCopies(pl, c + 1) {
        SparingLevels(g, pl, c);
        EmptyLevelCovers(g, c);
        assert Placement(other, g.n);
      }
    }

    lemma EmptyLevelCovers(g: Sym<nat>, c: nat)
      requires residual.n >= 1 && LevelEmpty(g, c) && g.n <= residual.n * c
      ensures NoneWithin(g, c + 1)
    {
      TopIsProduct(residual.n, c);
      assert residual.n * (c + 1) == residual.n * c + residual.n;
      LevelCovers(g, c, Top(residual.n, c));
    }

    /** An accepted order of a combination shows that it was not rejected. */
    lemma AcceptedNotRejected(g: Sym<nat>, pl: seq<nat>, comb: seq<nat>, order: seq<nat>)
      requires residual.n >= 1 && |order| == |comb| == g.n && IsPermutation(order)
      requires pl == Placed(order, Hosts(comb, residual.n)) && Accepted(g, pl)
      ensures !CombinationRejected(g, comb)
    {
      var hosts := Hosts(comb, residual.n);
      PlacedMultiset(order, hosts);
      assert Canonical(pl, residual.n) == Canonical(hosts, residual.n);
      assert Placement(pl, g.n);
    }

    lemma NoEarlierLevel(g: Sym<nat>, pl: seq<nat>, q: seq<nat>, start: nat, c: nat, comb: seq<nat>, order: seq<nat>, d: nat, comb': seq<nat>, order': seq<nat>)
      requires residual.n >= 1 && FirstFrom(g, pl, start, c, comb, order) && FirstFrom(g, q, start, d, comb', order')
      ensures c >= d
    {
      if c < d {
        assert LevelEmpty(g, c);
        AcceptedNotRejected(g, pl, comb, order);
      }
    }

    lemma NoLesserCombination(g: Sym<nat>, pl: seq<nat>, q: seq<nat>, c: nat, comb: seq<nat>, order: seq<nat>, comb': seq<nat>, order': seq<nat>)
      requires residual.n >= 1 && FirstOnLevel(g, pl, c, comb, order) && FirstOnLevel(g, q, c, comb', order')
      ensures !Less(comb, comb')
    {
      AcceptedNotRejected(g, pl, comb, order);
    }

    /** The outcome of the search is determined: there is one first placement. */
    lemma FirstInSearchIsUnique(g: Sym<nat>, pl: seq<nat>, q: seq<nat>)
      requires FirstInSearch(g, pl) && FirstInSearch(g, q)
      ensures pl == q
    {
      var start := StartClones(g.n, residual.n);
      var c, comb, order :| FirstFrom(g, pl, start, c, comb, order);
      var d, comb', order' :| FirstFrom(g, q, start, d, comb', order');
      NoEarlierLevel(g, pl, q, start, c, comb, order, d, comb', order');
      NoEarlierLevel(g, q, pl, start, d, comb', order', c, comb, order);
      NoLesserCombination(g, pl, q, c, comb, order, comb', order');
      NoLesserCombination(g, q, pl, c, comb', order', comb, order);
      LessIsTotal(comb, comb');
      FirstAcceptedIsUnique(AcceptedOrders(g, comb), g.n, order, order');
    }

    /** The placement search. It finds a placement exactly when one exists that uses no host more often
        than the clones allow; it panics exactly when it fails and has to leave its only combination. */
    method FindIsomorphism(graph: SymMatrix<nat>) returns (r: SearchResult)
      requires Indexed() && graph.Valid()
      ensures r.Found? ==> Accepted(graph.View(), r.placement) && FirstInSearch(graph.View(), r.placement)
      ensures r.Found? <==> Placeable(graph.View())
      ensures !r.Found? ==> (r.Panics? <==> residual.n == 0 || (graph.n >= 1 && (graph.n == residual.n || residual.n == 1)))
    {
      if residual.Size() == 0 {
        return Panics;
      }
      var clones := if graph.Size() > residual.Size() then graph.Size() - residual.Size() else 0;
      ClonesSuffice(graph.n, residual.n);
      ghost var c, comb, order;
      r, c, comb, order := FindIsoInternal(graph, clones, [], 5);
      if r.Found? {
        IsPlaceable(graph.View(), r.placement);
      } else if r.Panics? {
        NotPlaceable(graph.View(), clones + 1);
      } else {
        NotPlaceable(graph.View(), clones + 5);
      }
    }

    method AddLoad(host: ClusterNodeInfo, id: Uuid)
      modifies this`currentLoad, this`attributed
      ensures BooksNow() == AddApp(old(BooksNow()), host, id)
    {
      if host in currentLoad {
        var entries := currentLoad[host];
        if id in entries {
          currentLoad := currentLoad[host := entries[id := entries[id] + 1]];
        } else {
          currentLoad := currentLoad[host := entries[id := 1]];
        }
      } else {
        currentLoad := currentLoad[host := map[id := 1]];
      }
      if host in attributed {
        attributed := attributed[host := attributed[host] + {id}];
      } else {
        attributed := attributed[host := {id}];
        assert {} + {id} == {id};
      }
    }

    /** Every application counts on its host. */
    method PlaceApps(placement: seq<nat>, id: Uuid) returns (affected: set<ClusterNodeInfo>)
      requires BooksNow().Kept() && id !in emulations
      requires forall i | 0 <= i < |placement| :: placement[i] < |hostMapping|
      modifies this`currentLoad, this`attributed
      ensures Placing(old(BooksNow()), BooksNow(), id, placement, |placement|)
      ensures affected == set i | 0 <= i < |placement| :: hostMapping[placement[i]]
    {
      affected := {};
      PlacingStarts(BooksNow(), id, placement);
      for i := 0 to |placement|
        invariant Placing(old(BooksNow()), BooksNow(), id, placement, i)
        invariant affected == set j | 0 <= j < i :: hostMapping[placement[j]]
      {
        PlacingStep(old(BooksNow()), BooksNow(), id, placement, i);
        var host := hostMapping[placement[i]];
        AddLoad(host, id);
        affected := affected + {host};
      }
    }

    /** Takes the bandwidth of every pair of applications on distinct hosts. No entry goes below zero. */
    method Reserve(matrix: SymMatrix<nat>, placement: seq<nat>)
      requires residual.Valid() && matrix.Valid() && matrix != residual && |placement| == matrix.n
      requires forall i | 0 <= i < |placement| :: placement[i] < residual.n
      requires forall h, o | 0 <= h < residual.n && 0 <= o < residual.n && h != o ::
        Reserved(matrix.View(), placement, h, o) <= residual.View().At(h, o)
      modifies residual
      ensures residual.Valid()
      ensures Taken(old(residual.View()), residual.View(), matrix.View(), placement, matrix.n, 0)
    {
      ghost var before, g := residual.View(), matrix.View();
      for i := 0 to matrix.Size()
        invariant residual.Valid() && Taken(before, residual.View(), g, placement, i, 0)
      {
        for j := 0 to i
          invariant residual.Valid() && Taken(before, residual.View(), g, placement, i, j)
        {
          if i == j || placement[i] == placement[j] {
            TakenSkip(before, residual.View(), g, placement, i, j);
            continue;
          }
          ReservePair(before, matrix, placement, i, j);
        }
        TakenRow(before, residual.View(), g, placement, i);
      }
    }

    /** Takes the bandwidth of one pair. */
    method ReservePair(ghost before: Sym<nat>, matrix: SymMatrix<nat>, placement: seq<nat>, i: nat, j: nat)
      requires residual.Valid() && matrix.Valid() && matrix != residual && |placement| == matrix.n && j < i < matrix.n
      requires placement[i] < residual.n && placement[j] < residual.n && placement[i] != placement[j]
      requires Taken(before, residual.View(), matrix.View(), placement, i, j)
      requires Reserved(matrix.View(), placement, placement[i], placement[j]) <= before.At(placement[i], placement[j])
      modifies residual
      ensures residual.Valid() && Taken(before, residual.View(), matrix.View(), placement, i, j + 1)
    {
      TakenStep(before, residual.View(), matrix.View(), placement, i, j);
      var left := residual.Get(placement[i], placement[j]) - matrix.Get(i, j);
      residual.Set(placement[i], placement[j], left);
    }

    /** Gives the bandwidth of every pair of applications back, also of pairs on one host, unless an entry overflows. */
    method GiveBack(e: Emulation) returns (ok: bool)
      requires residual.Valid() && IsSpeeds(residual.View()) && e.matrix.Valid() && |e.equivalence| == e.matrix.n
      requires forall i | 0 <= i < |e.equivalence| :: e.equivalence[i] < residual.n
      modifies residual
      ensures residual.Valid() && residual.n == old(residual.n) && IsSpeeds(residual.View())
      ensures ok <==> !Overflows(old(residual.View()), e)
      ensures ok ==> Given(old(residual.View()), residual.View(), e.matrix, e.equivalence, e.matrix.n, 0)
    {
      ghost var before := residual.View();
      for i := 0 to e.matrix.n
        invariant residual.Valid() && IsSpeeds(residual.View()) && Given(before, residual.View(), e.matrix, e.equivalence, i, 0)
      {
        for j := 0 to i
          invariant residual.Valid() && IsSpeeds(residual.View()) && Given(before, residual.View(), e.matrix, e.equivalence, i, j)
        {
          if i == j {
            continue;
          }
          ok := GivePair(before, e, i, j);
          if !ok {
            return;
          }
        }
        GivenRow(before, residual.View(), e.matrix, e.equivalence, i);
      }
      GivenAll(before, residual.View(), e);
      return true;
    }

    /** Gives the bandwidth of one pair back. */
    method GivePair(ghost before: Sym<nat>, e: Emulation, i: nat, j: nat) returns (ok: bool)
      requires residual.Valid() && IsSpeeds(residual.View()) && e.matrix.Valid() && |e.equivalence| == e.matrix.n && j < i < e.matrix.n
      requires e.equivalence[i] < residual.n && e.equivalence[j] < residual.n
      requires Given(before, residual.View(), e.matrix, e.equivalence, i, j)
      modifies residual
      ensures residual.Valid() && residual.n == old(residual.n) && IsSpeeds(residual.View())
      ensures ok ==> Given(before, residual.View(), e.matrix, e.equivalence, i, j + 1)
      ensures !ok ==> Overflows(before, e)
    {
      ghost var now := residual.View();
      var more := residual.Get(e.equivalence[i], e.equivalence[j]) + e.matrix.Read(i, j);
      ok := more <= MAX_BANDWIDTH;
      if ok {
        GivenStep(before, now, e.matrix, e.equivalence, i, j);
        residual.Set(e.equivalence[i], e.equivalence[j], more);
      } else {
        GivenTooMuch(before, now, e, i, j);
      }
    }

    /** An accepted placement leaves every host within its load. */
    lemma AcceptedLoads(g: Sym<nat>, pl: seq<nat>, h: nat)
      requires Indexed() && Accepted(g, pl) && h < |hostMapping|
      ensures LoadOf(hostMapping[h]) + CountOn(hostMapping, pl, hostMapping[h], |pl|) <= maxLoad
    {
      CountOnHost(hostMapping, pl, h, |pl|);
      assert pl[..|pl|] == pl;
      MultisetCount(pl, h);
      if multiset(pl)[h] > 0 {
        var a :| 0 <= a < |pl| && pl[a] == h;
        assert HostFits(g, residual.View(), Loads(), maxLoad, pl, pl[a]);
      }
    }

    /** Books an accepted placement. */
    method Book(matrix: SymMatrix<nat>, placement: seq<nat>, id: Uuid) returns (affected: set<ClusterNodeInfo>)
      requires Valid() && matrix.Valid() && matrix != residual && id !in emulations
      requires Accepted(matrix.View(), placement)
      modifies this`currentLoad, this`attributed, this`emulations, this`running, residual
      ensures Valid()
      ensures Started(old(BooksNow()), BooksNow(), id, Emulation(matrix.View(), placement))
      ensures Taken(old(residual.View()), residual.View(), matrix.View(), placement, matrix.n, 0)
      ensures affected == set i | 0 <= i < |placement| :: hostMapping[placement[i]]
    {
      ghost var g, books := matrix.View(), BooksNow();
      AcceptedFits(g, placement);
      affected := PlaceApps(placement, id);
      ReserveSpeeds(matrix, placement);
      Record(Emulation(Sym(matrix.n, matrix.data), placement), id, books);
    }

    /** Reserves the bandwidth of an accepted placement. */
    method ReserveSpeeds(matrix: SymMatrix<nat>, placement: seq<nat>)
      requires residual.Valid() && IsSpeeds(residual.View()) && matrix.Valid() && matrix != residual && |placement| == matrix.n
      requires forall i | 0 <= i < |placement| :: placement[i] < residual.n
      requires forall h, o | 0 <= h < residual.n && 0 <= o < residual.n && h != o ::
        Reserved(matrix.View(), placement, h, o) <= residual.View().At(h, o)
      modifies residual
      ensures residual.Valid() && IsSpeeds(residual.View())
      ensures Taken(old(residual.View()), residual.View(), matrix.View(), placement, matrix.n, 0)
    {
      ghost var before := residual.View();
      Reserve(matrix, placement);
      TakenKeepsSpeeds(before, residual.View(), matrix.View(), placement);
    }

    lemma AcceptedFits(g: Sym<nat>, pl: seq<nat>)
      requires Indexed() && Accepted(g, pl)
      ensures forall h | 0 <= h < |hostMapping| :: LoadOf(hostMapping[h]) + CountOn(hostMapping, pl, hostMapping[h], |pl|) <= maxLoad
      ensures forall h, o | 0 <= h < residual.n && 0 <= o < residual.n && h != o :: Reserved(g, pl, h, o) <= residual.View().At(h, o)
    {
      forall h | 0 <= h < |hostMapping|
        ensures LoadOf(hostMapping[h]) + CountOn(hostMapping, pl, hostMapping[h], |pl|) <= maxLoad
      {
        AcceptedLoads(g, pl, h);
      }
      forall h, o | 0 <= h < residual.n && 0 <= o < residual.n && h != o
        ensures Reserved(g, pl, h, o) <= residual.View().At(h, o)
      {
        FeasibleFitsResidual(g, residual.View(), Loads(), maxLoad, pl, h, o);
      }
    }

    /** Puts a placed emulation on record. */
    method Record(e: Emulation, id: Uuid, ghost b: Books)
      requires b.Kept() && id !in b.emulations && e.matrix.Valid() && |e.equivalence| == e.matrix.n
      requires forall i | 0 <= i < |e.equivalence| :: e.equivalence[i] < |b.hosts|
      requires Placing(b, BooksNow(), id, e.equivalence, |e.equivalence|)
      modifies this`emulations, this`running
      ensures BooksNow() == Recorded(old(BooksNow()), id, e) && BooksNow().Kept() && Started(b, BooksNow(), id, e)
    {
      emulations := emulations[id := e];
      running := running[id := Range(|e.equivalence|)];
      assert BooksNow() == Recorded(old(BooksNow()), id, e);
      StartKeepsBooks(b, BooksNow(), id, e);
    }

    /** Books an accepted placement and keeps the ledger. */
    method Deploy(matrix: SymMatrix<nat>, placement: seq<nat>, id: Uuid) returns (affected: set<ClusterNodeInfo>)
      requires Valid() && matrix.Valid() && matrix != residual && id !in emulations
      requires Accepted(matrix.View(), placement)
      modifies this`currentLoad, this`attributed, this`emulations, this`running, residual
      ensures Valid() && (old(Ledger()) ==> Ledger())
      ensures Started(old(BooksNow()), BooksNow(), id, Emulation(matrix.View(), placement))
      ensures Taken(old(residual.View()), residual.View(), matrix.View(), placement, matrix.n, 0)
      ensures affected == set i | 0 <= i < |placement| :: hostMapping[placement[i]]
    {
      affected := Book(matrix, placement, id);
      if old(Ledger()) {
        StartKeepsBalance(old(residual.View()), residual.View(), old(emulations), id, Emulation(matrix.View(), placement), base);
      }
    }

    /** Deploys an emulation if the search finds a placement; otherwise nothing changes. */
    method NewEmulation(matrix: SymMatrix<nat>, id: Uuid) returns (r: Deployment)
      requires Valid() && matrix.Valid() && matrix != residual && id !in emulations
      modifies this`currentLoad, this`attributed, this`emulations, this`running, residual
      ensures Valid() && (old(Ledger()) ==> Ledger())
      ensures r.Deployed? <==> old(Placeable(matrix.View()))
      ensures r.Deployed? ==>
        && old(Accepted(matrix.View(), r.placement)) && old(FirstInSearch(matrix.View(), r.placement))
        && Started(old(BooksNow()), BooksNow(), id, Emulation(matrix.View(), r.placement))
        && Taken(old(residual.View()), residual.View(), matrix.View(), r.placement, matrix.n, 0)
        && r.affected == set i | 0 <= i < |r.placement| :: hostMapping[r.placement[i]]
      ensures !r.Deployed? ==> BooksNow() == old(BooksNow()) && residual.View() == old(residual.View())
      ensures !r.Deployed? ==> (r.Panicked? <==> residual.n == 0 || (matrix.n >= 1 && (matrix.n == residual.n || residual.n == 1)))
    {
      var found := FindIsomorphism(matrix);
      match found {
        case NotFound => return NoPlacement;
        case Panics => return Panicked;
        case Found(placement) =>
          var affected := Deploy(matrix, placement, id);
          return Deployed(placement, affected);
      }
    }

    /** Stops an emulation. While the ledger holds this overflows exactly when two of its applications that ask each
        other for bandwidth share a host. */
    method StopEmulation(id: Uuid) returns (r: StopResult)
      requires Valid()
      modifies this`currentLoad, this`attributed, this`emulations, this`running, residual
      ensures Valid() && (old(Ledger()) && r != Overflow ==> Ledger())
      ensures r == Unknown <==> id !in old(emulations)
      ensures r == Overflow <==> id in old(emulations) && Overflows(old(residual.View()), old(emulations)[id])
      ensures old(Ledger()) && id in old(emulations) ==> (r == Overflow <==> Colocated(old(emulations)[id], old(residual.n)))
      ensures r == Stopped ==>
        && BooksNow() == Stop(old(BooksNow()), id)
        && Given(old(residual.View()), residual.View(), old(emulations[id].matrix), old(emulations[id].equivalence), old(emulations[id].matrix.n), 0)
      ensures r != Stopped ==> BooksNow() == old(BooksNow()) && residual.n == old(residual.n)
      ensures r == Unknown ==> residual.View() == old(residual.View())
    {
      if id !in emulations {
        return Unknown;
      }
      var e := emulations[id];
      assert BooksNow().EmulationOk(id);
      StopKeepsBooks(BooksNow(), id);
      if old(Ledger()) {
        StopOverflowsIff(residual.View(), emulations, id, base);
      }
      var ok := GiveBack(e);
      if !ok {
        return Overflow;
      }
      ForgetEmulation(id);
      if old(Ledger()) {
        StopKeepsBalance(old(residual.View()), residual.View(), old(emulations), id, base);
      }
      return Stopped;
    }

    /** Takes an emulation out of the books. */
    method ForgetEmulation(id: Uuid)
      requires Indexed()
      modifies this`currentLoad, this`attributed, this`emulations, this`running
      ensures BooksNow() == Stop(old(BooksNow()), id)
      ensures Indexed()
    {
      attributed := map node | node in attributed :: attributed[node] - {id};
      currentLoad := map node | node in currentLoad :: currentLoad[node] - {id};
      emulations := emulations - {id};
      running := running - {id};
      assert BooksNow() == Stop(old(BooksNow()), id);
      forall h | 0 <= h < |hostMapping|
        ensures LoadOf(hostMapping[h]) <= maxLoad
      {
        StopTotal(old(BooksNow()), id, hostMapping[h]);
      }
    }

    /** Gives one application's bandwidth to all the others back, unless an entry overflows. */
    method GiveBackApp(e: Emulation, app: nat) returns (ok: bool)
      requires residual.Valid() && IsSpeeds(residual.View()) && e.matrix.Valid() && |e.equivalence| == e.matrix.n && app < e.matrix.n
      requires forall i | 0 <= i < |e.equivalence| :: e.equivalence[i] < residual.n
      modifies residual
      ensures residual.Valid() && residual.n == old(residual.n) && IsSpeeds(residual.View())
      ensures ok <==> !AppOverflows(old(residual.View()), e, app)
      ensures ok ==> GivenByApp(old(residual.View()), residual.View(), e.matrix, e.equivalence, app, e.matrix.n)
    {
      ghost var before := residual.View();
      for i := 0 to e.matrix.n
        invariant residual.Valid() && IsSpeeds(residual.View()) && GivenByApp(before, residual.View(), e.matrix, e.equivalence, app, i)
      {
        if i == app {
          continue;
        }
        ok := GivePairOfApp(before, e, app, i);
        if !ok {
          return;
        }
      }
      GivenAllByApp(before, residual.View(), e, app);
      return true;
    }

    method GivePairOfApp(ghost before: Sym<nat>, e: Emulation, app: nat, i: nat) returns (ok: bool)
      requires residual.Valid() && IsSpeeds(residual.View()) && e.matrix.Valid() && |e.equivalence| == e.matrix.n
      requires app < e.matrix.n && i < e.matrix.n && i != app && e.equivalence[app] < residual.n && e.equivalence[i] < residual.n
      requires GivenByApp(before, residual.View(), e.matrix, e.equivalence, app, i)
      modifies residual
      ensures residual.Valid() && residual.n == old(residual.n) && IsSpeeds(residual.View())
      ensures ok ==> GivenByApp(before, residual.View(), e.matrix, e.equivalence, app, i + 1)
      ensures !ok ==> AppOverflows(before, e, app)
    {
      ghost var now := residual.View();
      var more := residual.Get(e.equivalence[app], e.equivalence[i]) + e.matrix.Read(app, i);
      ok := more <= MAX_BANDWIDTH;
      if ok {
        GivenByAppStep(before, now, e.matrix, e.equivalence, app, i);
        residual.Set(e.equivalence[app], e.equivalence[i], more);
      } else {
        GivenTooMuchByApp(before, now, e, app, i);
      }
    }

    /** One application stops on its own host. The load goes down by one and the last application of an
        emulation takes the record with it. */
    method StopAppEmulationOn(id: Uuid, node: ClusterNodeInfo, app: nat) returns (r: StopResult)
      requires Valid() && (id in emulations ==> CanStopApp(BooksNow(), id, node, app))
      modifies this`currentLoad, this`attributed, this`emulations, this`running, residual
      ensures Valid()
      ensures r == Unknown <==> id !in old(emulations)
      ensures r == Overflow <==> id in old(emulations) && AppOverflows(old(residual.View()), old(emulations)[id], app)
      ensures r == Stopped ==>
        && node in old(currentLoad) && id in old(currentLoad[node]) && node in old(attributed)
        && old(currentLoad[node][id]) > 0 && id in old(running)
        && BooksNow() == StopApp(old(BooksNow()), id, node, app)
        && old(BooksNow().EmulationOk(id)) && app < old(emulations[id].matrix.n)
        && GivenByApp(old(residual.View()), residual.View(), old(emulations[id].matrix), old(emulations[id].equivalence), app, old(emulations[id].matrix.n))
      ensures r != Stopped ==> BooksNow() == old(BooksNow()) && residual.n == old(residual.n)
      ensures r == Unknown ==> residual.View() == old(residual.View())
    {
      if id !in emulations {
        return Unknown;
      }
      ghost var b := BooksNow();
      assert b.EmulationOk(id);
      RunningAppHasLoad(b, id, node, app);
      StopAppKeepsBooks(b, id, node, app);
      var ok := GiveBackApp(emulations[id], app);
      if !ok {
        return Overflow;
      }
      StopAppBooks(id, node, app);
      forall h | 0 <= h < |hostMapping|
        ensures LoadOf(hostMapping[h]) <= maxLoad
      {
        StopAppTotals(b, id, node, app, hostMapping[h]);
        assert BooksNow().Total(hostMapping[h]) <= b.Total(hostMapping[h]);
      }
      return Stopped;
    }

    method StopAppBooks(id: Uuid, node: ClusterNodeInfo, app: nat)
      requires id in running && node in currentLoad && id in currentLoad[node] && currentLoad[node][id] > 0 && node in attributed
      modifies this`currentLoad, this`attributed, this`emulations, this`running
      ensures BooksNow() == StopApp(old(BooksNow()), id, node, app)
    {
      var left := currentLoad[node][id] - 1;
      if left == 0 {
        currentLoad := currentLoad[node := currentLoad[node] - {id}];
        attributed := attributed[node := attributed[node] - {id}];
      } else {
        currentLoad := currentLoad[node := currentLoad[node][id := left]];
      }
      if forall x | x in attributed :: id !in attributed[x] {
        emulations := emulations - {id};
        running := running - {id};
      } else {
        running := running[id := running[id] - {app}];
      }
    }

    /** The emulations that some host lists. */
    method ListedEmulations() returns (uuids: seq<Uuid>)
      ensures forall x :: x in uuids <==> exists node :: BooksNow().Listed(node, x)
    {
      uuids := [];
      var nodes := attributed.Keys;
      while nodes != {}
        invariant nodes <= attributed.Keys
        invariant forall x :: x in uuids <==> exists node :: node !in nodes && BooksNow().Listed(node, x)
        decreases |nodes|
      {
        var node :| node in nodes;
        nodes := nodes - {node};
        ghost var before := uuids;
        var ids := attributed[node];
        while ids != {}
          invariant ids <= attributed[node]
          invariant forall x :: x in uuids <==> x in before || x in attributed[node] - ids
          decreases |ids|
        {
          var id :| id in ids;
          ids := ids - {id};
          uuids := uuids + [id];
        }
        assert forall x :: x in uuids <==> x in before || BooksNow().Listed(node, x);
      }
    }

    /** What has been stopped so far; while the ledger holds none of it shared a host with its own. */
    ghost predicate Stopping(before: Books, now: Books, size: nat, ledger: bool, done: seq<Uuid>) {
      && (ledger ==> forall x | x in done && x in before.emulations :: !Colocated(before.emulations[x], size))
      && (forall x :: x in now.emulations <==> x in before.emulations && x !in done)
      && (forall x | x in now.emulations :: now.emulations[x] == before.emulations[x])
      && (forall node, x :: now.Listed(node, x) ==> before.Listed(node, x))
    }

    lemma StoppingNext(before: Books, now: Books, after: Books, size: nat, ledger: bool, done: seq<Uuid>, id: Uuid)
      requires Stopping(before, now, size, ledger, done)
      requires ledger ==> id in now.emulations ==> !Colocated(now.emulations[id], size)
      requires after.emulations == now.emulations - {id} && forall node, x :: after.Listed(node, x) ==> now.Listed(node, x)
      ensures Stopping(before, after, size, ledger, done + [id])
    {
    }

    /** Stops the emulations of a list; some may be stopped already. */
    method StopAll(uuids: seq<Uuid>) returns (ok: bool)
      requires Valid()
      modifies this`currentLoad, this`attributed, this`emulations, this`running, residual
      ensures Valid() && (old(Ledger()) && ok ==> Ledger()) && residual.n == old(residual.n)
      ensures old(Ledger()) ==> (ok <==> forall x | x in uuids && x in old(emulations) :: !Colocated(old(emulations)[x], old(residual.n)))
      ensures ok ==> forall x :: x in emulations <==> x in old(emulations) && x !in uuids
      ensures forall x | x in emulations :: x in old(emulations) && emulations[x] == old(emulations)[x]
      ensures forall node, x :: BooksNow().Listed(node, x) ==> old(BooksNow()).Listed(node, x)
    {
      ghost var before, size, ledger := BooksNow(), residual.n, Ledger();
      for i := 0 to |uuids|
        invariant Valid() && (ledger ==> Ledger()) && residual.n == size
        invariant Stopping(before, BooksNow(), size, ledger, uuids[..i])
      {
        ok := StopNext(before, ledger, uuids, i);
        if !ok {
          return;
        }
      }
      assert uuids[..|uuids|] == uuids;
      return true;
    }

    /** The next one of the list. */
    method StopNext(ghost before: Books, ghost ledger: bool, uuids: seq<Uuid>, i: nat) returns (ok: bool)
      requires Valid() && (ledger ==> Ledger()) && i < |uuids| && Stopping(before, BooksNow(), residual.n, ledger, uuids[..i])
      modifies this`currentLoad, this`attributed, this`emulations, this`running, residual
      ensures Valid() && (ledger && ok ==> Ledger()) && residual.n == old(residual.n)
      ensures ok ==> Stopping(before, BooksNow(), residual.n, ledger, uuids[..i + 1])
      ensures !ok && ledger ==> exists x :: x in uuids && x in before.emulations && Colocated(before.emulations[x], residual.n)
      ensures forall x | x in emulations :: x in before.emulations && emulations[x] == before.emulations[x]
      ensures forall node, x :: BooksNow().Listed(node, x) ==> before.Listed(node, x)
    {
      ghost var now := BooksNow();
      ok := StopListed(uuids[i]);
      assert uuids[..i + 1] == uuids[..i] + [uuids[i]];
      if ok {
        StoppingNext(before, now, BooksNow(), residual.n, ledger, uuids[..i], uuids[i]);
      } else {
        assert uuids[i] in uuids;
      }
    }

    method StopListed(id: Uuid) returns (ok: bool)
      requires Valid()
      modifies this`currentLoad, this`attributed, this`emulations, this`running, residual
      ensures Valid() && (old(Ledger()) && ok ==> Ledger()) && residual.n == old(residual.n)
      ensures old(Ledger()) ==> (!ok <==> id in old(emulations) && Colocated(old(emulations)[id], old(residual.n)))
      ensures !ok ==> id in old(emulations)
      ensures emulations == if ok then old(emulations) - {id} else old(emulations)
      ensures forall node, x :: BooksNow().Listed(node, x) ==> old(BooksNow()).Listed(node, x)
    {
      var r := StopEmulation(id);
      ok := r != Overflow;
    }

    /** An emulation that some host lists has applications on one host that ask each other for bandwidth. */
    ghost predicate SomeListedColocated()
      reads this, residual
    {
      exists x :: x in emulations && (exists node :: BooksNow().Listed(node, x)) && Colocated(emulations[x], residual.n)
    }

    /** Stops every emulation that some host lists: those with applications. */
    method StopEverything() returns (uuids: seq<Uuid>, ok: bool)
      requires Valid()
      modifies this`currentLoad, this`attributed, this`emulations, this`running, residual
      ensures Valid() && (old(Ledger()) && ok ==> Ledger()) && residual.n == old(residual.n)
      ensures old(Ledger()) ==> (ok <==> !old(SomeListedColocated()))
      ensures forall x :: x in uuids <==> exists node :: old(BooksNow()).Listed(node, x)
      ensures ok ==> forall x :: x in emulations <==> x in old(emulations) && old(emulations)[x].matrix.n == 0
      ensures ok ==> forall x | x in emulations :: emulations[x].matrix.n == 0
      ensures ok ==> forall node, x :: !BooksNow().Listed(node, x)
    {
      uuids := ListedEmulations();
      ok := StopAll(uuids);
      if !ok {
        return;
      }
      ghost var b := BooksNow();
      forall x
        ensures x in emulations <==> x in old(emulations) && old(emulations)[x].matrix.n == 0
        ensures x in emulations ==> emulations[x].matrix.n == 0
      {
        RecordIffListed(old(BooksNow()), x);
      }
      forall node, x
        ensures !b.Listed(node, x)
      {
        RecordIffListed(b, x);
      }
    }

    /** Takes host h out of the matrix and the lists, once nothing runs any more. */
    method DropHost(h: nat)
      requires Valid() && h < |hostMapping| && forall node, x :: !BooksNow().Listed(node, x)
      requires forall x | x in emulations :: emulations[x].matrix.n == 0
      modifies this
      ensures Valid() && (old(Ledger()) ==> Ledger() && Removes(old(base), h, base))
      ensures BooksNow() == RemoveHost(old(BooksNow()), h)
      ensures fresh(residual) && Removes(old(residual.View()), h, residual.View())
    {
      RemoveHostKeepsBooks(BooksNow(), h);
      DropRow(h);
      DropFromLists(h);
    }

    /** Takes row h out of the matrix. */
    method DropRow(h: nat)
      requires IsSpeeds(residual.View()) && h < residual.n && forall x | x in emulations :: emulations[x].matrix.n == 0
      modifies this`residual, this`base
      ensures fresh(residual) && IsSpeeds(residual.View()) && Removes(old(residual.View()), h, residual.View())
      ensures old(Ledger()) ==> Ledger() && Removes(old(base), h, base)
    {
      var smaller := residual.RemoveId(h);
      RemoveKeepsSpeeds(residual.View(), h, smaller.View());
      if old(Ledger()) {
        base := WithoutRow(base, h);
        RemoveKeepsSpeeds(old(base), h, base);
        RemoveHostKeepsBalance(residual.View(), smaller.View(), emulations, old(base), base, h);
      }
      residual := smaller;
    }

    /** Takes host h out of the lists. */
    method DropFromLists(h: nat)
      requires h < |hostMapping| && forall i, j | 0 <= i < j < |hostMapping| :: hostMapping[i] != hostMapping[j]
      requires forall i | 0 <= i < |hostMapping| :: LoadOf(hostMapping[i]) <= maxLoad
      modifies this`hostMapping, this`attributed
      ensures BooksNow() == RemoveHost(old(BooksNow()), h) && |hostMapping| + 1 == |old(hostMapping)|
      ensures forall i, j | 0 <= i < j < |hostMapping| :: hostMapping[i] != hostMapping[j]
      ensures forall i | 0 <= i < |hostMapping| :: LoadOf(hostMapping[i]) <= maxLoad
    {
      var node := hostMapping[h];
      hostMapping := Without(hostMapping, h);
      attributed := attributed - {node};
    }

    /** Removes a host: every emulation with applications is stopped first. While the ledger holds this overflows exactly
        when one of them cannot be stopped. */
    method RemoveClusterNode(info: ClusterNodeInfo) returns (r: Removal, ghost id: nat)
      requires Valid()
      modifies this, residual
      ensures Valid() && (old(Ledger()) && r != OverflowOnStop ==> Ledger())
      ensures r == NoSuchHost <==> info.(port := port) !in old(hostMapping)
      ensures old(Ledger()) ==> (r == OverflowOnStop <==> info.(port := port) in old(hostMapping) && old(SomeListedColocated()))
      ensures r == NoSuchHost ==> BooksNow() == old(BooksNow()) && residual == old(residual) && residual.View() == old(residual.View())
      ensures r.Removed? ==>
        && id < |old(hostMapping)| && old(hostMapping)[id] == info.(port := port)
        && hostMapping == Without(old(hostMapping), id)
        && (old(Ledger()) ==> Removes(old(base), id, base))
        && (forall x :: x in r.uuids <==> exists node :: old(BooksNow()).Listed(node, x))
        && (forall x :: x in emulations <==> x in old(emulations) && old(emulations)[x].matrix.n == 0)
        && (forall node, x :: !BooksNow().Listed(node, x))
    {
      var node := info.(port := port);
      var h := 0;
      while h < |hostMapping| && hostMapping[h] != node
        invariant h <= |hostMapping| && node !in hostMapping[..h]
      {
        h := h + 1;
      }
      id := h;
      if h == |hostMapping| {
        assert hostMapping[..h] == hostMapping;
        return NoSuchHost, id;
      }
      var uuids, ok := StopEverything();
      if !ok {
        return OverflowOnStop, id;
      }
      RemoveHostUnlists(BooksNow(), h);
      DropHost(h);
      r := Removed(uuids);
    }
  }

  /** The number of copies of n hosts when each has c. */
  ghost function Slots(n: nat, c: nat): nat { if c == 0 then 0 else Slots(n, c - 1) + n }

  /** The largest entry of a combination when every host has that many clones besides itself. */
  ghost function Top(n: nat, clones: nat): nat
    requires n >= 1
  {
    Slots(n, clones) + n - 1
  }

  lemma TopIsProduct(n: nat, clones: nat)
    requires n >= 1
    ensures Top(n, clones) + 1 == n * (clones + 1)
  {
    SlotsIsProduct(n, clones);
  }

  lemma {:induction false} SlotsIsProduct(n: nat, c: nat)
    ensures Slots(n, c) == n * c
  {
    if c > 0 {
      SlotsIsProduct(n, c - 1);
      assert n * c == n * (c - 1) + n;
    }
  }

  /** The clones the search starts with. */
  ghost function StartClones(k: nat, n: nat): nat { if k > n then k - n else 0 }

  /** With as many applications as hosts, or with a single host, the first level has one combination. */
  ghost predicate OneCombination(k: nat, n: nat) { 1 <= k && (k == n || n == 1) }

  /** How often the search can use one host. */
  ghost function CopyLimit(k: nat, n: nat): nat {
    StartClones(k, n) + if OneCombination(k, n) then 1 else 5
  }

  lemma ClonesSuffice(k: nat, n: nat)
    requires n >= 1
    ensures k <= Slots(n, StartClones(k, n) + 1) && k <= Slots(n, StartClones(k, n) + 4)
    ensures 1 <= k == Slots(n, StartClones(k, n) + 1) <==> OneCombination(k, n)
  {
    var c := StartClones(k, n);
    SlotsIsProduct(n, c + 1);
    SlotsGrow(n, c + 1, c + 4);
    assert n * (c + 1) == n * c + n;
    if n == 1 {
      assert n * c == c;
    } else if c > 0 {
      assert n * c == (n - 1) * c + c;
      assert (n - 1) * c >= 1;
    }
  }

  lemma {:induction false} SlotsGrow(n: nat, a: nat, b: nat)
    requires a <= b
    ensures Slots(n, a) <= Slots(n, b)
    decreases b
  {
    if a < b {
      SlotsGrow(n, a, b - 1);
    }
  }

  lemma RankRises(a: seq<nat>, b: seq<nat>, n: nat)
    requires Less(a, b) && forall j | 0 <= j < |a| :: a[j] <= n && b[j] <= n
    ensures Rank(a, n) < Rank(b, n) < Power(n + 1, |b|)
  {
    var i: nat :| LessAt(a, b, i);
    RankGrows(a, b, n, i);
    RankBound(b, n);
  }
}
