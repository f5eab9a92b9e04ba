/** The sharing of a network's bandwidth between its flows: emulation/src/bwsync.rs. */
module BwSync {
  import opened Prelude
  import opened SymMatrices
  import opened Routing
  import opened Walks
  import opened Networks
  import opened WaterFilling
  import opened StrictestWins

  /** What makes two flows the same flow. */
  datatype Key<T> = Key(source: T, destination: T)

  // ----- Flows on links -----

  /** The links of the path of a flow. */
  ghost function PathOfKey<T>(net: Net<T>, k: Key<T>): seq<Link<T>> {
    if net.Valid() && net.Knows(k.source, k.destination) then net.PathOf(k.source, k.destination) else []
  }

  /** The flows, among some, whose path takes the link. */
  ghost function Users<T>(net: Net<T>, s: set<Key<T>>, link: Link<T>): set<Key<T>> {
    set k | k in s && OnPath(PathOfKey(net, k), link)
  }

  lemma UsersMore<T>(net: Net<T>, s: set<Key<T>>, k: Key<T>, link: Link<T>)
    ensures OnPath(PathOfKey(net, k), link) ==> Users(net, s + {k}, link) == Users(net, s, link) + {k}
    ensures !OnPath(PathOfKey(net, k), link) ==> Users(net, s + {k}, link) == Users(net, s, link)
  {
  }

  ghost function Restrict<K>(flows: map<K, Flow>, s: set<K>): map<K, Flow>
    requires s <= flows.Keys
  {
    map k | k in s :: flows[k]
  }

  /** What the flows get from each link. */
  ghost function Shares<T>(net: Net<T>, flows: map<Key<T>, Flow>, links: set<Link<T>>): map<Link<T>, map<Key<T>, Flow>> {
    map l | l in links :: Share(Restrict(flows, Users(net, flows.Keys, l)), l.bandwidth)
  }

  lemma SharesJudged<T>(net: Net<T>, flows: map<Key<T>, Flow>, links: set<Link<T>>)
    ensures AllJudged(flows, Shares(net, flows, links))
  {
    var shares := Shares(net, flows, links);
    forall l, k | l in shares && k in shares[l]
      ensures k in flows && Judged(flows[k], shares[l][k])
    {
      var level := Level(Restrict(flows, Users(net, flows.Keys, l)), l.bandwidth);
      assert level >= 0.0 && shares[l][k] == Settle(flows[k], level);
    }
  }

  lemma SharesFit<T>(net: Net<T>, flows: map<Key<T>, Flow>, links: set<Link<T>>, link: Link<T>)
    requires link in links
    ensures link in Shares(net, flows, links)
    ensures Shares(net, flows, links)[link].Keys == Users(net, flows.Keys, link)
    ensures Used(Shares(net, flows, links)[link]) <= link.bandwidth
  {
    ShareFits(Restrict(flows, Users(net, flows.Keys, link)), link.bandwidth);
  }

  ghost predicate AllKnown<T>(net: Net<T>, flows: map<Key<T>, Flow>) {
    forall k | k in flows :: net.Knows(k.source, k.destination)
  }

  // ----- Updates -----

  /** The flows that are shared out: an updated flow takes its place, a flow that uses nothing is left out. */
  function Current<T(==)>(active: map<Key<T>, Flow>, k: Key<T>, f: Flow): map<Key<T>, Flow> {
    if f.used == 0 then active - {k} else active[k := f]
  }

  /** What an active flow had to give up is remembered. */
  function Remembered<T(==)>(active: map<Key<T>, Flow>, k: Key<T>, f: Flow): Flow {
    if k in active then f.(hungry := active[k].hungry) else f
  }

  ghost function LinkSet<T>(path: seq<Link<T>>): set<Link<T>> { set l | l in path }

  /** The flows of the links on the path of the updated flow, shared out again: the strictest share of each. */
  ghost predicate Redistributed<T>(net: Net<T>, active: map<Key<T>, Flow>, k: Key<T>, f: Flow, result: map<Key<T>, Flow>) {
    var links := LinkSet(PathOfKey(net, k));
    Strictest(Shares(net, Current(active, k, f), links), links, result)
  }

  /** The usage of a link by some of the flows, and by all. */
  ghost function LoadOf<T>(net: Net<T>, flows: map<Key<T>, Flow>, s: set<Key<T>>, link: Link<T>): nat
    requires s <= flows.Keys
  {
    UsedOn(flows, Users(net, s, link))
  }

  ghost function Load<T>(net: Net<T>, flows: map<Key<T>, Flow>, link: Link<T>): nat {
    LoadOf(net, flows, flows.Keys, link)
  }

  /** The paths of two flows share a link. */
  ghost predicate Touches<T>(net: Net<T>, k: Key<T>, j: Key<T>) {
    exists l :: l in PathOfKey(net, k) && OnPath(PathOfKey(net, j), l)
  }

  /** Exactly the flows that share a link with the updated one get a new share. */
  lemma RedistributedKey<T>(net: Net<T>, active: map<Key<T>, Flow>, k: Key<T>, f: Flow, result: map<Key<T>, Flow>, j: Key<T>)
    requires WithinMax(active) && f.used <= f.max && Redistributed(net, active, k, f, result)
    ensures j in result <==> j in Current(active, k, f) && Touches(net, k, j)
  {
    if j in result {
      SharedKey(net, active, k, f, result, j);
    }
    if j in Current(active, k, f) && Touches(net, k, j) {
      TouchingKey(net, active, k, f, result, j);
    }
  }

  lemma SharedKey<T>(net: Net<T>, active: map<Key<T>, Flow>, k: Key<T>, f: Flow, result: map<Key<T>, Flow>, j: Key<T>)
    requires Redistributed(net, active, k, f, result) && j in result
    ensures j in Current(active, k, f) && Touches(net, k, j)
  {
    var links := LinkSet(PathOfKey(net, k));
    var shares := Shares(net, Current(active, k, f), links);
    assert IsStrictest(shares, links, j, result[j]);
    var l :| l in links && j in shares[l];
    SharesFit(net, Current(active, k, f), links, l);
    assert l in PathOfKey(net, k);
  }

  lemma TouchingKey<T>(net: Net<T>, active: map<Key<T>, Flow>, k: Key<T>, f: Flow, result: map<Key<T>, Flow>, j: Key<T>)
    requires Redistributed(net, active, k, f, result) && j in Current(active, k, f) && Touches(net, k, j)
    ensures j in result
  {
    var current, links := Current(active, k, f), LinkSet(PathOfKey(net, k));
    var l :| l in PathOfKey(net, k) && OnPath(PathOfKey(net, j), l);
    SharesFit(net, current, links, l);
    assert l in links && j in Users(net, current.Keys, l);
  }

  lemma RedistributedWithinMax<T>(net: Net<T>, active: map<Key<T>, Flow>, k: Key<T>, f: Flow, result: map<Key<T>, Flow>)
    requires WithinMax(active) && f.used <= f.max && Redistributed(net, active, k, f, result)
    ensures WithinMax(result) && result.Keys <= Current(active, k, f).Keys
  {
    var links := LinkSet(PathOfKey(net, k));
    SharesJudged(net, Current(active, k, f), links);
    StrictestWithinMax(Current(active, k, f), Shares(net, Current(active, k, f), links), links, result);
  }

  lemma RedistributedIsUnique<T>(net: Net<T>, active: map<Key<T>, Flow>, k: Key<T>, f: Flow, a: map<Key<T>, Flow>, b: map<Key<T>, Flow>)
    requires WithinMax(active) && f.used <= f.max && Redistributed(net, active, k, f, a) && Redistributed(net, active, k, f, b)
    ensures a == b
  {
    var links := LinkSet(PathOfKey(net, k));
    SharesJudged(net, Current(active, k, f), links);
    StrictestIsUnique(Current(active, k, f), Shares(net, Current(active, k, f), links), links, a, b);
  }

  /** After an update no link on the path of the updated flow carries more than it can. A flow that uses nothing
      must have been removed before. */
  lemma UpdateFits<T>(net: Net<T>, active: map<Key<T>, Flow>, k: Key<T>, f: Flow, result: map<Key<T>, Flow>, link: Link<T>)
    requires WithinMax(active) && f.used <= f.max && (f.used == 0 ==> k !in active)
    requires Redistributed(net, active, k, f, result) && link in PathOfKey(net, k)
    ensures Load(net, active + result, link) <= link.bandwidth
  {
    var current := Current(active, k, f);
    var links := LinkSet(PathOfKey(net, k));
    var after := active + result;
    RedistributedWithinMax(net, active, k, f, result);
    SharesFit(net, current, links, link);
    var users := Users(net, after.Keys, link);
    forall j | j in users
      ensures j in current && j in result
    {
      assert Touches(net, k, j);
      RedistributedKey(net, active, k, f, result, j);
    }
    assert users <= Users(net, current.Keys, link);
    StrictestFits(Shares(net, current, links), links, result, link, after, users);
  }

  /** Usage stays within the maximum. */
  lemma UpdateWithinMax<T>(net: Net<T>, active: map<Key<T>, Flow>, k: Key<T>, f: Flow, result: map<Key<T>, Flow>)
    requires WithinMax(active) && f.used <= f.max && Redistributed(net, active, k, f, result)
    ensures WithinMax(active + result)
  {
    RedistributedWithinMax(net, active, k, f, result);
  }

  lemma TouchesItself<T>(net: Net<T>, k: Key<T>)
    ensures Touches(net, k, k) <==> PathOfKey(net, k) != []
  {
    var path := PathOfKey(net, k);
    if path != [] {
      assert path[0] in path && OnPath(path, path[0]);
    }
  }

  /** The flow itself is active after an update exactly when it was, or uses something on some link; of the others
      none comes or goes. */
  lemma UpdateMembership<T>(net: Net<T>, active: map<Key<T>, Flow>, k: Key<T>, f: Flow, result: map<Key<T>, Flow>, j: Key<T>)
    requires WithinMax(active) && f.used <= f.max && Redistributed(net, active, k, f, result)
    ensures j in active + result <==> j in active || (j == k && f.used != 0 && PathOfKey(net, k) != [])
  {
    RedistributedKey(net, active, k, f, result, j);
    if j == k {
      TouchesItself(net, k);
    }
  }

  // ----- What is left of the bandwidths -----

  /** Takes some usage off a bandwidth; None stands for arithmetic underflow. */
  function Less(used: nat): nat -> Option<nat> {
    (b: nat) => if b >= used then Some(b - used) else None
  }

  /** The link in the cell has lost what some of the flows use on it. */
  ghost predicate CellDeducted<T>(net: Net<T>, bw: Net<T>, flows: map<Key<T>, Flow>, done: set<Key<T>>, i: nat, j: nat)
    requires net.cells.Valid() && bw.cells.Valid() && bw.cells.n == net.cells.n && i < net.cells.n && j < net.cells.n
    requires done <= flows.Keys
  {
    var was, now := net.cells.At(i, j), bw.cells.At(i, j);
    if was.None? then now.None?
    else
      && now.Some? && LoadOf(net, flows, done, was.value) <= was.value.bandwidth
      && now.value == was.value.(bandwidth := was.value.bandwidth - LoadOf(net, flows, done, was.value))
  }

  ghost predicate Deducted<T>(net: Net<T>, bw: Net<T>, flows: map<Key<T>, Flow>, done: set<Key<T>>) {
    && net.Valid() && bw.Valid() && bw.cells.n == net.cells.n && bw.mapper == net.mapper && bw.strategy == net.strategy
    && done <= flows.Keys
    && forall i, j | 0 <= i < net.cells.n && 0 <= j < net.cells.n :: CellDeducted(net, bw, flows, done, i, j)
  }

  /** Some link carries more than it can. */
  ghost predicate Overloaded<T>(net: Net<T>, flows: map<Key<T>, Flow>) {
    net.Valid() && exists i, j | 0 <= i < net.cells.n && 0 <= j < net.cells.n :: OverloadedAt(net, flows, i, j)
  }

  ghost predicate OverloadedAt<T>(net: Net<T>, flows: map<Key<T>, Flow>, i: nat, j: nat)
    requires net.cells.Valid() && i < net.cells.n && j < net.cells.n
  {
    net.cells.At(i, j).Some? && Load(net, flows, net.LinkIn(i, j)) > net.LinkIn(i, j).bandwidth
  }

  lemma NothingDeducted<T>(net: Net<T>, flows: map<Key<T>, Flow>)
    requires net.Valid()
    ensures Deducted(net, net, flows, {})
  {
    forall i, j | 0 <= i < net.cells.n && 0 <= j < net.cells.n
      ensures CellDeducted(net, net, flows, {}, i, j)
    {
      if net.cells.At(i, j).Some? {
        assert Users(net, {}, net.LinkIn(i, j)) == {};
      }
    }
  }

  lemma LoadOneMore<T>(net: Net<T>, flows: map<Key<T>, Flow>, done: set<Key<T>>, k: Key<T>, link: Link<T>)
    requires done <= flows.Keys && k in flows && k !in done
    ensures LoadOf(net, flows, done + {k}, link)
         == LoadOf(net, flows, done, link) + if OnPath(PathOfKey(net, k), link) then flows[k].used else 0
  {
    UsersMore(net, done, k, link);
    if OnPath(PathOfKey(net, k), link) {
      UsedOneMore(flows, Users(net, done, link), k);
    }
  }

  lemma LoadGrows<T>(net: Net<T>, flows: map<Key<T>, Flow>, done: set<Key<T>>, link: Link<T>)
    requires done <= flows.Keys
    ensures LoadOf(net, flows, done, link) <= Load(net, flows, link)
  {
    UsedMonotone(flows, flows, Users(net, done, link), Users(net, flows.Keys, link));
  }

  /** Deducting changes no link, and so no shortest path. */
  lemma DeductedKeepsPaths<T>(net: Net<T>, bw: Net<T>, flows: map<Key<T>, Flow>, done: set<Key<T>>, from: T, to: T)
    requires Deducted(net, bw, flows, done) && net.strategy.ShortestPath? && net.Knows(from, to)
    ensures bw.Back(from, to) == net.Back(from, to)
  {
    var g, h := net.Topology(), bw.Topology();
    net.TopologyValid();
    bw.TopologyValid();
    forall i, j | 0 <= i < g.n && 0 <= j < g.n
      ensures g.Adjacent(i, j) == h.Adjacent(i, j)
    {
      assert CellDeducted(net, bw, flows, done, i, j);
    }
    ShortestWalksFollowLinks(g, h, net.mapper[from], net.mapper[to]);
  }

  lemma CellOneMore<T>(net: Net<T>, bw: Net<T>, flows: map<Key<T>, Flow>, done: set<Key<T>>, k: Key<T>, after: Net<T>, i: nat, j: nat)
    requires Deducted(net, bw, flows, done) && k in flows && k !in done && net.Knows(k.source, k.destination)
    requires after.cells.Valid() && after.cells.n == net.cells.n && i < net.cells.n && j < net.cells.n
    requires CellChanged(bw, after, net.Back(k.source, k.destination), i, j, Less(flows[k].used))
    ensures CellDeducted(net, after, flows, done + {k}, i, j)
  {
    assert CellDeducted(net, bw, flows, done, i, j);
    if net.cells.At(i, j).Some? {
      PathLinksAreCrossed(net, k.source, k.destination, i, j);
      LoadOneMore(net, flows, done, k, net.LinkIn(i, j));
    }
  }

  lemma DeductOne<T>(net: Net<T>, bw: Net<T>, flows: map<Key<T>, Flow>, done: set<Key<T>>, k: Key<T>, after: Net<T>)
    requires Deducted(net, bw, flows, done) && net.strategy.ShortestPath?
    requires k in flows && k !in done && net.Knows(k.source, k.destination)
    requires after.Valid() && Changed(bw, after, bw.Back(k.source, k.destination), Less(flows[k].used))
    ensures Deducted(net, after, flows, done + {k})
  {
    DeductedKeepsPaths(net, bw, flows, done, k.source, k.destination);
    forall i, j | 0 <= i < net.cells.n && 0 <= j < net.cells.n
      ensures CellDeducted(net, after, flows, done + {k}, i, j)
    {
      assert CellChanged(bw, after, bw.Back(k.source, k.destination), i, j, Less(flows[k].used));
      CellOneMore(net, bw, flows, done, k, after, i, j);
    }
  }

  /** Nothing is left of a link for a flow on it: the link is overloaded. */
  lemma UnderflowIsOverload<T>(net: Net<T>, bw: Net<T>, flows: map<Key<T>, Flow>, done: set<Key<T>>, k: Key<T>, l: Link<T>)
    requires Deducted(net, bw, flows, done) && net.strategy.ShortestPath?
    requires k in flows && k !in done && net.Knows(k.source, k.destination)
    requires l in bw.PathOf(k.source, k.destination) && l.bandwidth < flows[k].used
    ensures Overloaded(net, flows)
  {
    DeductedKeepsPaths(net, bw, flows, done, k.source, k.destination);
    var i, j := CellOfPathLink(bw, k.source, k.destination, l);
    assert CellDeducted(net, bw, flows, done, i, j);
    PathLinksAreCrossed(net, k.source, k.destination, i, j);
    OverloadsWith(net, flows, done, k, i, j);
  }

  lemma OverloadsWith<T>(net: Net<T>, flows: map<Key<T>, Flow>, done: set<Key<T>>, k: Key<T>, i: nat, j: nat)
    requires net.Valid() && i < net.cells.n && j < net.cells.n && net.cells.At(i, j).Some?
    requires done <= flows.Keys && k in flows && k !in done && OnPath(PathOfKey(net, k), net.LinkIn(i, j))
    requires LoadOf(net, flows, done, net.LinkIn(i, j)) + flows[k].used > net.LinkIn(i, j).bandwidth
    ensures Overloaded(net, flows)
  {
    LoadOneMore(net, flows, done, k, net.LinkIn(i, j));
    LoadGrows(net, flows, done + {k}, net.LinkIn(i, j));
    OverloadedCell(net, flows, i, j);
  }

  lemma OverloadedCell<T>(net: Net<T>, flows: map<Key<T>, Flow>, i: nat, j: nat)
    requires net.Valid() && i < net.cells.n && j < net.cells.n && OverloadedAt(net, flows, i, j)
    ensures Overloaded(net, flows)
  {
  }

  lemma DeductedFits<T>(net: Net<T>, bw: Net<T>, flows: map<Key<T>, Flow>)
    requires Deducted(net, bw, flows, flows.Keys)
    ensures !Overloaded(net, flows)
  {
    forall i, j | 0 <= i < net.cells.n && 0 <= j < net.cells.n
      ensures !OverloadedAt(net, flows, i, j)
    {
      assert CellDeducted(net, bw, flows, flows.Keys, i, j);
    }
  }

  /** What the loop over the flows keeps. */
  ghost predicate Left<T>(net: Net<T>, bw: Net<T>, flows: map<Key<T>, Flow>, done: set<Key<T>>) {
    && bw.Valid() && bw.mapper == net.mapper && bw.strategy == net.strategy
    && (net.strategy.ShortestPath? ==> Deducted(net, bw, flows, done))
  }

  lemma LeftStep<T>(net: Net<T>, bw: Net<T>, flows: map<Key<T>, Flow>, done: set<Key<T>>, k: Key<T>, after: Net<T>, ok: bool)
    requires Left(net, bw, flows, done) && k in flows && k !in done && net.Knows(k.source, k.destination)
    requires ok <==> forall l | l in bw.PathOf(k.source, k.destination) :: Less(flows[k].used)(l.bandwidth).Some?
    requires ok ==> after.Valid() && Changed(bw, after, bw.Back(k.source, k.destination), Less(flows[k].used))
    ensures ok ==> Left(net, after, flows, done + {k})
    ensures !ok && net.strategy.ShortestPath? ==> Overloaded(net, flows)
  {
    if net.strategy.ShortestPath? {
      if ok {
        DeductOne(net, bw, flows, done, k, after);
      } else {
        var l :| l in bw.PathOf(k.source, k.destination) && Less(flows[k].used)(l.bandwidth).None?;
        UnderflowIsOverload(net, bw, flows, done, k, l);
      }
    }
  }

  lemma OneLess<K>(all: set<K>, rest: set<K>, k: K)
    requires rest <= all && k in rest
    ensures all - rest + {k} == all - (rest - {k}) && |rest - {k}| < |rest|
  {
  }

  lemma LeftStarts<T>(net: Net<T>, flows: map<Key<T>, Flow>)
    requires net.Valid()
    ensures Left(net, net, flows, flows.Keys - flows.Keys)
  {
    assert flows.Keys - flows.Keys == {};
    NothingDeducted(net, flows);
  }

  lemma LeftEnds<T>(net: Net<T>, bw: Net<T>, flows: map<Key<T>, Flow>, done: set<Key<T>>)
    requires Left(net, bw, flows, done) && done == flows.Keys
    ensures net.strategy.ShortestPath? ==> Deducted(net, bw, flows, flows.Keys) && !Overloaded(net, flows)
  {
    if net.strategy.ShortestPath? {
      DeductedFits(net, bw, flows);
    }
  }

  /** The flows outside the rest have taken what they use. */
  ghost predicate Draining<T>(net: Net<T>, bw: Network<T>, flows: map<Key<T>, Flow>, rest: set<Key<T>>)
    reads bw, bw.links
  {
    bw.Valid() && rest <= flows.Keys && Left(net, bw.View(), flows, flows.Keys - rest)
  }

  /** One flow of the loop: its usage comes off the links of its path. */
  method DeductFlow<T(==)>(ghost net: Net<T>, bw: Network<T>, flows: map<Key<T>, Flow>, ghost rest: set<Key<T>>, k: Key<T>) returns (ok: bool)
    requires k in rest && net.Knows(k.source, k.destination) && Draining(net, bw, flows, rest)
    modifies bw.links
    ensures ok ==> Draining(net, bw, flows, rest - {k})
    ensures !ok && net.strategy.ShortestPath? ==> Overloaded(net, flows)
  {
    ghost var before := bw.View();
    ok := bw.UpdateEdgesAlongPathBy(k.source, k.destination, Less(flows[k].used));
    LeftStep(net, before, flows, flows.Keys - rest, k, bw.View(), ok);
    OneLess(flows.Keys, rest, k);
  }

  /** The loop over the flows, in any order. */
  method DeductFlows<T(==)>(ghost net: Net<T>, bw: Network<T>, flows: map<Key<T>, Flow>) returns (ok: bool)
    requires Draining(net, bw, flows, flows.Keys) && AllKnown(net, flows)
    modifies bw.links
    ensures ok ==> Draining(net, bw, flows, {})
    ensures !ok && net.strategy.ShortestPath? ==> Overloaded(net, flows)
  {
    var rest := flows.Keys;
    while rest != {}
      invariant rest <= flows.Keys && Draining(net, bw, flows, rest)
      decreases |rest|
    {
      var k :| k in rest;
      ok := DeductFlow(net, bw, flows, rest, k);
      if !ok {
        return;
      }
      rest := rest - {k};
    }
    return true;
  }

  /** calculate_bandwidth_graph. On a network of shortest paths it fails exactly when some link is overloaded, and
      otherwise leaves of every link what its flows do not use, whatever the order of the flows. */
  method CalculateBandwidthGraph<T(==)>(graph: Network<T>, active: map<Key<T>, Flow>) returns (ok: bool, bw: Network<T>)
    requires graph.Valid() && AllKnown(graph.View(), active)
    ensures fresh(bw) && fresh(bw.links)
    ensures ok ==> bw.links.Valid() && Left(graph.View(), bw.View(), active, active.Keys)
    ensures graph.strategy.ShortestPath? ==> (ok <==> !Overloaded(graph.View(), active))
  {
    bw := graph.Clone();
    LeftStarts(graph.View(), active);
    ok := DeductFlows(graph.View(), bw, active);
    if ok {
      LeftEnds(graph.View(), bw.View(), active, active.Keys - {});
    }
  }

  // ----- The operations -----

  /** The flows of each link. */
  ghost function Grouped<T>(net: Net<T>, flows: map<Key<T>, Flow>, links: set<Link<T>>): map<Link<T>, map<Key<T>, Flow>> {
    map l | l in links :: Restrict(flows, Users(net, flows.Keys, l))
  }

  /** The active flows on a link. */
  method FlowsOnLink<T(==)>(graph: Network<T>, active: map<Key<T>, Flow>, link: Link<T>) returns (flows: map<Key<T>, Flow>)
    requires graph.Valid() && AllKnown(graph.View(), active)
    ensures flows == Restrict(active, Users(graph.View(), active.Keys, link))
  {
    ghost var net := graph.View();
    flows := map[];
    var rest := active.Keys;
    while rest != {}
      invariant rest <= active.Keys
      invariant flows == Restrict(active, Users(net, active.Keys - rest, link))
      decreases |rest|
    {
      var k :| k in rest;
      var path := graph.GetPathBetween(k.source, k.destination);
      if OnPath(path.value, link) {
        flows := flows[k := active[k]];
      }
      RestrictOneMore(net, active, active.Keys - rest, k, link);
      OneLess(active.Keys, rest, k);
      rest := rest - {k};
    }
    assert active.Keys - rest == active.Keys;
  }

  lemma RestrictPut<K>(flows: map<K, Flow>, s: set<K>, k: K)
    requires s <= flows.Keys && k in flows
    ensures Restrict(flows, s + {k}) == Restrict(flows, s)[k := flows[k]]
  {
  }

  lemma RestrictOneMore<T>(net: Net<T>, flows: map<Key<T>, Flow>, done: set<Key<T>>, k: Key<T>, link: Link<T>)
    requires done <= flows.Keys && k in flows
    ensures Restrict(flows, Users(net, done + {k}, link))
         == if OnPath(PathOfKey(net, k), link) then Restrict(flows, Users(net, done, link))[k := flows[k]]
            else Restrict(flows, Users(net, done, link))
  {
    UsersMore(net, done, k, link);
    RestrictPut(flows, Users(net, done, link), k);
  }

  lemma CurrentRestricted<T>(active: map<Key<T>, Flow>, s: set<Key<T>>, k: Key<T>, f: Flow)
    requires s <= active.Keys
    ensures (if f.used == 0 then s - {k} else s + {k}) <= Current(active, k, f).Keys
    ensures Current(Restrict(active, s), k, f) == Restrict(Current(active, k, f), if f.used == 0 then s - {k} else s + {k})
  {
  }

  /** The updated flow among the flows of a link of its path. */
  lemma CurrentOnLink<T>(net: Net<T>, active: map<Key<T>, Flow>, k: Key<T>, f: Flow, link: Link<T>)
    requires link in PathOfKey(net, k)
    ensures Current(Restrict(active, Users(net, active.Keys, link)), k, f)
         == Restrict(Current(active, k, f), Users(net, Current(active, k, f).Keys, link))
  {
    UsersOfCurrent(net, active, k, f, link);
    CurrentRestricted(active, Users(net, active.Keys, link), k, f);
  }

  lemma UsersOfCurrent<T>(net: Net<T>, active: map<Key<T>, Flow>, k: Key<T>, f: Flow, link: Link<T>)
    requires link in PathOfKey(net, k)
    ensures var users := Users(net, active.Keys, link);
      Users(net, Current(active, k, f).Keys, link) == if f.used == 0 then users - {k} else users + {k}
  {
    if f.used == 0 {
      assert Current(active, k, f).Keys == active.Keys - {k};
      UsersLess(net, active.Keys, k, link);
    } else {
      assert Current(active, k, f).Keys == active.Keys + {k};
      assert OnPath(PathOfKey(net, k), link);
      UsersMore(net, active.Keys, k, link);
    }
  }

  lemma UsersLess<T>(net: Net<T>, s: set<Key<T>>, k: Key<T>, link: Link<T>)
    ensures Users(net, s - {k}, link) == Users(net, s, link) - {k}
  {
  }

  lemma GroupedOneMore<T>(net: Net<T>, flows: map<Key<T>, Flow>, links: set<Link<T>>, link: Link<T>)
    ensures Grouped(net, flows, links + {link}) == Grouped(net, flows, links)[link := Restrict(flows, Users(net, flows.Keys, link))]
  {
  }

  lemma GroupedNext<T>(net: Net<T>, flows: map<Key<T>, Flow>, path: seq<Link<T>>, i: nat)
    requires i < |path|
    ensures Grouped(net, flows, LinkSet(path[..i + 1]))
         == Grouped(net, flows, LinkSet(path[..i]))[path[i] := Restrict(flows, Users(net, flows.Keys, path[i]))]
  {
    assert LinkSet(path[..i + 1]) == LinkSet(path[..i]) + {path[i]};
    GroupedOneMore(net, flows, LinkSet(path[..i]), path[i]);
  }

  lemma SharesOfGroups<T>(net: Net<T>, flows: map<Key<T>, Flow>, links: set<Link<T>>, link: Link<T>)
    requires link in links
    ensures link in Shares(net, flows, links) && link in Grouped(net, flows, links)
    ensures Shares(net, flows, links)[link] == Share(Grouped(net, flows, links)[link], link.bandwidth)
  {
  }

  /** get_flows_by_shared_links. */
  method GetFlowsBySharedLinks<T(==)>(k: Key<T>, f: Flow, active: map<Key<T>, Flow>, graph: Network<T>) returns (acc: map<Link<T>, map<Key<T>, Flow>>)
    requires graph.Valid() && graph.Known(k.source, k.destination) && AllKnown(graph.View(), active)
    ensures acc == Grouped(graph.View(), Current(active, k, f), LinkSet(PathOfKey(graph.View(), k)))
  {
    ghost var net := graph.View();
    var flowPath := graph.GetPathBetween(k.source, k.destination);
    var path := flowPath.value;
    acc := map[];
    for i := 0 to |path|
      invariant acc == Grouped(net, Current(active, k, f), LinkSet(path[..i]))
    {
      var flows := FlowsOnLink(graph, active, path[i]);
      CurrentOnLink(net, active, k, f, path[i]);
      GroupedNext(net, Current(active, k, f), path, i);
      acc := acc[path[i] := Current(flows, k, f)];
    }
    assert path[..|path|] == path;
  }

  lemma CurrentWithinMax<T>(active: map<Key<T>, Flow>, k: Key<T>, f: Flow)
    requires WithinMax(active) && f.used <= f.max
    ensures WithinMax(Current(active, k, f))
  {
  }

  /** update_active_flows. */
  method UpdateActiveFlows<T(==)>(k: Key<T>, f: Flow, active: map<Key<T>, Flow>, graph: Network<T>) returns (result: map<Key<T>, Flow>)
    requires graph.Valid() && graph.Known(k.source, k.destination) && AllKnown(graph.View(), active)
    requires WithinMax(active) && f.used <= f.max
    ensures Redistributed(graph.View(), active, k, Remembered(active, k, f), result)
  {
    ghost var net := graph.View();
    var updated := Remembered(active, k, f);
    var linksToCheck := GetFlowsBySharedLinks(k, updated, active, graph);
    ghost var current := Current(active, k, updated);
    ghost var links := LinkSet(PathOfKey(net, k));
    ghost var shares := Shares(net, current, links);
    SharesJudged(net, current, links);
    CurrentWithinMax(active, k, updated);
    result := map[];
    var rest := linksToCheck.Keys;
    while rest != {}
      invariant rest <= links && Strictest(shares, links - rest, result)
      decreases |rest|
    {
      var link :| link in rest;
      SharesOfGroups(net, current, links, link);
      var newFlows := DistributeBandwidthAcrossFlow(link.bandwidth, linksToCheck[link]);
      MergeKeepsStrictest(current, shares, links - rest, result, link);
      OneLess(links, rest, link);
      result := Merge(result, newFlows);
      rest := rest - {link};
    }
    assert links - rest == links;
  }

  /** The flows after an update of a flow, and what is left of the network for them. */
  ghost predicate Served<T(!new)>(net: Net<T>, active: map<Key<T>, Flow>, k: Key<T>, f: Flow, after: map<Key<T>, Flow>) {
    exists result :: Redistributed(net, active, k, f, result) && after == active + result
  }

  /** update_flows. It fails only when some link is overloaded. */
  method UpdateFlows<T(==, !new)>(active: map<Key<T>, Flow>, k: Key<T>, f: Flow, graph: Network<T>, bwGraph: Network<T>)
    returns (after: map<Key<T>, Flow>, ok: bool, bw: Network<T>)
    requires graph.Valid() && bwGraph.Valid() && bwGraph.mapper == graph.mapper && AllKnown(graph.View(), active)
    requires WithinMax(active) && f.used <= f.max
    ensures var net := graph.View();
      if bwGraph.Known(k.source, k.destination) && bwGraph.View().Between(k.source, k.destination).Some? then
        && Served(net, active, k, f.(hungry := if k in active then active[k].hungry else f.hungry), after)
        && (ok ==> bw.links.Valid() && Left(net, bw.View(), after, after.Keys))
        && (net.strategy.ShortestPath? ==> (ok <==> !Overloaded(net, after)))
      else after == active && ok && bw == bwGraph
  {
    after, ok, bw := active, true, bwGraph;
    var bandwidth := bwGraph.BandwidthBetween(k.source, k.destination);
    if bandwidth.Some? {
      var newFlows := UpdateActiveFlows(k, f, active, graph);
      assert Remembered(active, k, f) == f.(hungry := if k in active then active[k].hungry else f.hungry);
      UpdateWithinMax(graph.View(), active, k, Remembered(active, k, f), newFlows);
      after := active + newFlows;
      ok, bw := CalculateBandwidthGraph(graph, after);
    }
  }

  /** remove_flow. */
  method RemoveFlow<T(==, !new)>(active: map<Key<T>, Flow>, k: Key<T>, f: Flow, graph: Network<T>)
    returns (after: map<Key<T>, Flow>, ok: bool, bw: Network<T>)
    requires graph.Valid() && graph.Known(k.source, k.destination) && AllKnown(graph.View(), active)
    requires WithinMax(active) && f.used <= f.max
    ensures var net := graph.View();
      && Served(net, active - {k}, k, f, after)
      && (ok ==> bw.links.Valid() && Left(net, bw.View(), after, after.Keys))
      && (net.strategy.ShortestPath? ==> (ok <==> !Overloaded(net, after)))
  {
    var others := active - {k};
    var newFlows := UpdateActiveFlows(k, f, others, graph);
    after := others + newFlows;
    ok, bw := CalculateBandwidthGraph(graph, after);
  }

  // ----- What an update guarantees -----

  /** After an update every link on the path of the flow carries no more than it can, no flow exceeds its maximum,
      the flow is active if it uses something, and flows that share no link with it are as they were. */
  lemma UpdateGuarantees<T(!new)>(net: Net<T>, active: map<Key<T>, Flow>, k: Key<T>, f: Flow, after: map<Key<T>, Flow>)
    requires WithinMax(active) && 0 < f.used <= f.max && Served(net, active, k, f, after)
    ensures WithinMax(after)
    ensures forall l | l in PathOfKey(net, k) :: Load(net, after, l) <= l.bandwidth
    ensures k in after <==> k in active || PathOfKey(net, k) != []
    ensures forall j | j != k :: j in after <==> j in active
    ensures forall j | j in active && !Touches(net, k, j) :: j in after && after[j] == active[j]
  {
    var result :| Redistributed(net, active, k, f, result) && after == active + result;
    UpdateWithinMax(net, active, k, f, result);
    forall l | l in PathOfKey(net, k)
      ensures Load(net, after, l) <= l.bandwidth
    {
      UpdateFits(net, active, k, f, result, l);
    }
    forall j
      ensures j in after <==> j in active || (j == k && PathOfKey(net, k) != [])
    {
      UpdateMembership(net, active, k, f, result, j);
    }
    forall j | j in active && !Touches(net, k, j)
      ensures j in after && after[j] == active[j]
    {
      RedistributedKey(net, active, k, f, result, j);
    }
  }

  /** Removing a flow takes it out exactly when it is given as using nothing or has no links: a flow that is still
      reported as using something is put back. Either way the links of its path fit afterwards. */
  lemma RemoveGuarantees<T(!new)>(net: Net<T>, active: map<Key<T>, Flow>, k: Key<T>, f: Flow, after: map<Key<T>, Flow>)
    requires WithinMax(active) && f.used <= f.max && Served(net, active - {k}, k, f, after)
    ensures WithinMax(after)
    ensures k !in after <==> f.used == 0 || PathOfKey(net, k) == []
    ensures forall j | j != k :: j in after <==> j in active
    ensures forall l | l in PathOfKey(net, k) :: Load(net, after, l) <= l.bandwidth
  {
    var others := active - {k};
    var result :| Redistributed(net, others, k, f, result) && after == others + result;
    UpdateWithinMax(net, others, k, f, result);
    forall l | l in PathOfKey(net, k)
      ensures Load(net, after, l) <= l.bandwidth
    {
      UpdateFits(net, others, k, f, result, l);
    }
    forall j
      ensures j in after <==> if j == k then f.used != 0 && PathOfKey(net, k) != [] else j in active
    {
      RemovedMembership(net, active, k, f, result, j);
    }
  }

  lemma RemovedMembership<T>(net: Net<T>, active: map<Key<T>, Flow>, k: Key<T>, f: Flow, result: map<Key<T>, Flow>, j: Key<T>)
    requires WithinMax(active) && f.used <= f.max && Redistributed(net, active - {k}, k, f, result)
    ensures j in active - {k} + result <==> if j == k then f.used != 0 && PathOfKey(net, k) != [] else j in active
  {
    UpdateMembership(net, active - {k}, k, f, result, j);
  }

  /** The outcome of an update does not depend on the order in which links and flows are taken. */
  lemma ServedIsUnique<T(!new)>(net: Net<T>, active: map<Key<T>, Flow>, k: Key<T>, f: Flow, a: map<Key<T>, Flow>, b: map<Key<T>, Flow>)
    requires WithinMax(active) && f.used <= f.max && Served(net, active, k, f, a) && Served(net, active, k, f, b)
    ensures a == b
  {
    var x :| Redistributed(net, active, k, f, x) && a == active + x;
    var y :| Redistributed(net, active, k, f, y) && b == active + y;
    RedistributedIsUnique(net, active, k, f, x, y);
  }

  // ----- Links off the path -----

  lemma CurrentOther<T>(active: map<Key<T>, Flow>, k: Key<T>, f: Flow, j: Key<T>)
    requires j in active && j != k
    ensures j in Current(active, k, f) && Current(active, k, f)[j] == active[j]
  {
  }

  lemma NotHungryKeepsUsage<T>(net: Net<T>, active: map<Key<T>, Flow>, k: Key<T>, f: Flow, result: map<Key<T>, Flow>, j: Key<T>)
    requires WithinMax(active) && f.used <= f.max && Redistributed(net, active, k, f, result)
    ensures j in result && j in active && j != k && !active[j].hungry ==> result[j].used <= active[j].used
  {
    if j in result && j in active && j != k {
      var links := LinkSet(PathOfKey(net, k));
      SharesJudged(net, Current(active, k, f), links);
      CurrentOther(active, k, f, j);
      StrictestNotHungry(Current(active, k, f), Shares(net, Current(active, k, f), links), links, result, j);
    }
  }

  /** While no flow that shares a link with the updated one is hungry, no other link gets more load. */
  lemma OffPathLoad<T(!new)>(net: Net<T>, active: map<Key<T>, Flow>, k: Key<T>, f: Flow, after: map<Key<T>, Flow>, link: Link<T>)
    requires WithinMax(active) && f.used <= f.max && Served(net, active, k, f, after)
    requires forall j | j in active && j != k && Touches(net, k, j) :: !active[j].hungry
    requires !OnPath(PathOfKey(net, k), link)
    ensures Load(net, after, link) <= Load(net, active, link)
  {
    var result :| Redistributed(net, active, k, f, result) && after == active + result;
    var users := Users(net, after.Keys, link);
    forall j | j in users
      ensures j in active && after[j].used <= active[j].used
    {
      UpdateMembership(net, active, k, f, result, j);
      RedistributedKey(net, active, k, f, result, j);
      NotHungryKeepsUsage(net, active, k, f, result, j);
    }
    UsedMonotone(after, active, users, Users(net, active.Keys, link));
  }

  // ----- What an update will do -----

  /** The level of a link for the flows on it. */
  ghost function LinkLevel<T>(net: Net<T>, flows: map<Key<T>, Flow>, link: Link<T>): real {
    Level(Restrict(flows, Users(net, flows.Keys, link)), link.bandwidth)
  }

  /** What a flow in the given state would use of the link. */
  ghost function PartOf<T>(net: Net<T>, flows: map<Key<T>, Flow>, f: Flow, link: Link<T>): nat {
    Settle(f, LinkLevel(net, flows, link)).used
  }

  ghost function TakenBy<T>(net: Net<T>, j: Key<T>): Link<T> -> bool {
    (l: Link<T>) => OnPath(PathOfKey(net, j), l)
  }

  ghost function Parts<T>(net: Net<T>, flows: map<Key<T>, Flow>, f: Flow): Link<T> -> nat {
    (l: Link<T>) => PartOf(net, flows, f, l)
  }

  /** The usage of a flow after an update of k, from what is known before it: its least part on the links that the two
      paths share, or what it uses now when they share none. */
  ghost function Foreseen<T>(net: Net<T>, active: map<Key<T>, Flow>, k: Key<T>, f: Flow, j: Key<T>): nat
    requires j in Current(active, k, f)
  {
    var current := Current(active, k, f);
    var part := LeastOn(PathOfKey(net, k), TakenBy(net, j), Parts(net, current, current[j]));
    if part.Some? then part.value else current[j].used
  }

  lemma ShareIsPart<T>(net: Net<T>, flows: map<Key<T>, Flow>, links: set<Link<T>>, l: Link<T>, j: Key<T>)
    requires l in links && j in flows
    ensures l in Shares(net, flows, links)
    ensures j in Shares(net, flows, links)[l] <==> OnPath(PathOfKey(net, j), l)
    ensures OnPath(PathOfKey(net, j), l) ==> Shares(net, flows, links)[l][j] == Settle(flows[j], LinkLevel(net, flows, l))
  {
  }

  /** A flow that shares a link with the updated one uses its least part. */
  lemma RedistributedIsLeast<T>(net: Net<T>, active: map<Key<T>, Flow>, k: Key<T>, f: Flow, result: map<Key<T>, Flow>, j: Key<T>)
    requires Redistributed(net, active, k, f, result) && j in result && j in Current(active, k, f)
    ensures IsLeastOn(PathOfKey(net, k), TakenBy(net, j), Parts(net, Current(active, k, f), Current(active, k, f)[j]), result[j].used)
  {
    var current := Current(active, k, f);
    var path := PathOfKey(net, k);
    var on, part := TakenBy(net, j), Parts(net, current, current[j]);
    var shares: map<Link<T>, map<Key<T>, Flow>> := Shares(net, current, LinkSet(path));
    forall l | l in path
      ensures l in shares && (j in shares[l] <==> on(l)) && (on(l) ==> shares[l][j].used == part(l))
    {
      ShareIsPart(net, current, LinkSet(path), l, j);
    }
    StrictestIsLeast(shares, path, result, j, on, part);
  }

  /** After an update every flow uses what was foreseen, the updated one included when it has links. */
  lemma UpdateForeseen<T(!new)>(net: Net<T>, active: map<Key<T>, Flow>, k: Key<T>, f: Flow, after: map<Key<T>, Flow>, j: Key<T>)
    requires WithinMax(active) && f.used <= f.max && Served(net, active, k, f, after)
    requires j in Current(active, k, f) && (j == k ==> PathOfKey(net, k) != [])
    ensures j in after && after[j].used == Foreseen(net, active, k, f, j)
  {
    var result: map<Key<T>, Flow> :| Redistributed(net, active, k, f, result) && after == active + result;
    RedistributedKey(net, active, k, f, result, j);
    TouchesItself(net, k);
    if j in result {
      ForeseenShared(net, active, k, f, result, j);
    } else {
      ForeseenAlone(net, active, k, f, j);
    }
  }

  lemma ForeseenShared<T>(net: Net<T>, active: map<Key<T>, Flow>, k: Key<T>, f: Flow, result: map<Key<T>, Flow>, j: Key<T>)
    requires Redistributed(net, active, k, f, result) && j in result && j in Current(active, k, f)
    ensures result[j].used == Foreseen(net, active, k, f, j)
  {
    var current := Current(active, k, f);
    RedistributedIsLeast(net, active, k, f, result, j);
    LeastOnUnique(PathOfKey(net, k), TakenBy(net, j), Parts(net, current, current[j]), result[j].used);
  }

  lemma ForeseenAlone<T>(net: Net<T>, active: map<Key<T>, Flow>, k: Key<T>, f: Flow, j: Key<T>)
    requires j in Current(active, k, f) && !Touches(net, k, j)
    ensures Foreseen(net, active, k, f, j) == Current(active, k, f)[j].used
  {
    var current := Current(active, k, f);
    LeastOnIsLeast(PathOfKey(net, k), TakenBy(net, j), Parts(net, current, current[j]));
  }

  /** The link has at least one unit more for a flow than the flow uses now, and the flow may use it. */
  ghost predicate Roomier<T>(net: Net<T>, flows: map<Key<T>, Flow>, f: Flow, link: Link<T>) {
    LinkLevel(net, flows, link) >= f.used as real + 1.0 && f.max > f.used
  }

  /** Exactly when a flow is raised: it was reduced before, and every link that it shares with the updated one has more
      for it than it uses now. */
  lemma RaisedIff<T(!new)>(net: Net<T>, active: map<Key<T>, Flow>, k: Key<T>, f: Flow, after: map<Key<T>, Flow>, j: Key<T>)
    requires WithinMax(active) && f.used <= f.max && Served(net, active, k, f, after) && j in active && j != k && Touches(net, k, j)
    ensures j in after
    ensures after[j].used > active[j].used <==>
      active[j].hungry && forall l | l in PathOfKey(net, k) && OnPath(PathOfKey(net, j), l) :: Roomier(net, Current(active, k, f), active[j], l)
  {
    var result: map<Key<T>, Flow> :| Redistributed(net, active, k, f, result) && after == active + result;
    RedistributedKey(net, active, k, f, result, j);
    CurrentOther(active, k, f, j);
    RedistributedIsLeast(net, active, k, f, result, j);
    RaisedFrom(net, Current(active, k, f), PathOfKey(net, k), j, active[j], result[j].used);
  }

  lemma RaisedFrom<T>(net: Net<T>, flows: map<Key<T>, Flow>, path: seq<Link<T>>, j: Key<T>, f: Flow, u: nat)
    requires IsLeastOn(path, TakenBy(net, j), Parts(net, flows, f), u)
    ensures u > f.used <==> f.hungry && forall l | l in path && OnPath(PathOfKey(net, j), l) :: Roomier(net, flows, f, l)
  {
    var on, part := TakenBy(net, j), Parts(net, flows, f);
    LeastAbove(path, on, part, u, f.used);
    forall l
      ensures part(l) > f.used <==> f.hungry && Roomier(net, flows, f, l)
      ensures on(l) <==> OnPath(PathOfKey(net, j), l)
    {
      PartRaises(f, LinkLevel(net, flows, l));
    }
  }

  lemma PartRaises(f: Flow, level: real)
    requires level >= 0.0
    ensures Settle(f, level).used > f.used <==> f.hungry && level >= f.used as real + 1.0 && f.max > f.used
  {
  }

  /** The load foreseen for a link off the path of the updated flow. */
  ghost function ForeseenLoad<T>(net: Net<T>, active: map<Key<T>, Flow>, k: Key<T>, f: Flow, link: Link<T>): nat {
    Load(net, ForeseenFlows(net, active, k, f), link)
  }

  ghost function ForeseenFlows<T>(net: Net<T>, active: map<Key<T>, Flow>, k: Key<T>, f: Flow): map<Key<T>, Flow> {
    map j: Key<T> | j in Current(active, k, f) :: Current(active, k, f)[j].(used := Foreseen(net, active, k, f, j))
  }

  /** The exact condition under which an update overloads a link off the path of the updated flow: the parts foreseen
      for its users, before the update, add up to more than it can carry. */
  lemma OffPathOverloadsIff<T(!new)>(net: Net<T>, active: map<Key<T>, Flow>, k: Key<T>, f: Flow, after: map<Key<T>, Flow>, link: Link<T>)
    requires WithinMax(active) && f.used <= f.max && Served(net, active, k, f, after) && !OnPath(PathOfKey(net, k), link)
    ensures Load(net, after, link) > link.bandwidth <==> ForeseenLoad(net, active, k, f, link) > link.bandwidth
  {
    var foreseen := ForeseenFlows(net, active, k, f);
    SameLoad(net, after, foreseen, link) by {
      forall j
        ensures j in Users(net, after.Keys, link) <==> j in Users(net, foreseen.Keys, link)
        ensures j in Users(net, foreseen.Keys, link) ==> j in after && after[j].used == foreseen[j].used
      {
        OffPathUser(net, active, k, f, after, link, j);
      }
    }
  }

  lemma SameLoad<T(!new)>(net: Net<T>, a: map<Key<T>, Flow>, b: map<Key<T>, Flow>, link: Link<T>)
    requires forall j :: j in Users(net, a.Keys, link) <==> j in Users(net, b.Keys, link)
    requires forall j | j in Users(net, b.Keys, link) :: j in a && a[j].used == b[j].used
    ensures Load(net, a, link) == Load(net, b, link)
  {
    assert Users(net, a.Keys, link) == Users(net, b.Keys, link);
    UsedSame(a, b, Users(net, a.Keys, link));
  }

  lemma OffPathUser<T(!new)>(net: Net<T>, active: map<Key<T>, Flow>, k: Key<T>, f: Flow, after: map<Key<T>, Flow>, link: Link<T>, j: Key<T>)
    requires WithinMax(active) && f.used <= f.max && Served(net, active, k, f, after) && !OnPath(PathOfKey(net, k), link)
    ensures j in Users(net, after.Keys, link) <==> j in Users(net, Current(active, k, f).Keys, link)
    ensures j in Users(net, Current(active, k, f).Keys, link) ==> j in after && after[j].used == Foreseen(net, active, k, f, j)
  {
    var result: map<Key<T>, Flow> :| Redistributed(net, active, k, f, result) && after == active + result;
    UpdateMembership(net, active, k, f, result, j);
    if j in active && j != k {
      UpdateForeseen(net, active, k, f, after, j);
    }
  }

  /** Before the update: some link off the path of the updated flow will have more load than it can carry. */
  ghost predicate OverloadForeseen<T>(net: Net<T>, active: map<Key<T>, Flow>, k: Key<T>, f: Flow) {
    net.Valid() && exists i, j | 0 <= i < net.cells.n && 0 <= j < net.cells.n :: OverloadForeseenAt(net, active, k, f, i, j)
  }

  ghost predicate OverloadForeseenAt<T>(net: Net<T>, active: map<Key<T>, Flow>, k: Key<T>, f: Flow, i: nat, j: nat)
    requires net.cells.Valid() && i < net.cells.n && j < net.cells.n
  {
    && net.cells.At(i, j).Some? && !OnPath(PathOfKey(net, k), net.LinkIn(i, j))
    && ForeseenLoad(net, active, k, f, net.LinkIn(i, j)) > net.LinkIn(i, j).bandwidth
  }

  /** The exact condition under which an update leaves some link overloaded. */
  lemma UpdateOverloadsIff<T(!new)>(net: Net<T>, active: map<Key<T>, Flow>, k: Key<T>, f: Flow, after: map<Key<T>, Flow>)
    requires net.Valid() && net.Knows(k.source, k.destination)
    requires WithinMax(active) && f.used <= f.max && (f.used == 0 ==> k !in active) && Served(net, active, k, f, after)
    ensures Overloaded(net, after) <==> OverloadForeseen(net, active, k, f)
  {
    forall i, j | 0 <= i < net.cells.n && 0 <= j < net.cells.n
      ensures OverloadedAt(net, after, i, j) <==> OverloadForeseenAt(net, active, k, f, i, j)
    {
      OverloadsAtIff(net, active, k, f, after, i, j);
    }
  }

  lemma OverloadsAtIff<T(!new)>(net: Net<T>, active: map<Key<T>, Flow>, k: Key<T>, f: Flow, after: map<Key<T>, Flow>, i: nat, j: nat)
    requires net.Valid() && net.Knows(k.source, k.destination) && i < net.cells.n && j < net.cells.n
    requires WithinMax(active) && f.used <= f.max && (f.used == 0 ==> k !in active) && Served(net, active, k, f, after)
    ensures OverloadedAt(net, after, i, j) <==> OverloadForeseenAt(net, active, k, f, i, j)
  {
    if net.cells.At(i, j).Some? {
      var link := net.LinkIn(i, j);
      if OnPath(PathOfKey(net, k), link) {
        OnPathIsLink(net, k.source, k.destination, i, j);
        var result: map<Key<T>, Flow> :| Redistributed(net, active, k, f, result) && after == active + result;
        UpdateFits(net, active, k, f, result, link);
      } else {
        OffPathOverloadsIff(net, active, k, f, after, link);
      }
    }
  }

  // ----- The updated flow -----

  /** Every link of the path has room for what the flow asks for, beside the other flows, and none on it was reduced. */
  ghost predicate HasRoom<T>(net: Net<T>, active: map<Key<T>, Flow>, k: Key<T>, asked: nat) {
    forall l | l in PathOfKey(net, k) :: HasRoomOn(net, active, k, asked, l)
  }

  ghost predicate HasRoomOn<T>(net: Net<T>, active: map<Key<T>, Flow>, k: Key<T>, asked: nat, l: Link<T>) {
    && Load(net, active - {k}, l) + asked <= l.bandwidth
    && forall j | j in Users(net, active.Keys, l) :: !active[j].hungry
  }

  /** What an update leaves the updated flow: never more than it asks for when it was not reduced before, and exactly
      that when there is room. */
  lemma UpdatedFlow<T(!new)>(net: Net<T>, active: map<Key<T>, Flow>, k: Key<T>, f: Flow, after: map<Key<T>, Flow>)
    requires WithinMax(active) && 0 < f.used <= f.max && Served(net, active, k, f, after) && PathOfKey(net, k) != []
    ensures k in after && after[k].max == f.max
    ensures !f.hungry ==> after[k].used <= f.used
    ensures !f.hungry && HasRoom(net, active, k, f.used) ==> after[k].used == f.used
  {
    var current, path := Current(active, k, f), PathOfKey(net, k);
    var result: map<Key<T>, Flow> :| Redistributed(net, active, k, f, result) && after == active + result;
    RedistributedKey(net, active, k, f, result, k);
    TouchesItself(net, k);
    RedistributedIsLeast(net, active, k, f, result, k);
    RedistributedMax(net, active, k, f, result, k);
    var l :| l in path && TakenBy(net, k)(l) && Parts(net, current, f)(l) == result[k].used;
    if !f.hungry {
      UpdatedPart(net, active, k, f, l);
    }
  }

  lemma RedistributedMax<T>(net: Net<T>, active: map<Key<T>, Flow>, k: Key<T>, f: Flow, result: map<Key<T>, Flow>, j: Key<T>)
    requires Redistributed(net, active, k, f, result) && j in result && j in Current(active, k, f)
    ensures result[j].max == Current(active, k, f)[j].max
  {
    var links := LinkSet(PathOfKey(net, k));
    var shares: map<Link<T>, map<Key<T>, Flow>> := Shares(net, Current(active, k, f), links);
    assert IsStrictest(shares, links, j, result[j]);
    var l :| l in links && j in shares[l] && result[j] == shares[l][j];
    ShareIsPart(net, Current(active, k, f), links, l, j);
  }

  /** The part that a link of the path has for the updated flow. */
  lemma UpdatedPart<T>(net: Net<T>, active: map<Key<T>, Flow>, k: Key<T>, f: Flow, l: Link<T>)
    requires 0 < f.used && !f.hungry && OnPath(PathOfKey(net, k), l)
    ensures PartOf(net, Current(active, k, f), f, l) <= f.used
    ensures HasRoomOn(net, active, k, f.used, l) ==> PartOf(net, Current(active, k, f), f, l) == f.used
  {
    var flows := OnLink(net, active, k, f, l);
    LinkLevelOf(net, Current(active, k, f), l, flows);
    PartAtMost(f, Level(flows, l.bandwidth));
    if HasRoomOn(net, active, k, f.used, l) {
      RoomForAll(flows, l.bandwidth, k);
    }
  }

  lemma PartAtMost(f: Flow, level: real)
    requires !f.hungry && level >= 0.0
    ensures Settle(f, level).used <= f.used
  {
  }

  lemma LinkLevelOf<T>(net: Net<T>, current: map<Key<T>, Flow>, l: Link<T>, flows: map<Key<T>, Flow>)
    requires flows == Restrict(current, Users(net, current.Keys, l))
    ensures LinkLevel(net, current, l) == Level(flows, l.bandwidth)
  {
  }

  /** The flows of a link of the path. */
  lemma OnLink<T>(net: Net<T>, active: map<Key<T>, Flow>, k: Key<T>, f: Flow, l: Link<T>) returns (flows: map<Key<T>, Flow>)
    requires 0 < f.used && !f.hungry && OnPath(PathOfKey(net, k), l)
    ensures flows == Restrict(Current(active, k, f), Users(net, Current(active, k, f).Keys, l)) && k in flows && flows[k] == f
    ensures HasRoomOn(net, active, k, f.used, l) ==> Used(flows) <= l.bandwidth && forall j | j in flows :: !flows[j].hungry
  {
    var users := Users(net, Current(active, k, f).Keys, l);
    flows := Restrict(Current(active, k, f), users);
    CurrentUsers(net, active, k, f, l);
    CurrentOn(active, k, f, users);
    CurrentLoad(net, active, k, f, l);
  }

  lemma CurrentUsers<T>(net: Net<T>, active: map<Key<T>, Flow>, k: Key<T>, f: Flow, l: Link<T>)
    requires 0 < f.used && OnPath(PathOfKey(net, k), l)
    ensures var users := Users(net, Current(active, k, f).Keys, l);
      k in users && forall j | j in users && j != k :: j in Users(net, active.Keys, l)
  {
  }

  lemma CurrentOn<K>(active: map<Key<K>, Flow>, k: Key<K>, f: Flow, users: set<Key<K>>)
    requires 0 < f.used && k in users && users <= Current(active, k, f).Keys
    ensures var flows := Restrict(Current(active, k, f), users);
      flows.Keys == users && flows[k] == f && forall j | j in users && j != k :: j in active && flows[j] == active[j]
  {
  }

  /** The load of a link of the path once the flow has what it asks for. */
  lemma CurrentLoad<T>(net: Net<T>, active: map<Key<T>, Flow>, k: Key<T>, f: Flow, l: Link<T>)
    requires 0 < f.used && OnPath(PathOfKey(net, k), l)
    ensures var current := Current(active, k, f);
      Used(Restrict(current, Users(net, current.Keys, l))) == Load(net, active - {k}, l) + f.used
  {
    var current, others := Current(active, k, f), active - {k};
    assert current.Keys == others.Keys + {k};
    UsersMore(net, others.Keys, k, l);
    UsedBeside(active, k, f, Users(net, others.Keys, l));
  }

  lemma UsedBeside<K>(active: map<Key<K>, Flow>, k: Key<K>, f: Flow, users: set<Key<K>>)
    requires 0 < f.used && users <= (active - {k}).Keys
    ensures users + {k} <= Current(active, k, f).Keys
    ensures Used(Restrict(Current(active, k, f), users + {k})) == UsedOn(active - {k}, users) + f.used
  {
    var flows := Restrict(Current(active, k, f), users + {k});
    assert flows.Keys == users + {k};
    UsedOneMore(flows, users, k);
    UsedSame(flows, active - {k}, users);
  }
}
