/** An update guards the links on the path of the updated flow only (emulation/src/bwsync.rs:196-211): a flow that had
    to give something up can be raised without a look at its other links. A network of two links shows it. */
module OffPath {
  import opened Prelude
  import opened SymMatrices
  import opened Routing
  import opened Walks
  import opened Networks
  import opened WaterFilling
  import opened StrictestWins
  import opened BwSync

  datatype Vertex = X | Y | Z

  // ----- The network X - Y - Z -----

  function First(): Link<Vertex> { Link(X, Y, 100) }

  function Second(): Link<Vertex> { Link(Y, Z, 50) }

  function Cell(r: nat, c: nat): Option<Link<Vertex>> {
    if r == 0 && c == 1 then Some(First()) else if r == 1 && c == 2 then Some(Second()) else None
  }

  ghost predicate IsLine(net: Net<Vertex>) {
    && net.cells.n == 3 && net.cells.Valid() && net.mapper == map[X := 0, Y := 1, Z := 2] && net.strategy.ShortestPath?
    && forall r, c | 0 <= r <= c < 3 :: net.cells.At(r, c) == Cell(r, c)
  }

  lemma LineExists() returns (net: Net<Vertex>)
    ensures IsLine(net)
  {
    net := Net(FromCells(3, (r: nat, c: nat) => Cell(r, c)), map[X := 0, Y := 1, Z := 2], ShortestPath);
  }

  lemma LineLinks(net: Net<Vertex>)
    requires IsLine(net)
    ensures net.Valid() && net.Topology().Valid()
    ensures forall i, j | 0 <= i < 3 && 0 <= j < 3 :: net.Topology().Adjacent(i, j) <==> (i == 1) != (j == 1)
    ensures net.cells.At(1, 0) == Some(First()) && net.cells.At(2, 1) == Some(Second())
  {
    forall i, j | 0 <= i < 3 && 0 <= j < 3
      ensures net.CellOk(i, j) && (net.Topology().Adjacent(i, j) <==> (i == 1) != (j == 1))
    {
      AtSymmetric(net.cells, i, j);
      assert net.cells.At(if i <= j then i else j, if i <= j then j else i) == Cell(if i <= j then i else j, if i <= j then j else i);
    }
    AtSymmetric(net.cells, 1, 0);
    AtSymmetric(net.cells, 2, 1);
    net.TopologyValid();
  }

  lemma LinePath(g: Graph, from: nat, v: nat)
    requires g.Valid() && g.n == 3 && g.Adjacent(0, 1) && g.Adjacent(1, 2) && g.Adjacent(1, 0)
    requires from < 2 && v < 3 && v != from
    ensures exists p: seq<nat> :: PathFromTo(g, p, from, v)
  {
    var p: seq<nat> := if from == 1 then [1, v] else if v == 1 then [0, 1] else [0, 1, 2];
    assert PathFromTo(g, p, from, v);
  }

  lemma LineReached(net: Net<Vertex>, from: nat, v: nat)
    requires IsLine(net) && from < 2 && v < 3 && v != from
    ensures net.Valid() && net.Topology().Valid() && Search(net.Topology(), ShortestPath, from).parents[v].Some?
  {
    LineLinks(net);
    var g := net.Topology();
    LinePath(g, from, v);
    ParentIffReached(g, ShortestPath, from, v);
    SearchIsBest(g, ShortestPath, from, v);
  }

  /** The parents, on the way back to the source. */
  ghost predicate LineParents(parents: seq<Option<nat>>, from: nat) {
    from < |parents| == 3 && parents[from].None? && parents[2] == Some(1) && (from == 0 ==> parents[1] == Some(0))
  }

  lemma LineHasParents(net: Net<Vertex>, from: nat)
    requires IsLine(net) && from < 2
    ensures net.Valid() && net.Topology().Valid() && LineParents(Search(net.Topology(), ShortestPath, from).parents, from)
  {
    var g := net.Topology();
    LineLinks(net);
    LineReached(net, from, 2);
    ParentIffReached(g, ShortestPath, from, from);
    ParentIsExact(g, ShortestPath, from, 2);
    if from == 0 {
      LineReached(net, from, 1);
      ParentIsExact(g, ShortestPath, from, 1);
    }
  }

  lemma IsLineChain(parents: seq<Option<nat>>, from: nat, w: seq<nat>)
    requires LineParents(parents, from)
    requires (from == 0 && (w == [1, 0] || w == [2, 1, 0])) || (from == 1 && w == [2, 1])
    ensures Chain(parents, w)
  {
  }

  lemma LineWalk(net: Net<Vertex>, from: Vertex, to: Vertex, w: seq<nat>)
    requires IsLine(net)
    requires (from == X && to == Y && w == [1, 0]) || (from == X && to == Z && w == [2, 1, 0]) || (from == Y && to == Z && w == [2, 1])
    ensures net.Valid() && net.Knows(from, to) && net.Back(from, to) == w
  {
    LineLinks(net);
    var a := net.mapper[from];
    LineHasParents(net, a);
    var parents := Search(net.Topology(), ShortestPath, a).parents;
    IsLineChain(parents, a, w);
    ChainUnique(parents, net.Back(from, to), w);
  }

  lemma OneLinkPath(net: Net<Vertex>, from: Vertex, to: Vertex)
    requires IsLine(net) && ((from == X && to == Y) || (from == Y && to == Z))
    ensures PathOfKey(net, Key(from, to)) == if from == X then [First()] else [Second()]
  {
    LineLinks(net);
    LineWalk(net, from, to, if from == X then [1, 0] else [2, 1]);
    net.StepBack(from, to, 0);
  }

  lemma TwoLinkPath(net: Net<Vertex>)
    requires IsLine(net)
    ensures PathOfKey(net, Key(X, Z)) == [First(), Second()]
  {
    LineLinks(net);
    LineWalk(net, X, Z, [2, 1, 0]);
    net.StepBack(X, Z, 0);
    net.StepBack(X, Z, 1);
  }

  // ----- The update -----

  /** Two flows share the second link, each with half of it; one of them also takes the first link. */
  function Long(): Key<Vertex> { Key(X, Z) }
  function Short(): Key<Vertex> { Key(X, Y) }
  function Far(): Key<Vertex> { Key(Y, Z) }

  function Halved(): Flow { Flow(25, 25, 50, true) }
  function Small(): Flow { Flow(0, 10, 100, false) }

  lemma OnOne(a: Link<Vertex>, l: Link<Vertex>)
    ensures OnPath([a], l) <==> SameLink(a, l)
  {
    assert [a][0] == a;
  }

  lemma OnTwo(a: Link<Vertex>, b: Link<Vertex>, l: Link<Vertex>)
    ensures OnPath([a, b], l) <==> SameLink(a, l) || SameLink(b, l)
  {
    assert [a, b][0] == a && [a, b][1] == b;
  }

  lemma LinksUsed(net: Net<Vertex>, link: Link<Vertex>)
    requires IsLine(net) && (link == First() || link == Second())
    ensures OnPath(PathOfKey(net, Long()), link)
    ensures OnPath(PathOfKey(net, Short()), link) <==> link == First()
    ensures OnPath(PathOfKey(net, Far()), link) <==> link == Second()
  {
    TwoLinkPath(net);
    OnTwo(First(), Second(), link);
    OneLinkPath(net, X, Y);
    OnOne(First(), link);
    OneLinkPath(net, Y, Z);
    OnOne(Second(), link);
  }

  /** The users among three flows of which the first is one. */
  lemma UsersOfThree(net: Net<Vertex>, a: Key<Vertex>, b: Key<Vertex>, c: Key<Vertex>, link: Link<Vertex>)
    requires OnPath(PathOfKey(net, a), link) && OnPath(PathOfKey(net, b), link) != OnPath(PathOfKey(net, c), link)
    ensures Users(net, {a, b}, link) == if OnPath(PathOfKey(net, b), link) then {a, b} else {a}
    ensures Users(net, {a, b, c}, link) == if OnPath(PathOfKey(net, b), link) then {a, b} else {a, c}
  {
    UsersOfTwo(net, a, b, link);
    SetOfThree(a, b, c);
    UsersMore(net, {a, b}, c, link);
  }

  lemma UsersOfTwo(net: Net<Vertex>, a: Key<Vertex>, b: Key<Vertex>, link: Link<Vertex>)
    requires OnPath(PathOfKey(net, a), link)
    ensures Users(net, {a, b}, link) == if OnPath(PathOfKey(net, b), link) then {a, b} else {a}
  {
    assert {} + {a} == {a};
    UsersMore(net, {}, a, link);
    SetOfThree(a, b, b);
    UsersMore(net, {a}, b, link);
  }

  lemma SetOfThree<K>(a: K, b: K, c: K)
    ensures {a} + {b} == {a, b} && {a, b} + {c} == {a, b, c} && {a} + {c} == {a, c}
  {
  }

  lemma UsersOf(net: Net<Vertex>, link: Link<Vertex>)
    requires IsLine(net) && (link == First() || link == Second())
    ensures Users(net, {Long(), Far()}, link) == if link == First() then {Long()} else {Long(), Far()}
    ensures Users(net, {Long(), Far(), Short()}, link) == if link == First() then {Long(), Short()} else {Long(), Far()}
  {
    LinksUsed(net, link);
    UsersOfThree(net, Long(), Far(), Short(), link);
  }

  lemma UsedOne(flows: map<Key<Vertex>, Flow>, a: Key<Vertex>)
    requires a in flows
    ensures UsedOn(flows, {a}) == flows[a].used
  {
    UsedOneMore(flows, {}, a);
    assert {} + {a} == {a};
  }

  lemma UsedTwo(flows: map<Key<Vertex>, Flow>, a: Key<Vertex>, b: Key<Vertex>)
    requires a in flows && b in flows && a != b
    ensures UsedOn(flows, {a, b}) == flows[a].used + flows[b].used
  {
    UsedOne(flows, a);
    UsedOneMore(flows, {a}, b);
    assert {a} + {b} == {a, b};
  }

  /** The level of the first link. */
  lemma FirstLinkShare(flows: map<Key<Vertex>, Flow>)
    requires flows == map[Long() := Halved(), Short() := Small()]
    ensures Share(flows, 100) == map[Long() := Flow(50, 50, 50, true), Short() := Flow(100, 10, 100, false)]
  {
    var level := 90.0;
    assert Reduced(flows, level) == {Long()};
    assert flows.Keys - {Long()} == {Short()};
    UsedPick(flows, {Short()}, Short());
    assert {Short()} - {Short()} == {};
    assert Times(level, 1) == Times(level, 0) + level;
    assert IsLevel(flows, 100, level);
    LevelUnique(flows, 100, level, Level(flows, 100));
  }

  function Before(): map<Key<Vertex>, Flow> { map[Long() := Halved(), Far() := Halved()] }

  function Result(): map<Key<Vertex>, Flow> { map[Long() := Flow(50, 50, 50, true), Short() := Flow(100, 10, 100, false)] }

  /** Two links that share out alike. */
  lemma SameShares(shares: map<Link<Vertex>, map<Key<Vertex>, Flow>>, links: set<Link<Vertex>>, a: Link<Vertex>, b: Link<Vertex>,
    result: map<Key<Vertex>, Flow>)
    requires links == {a, b} && a in shares && b in shares && shares[a] == result && shares[b] == result
    ensures Strictest(shares, links, result)
  {
    forall k | k in result
      ensures IsStrictest(shares, links, k, result[k])
    {
      assert a in links && k in shares[a];
    }
  }

  /** The link gives the users of the flows this result. */
  ghost predicate Gives(net: Net<Vertex>, flows: map<Key<Vertex>, Flow>, link: Link<Vertex>, users: set<Key<Vertex>>, result: map<Key<Vertex>, Flow>) {
    users <= flows.Keys && Users(net, flows.Keys, link) == users && Share(Restrict(flows, users), link.bandwidth) == result
  }

  /** An update all of whose links share out the same flows alike. */
  lemma RedistributesAlike(net: Net<Vertex>, active: map<Key<Vertex>, Flow>, k: Key<Vertex>, f: Flow,
    users: set<Key<Vertex>>, a: Link<Vertex>, b: Link<Vertex>, result: map<Key<Vertex>, Flow>)
    requires PathOfKey(net, k) == [a, b] || (a == b && PathOfKey(net, k) == [a])
    requires Gives(net, Current(active, k, f), a, users, result) && Gives(net, Current(active, k, f), b, users, result)
    ensures Redistributed(net, active, k, f, result)
  {
    PathLinks(a, b);
    var links := LinkSet(PathOfKey(net, k));
    GivesShare(net, Current(active, k, f), links, a, users, result);
    GivesShare(net, Current(active, k, f), links, b, users, result);
    assert links == {a, b};
    SameShares(Shares(net, Current(active, k, f), links), links, a, b, result);
  }

  lemma GivesShare(net: Net<Vertex>, flows: map<Key<Vertex>, Flow>, links: set<Link<Vertex>>, l: Link<Vertex>,
    users: set<Key<Vertex>>, result: map<Key<Vertex>, Flow>)
    requires Gives(net, flows, l, users, result)
    ensures l in links ==> l in Shares(net, flows, links) && Shares(net, flows, links)[l] == result
  {
  }

  lemma PathLinks(a: Link<Vertex>, b: Link<Vertex>)
    ensures LinkSet([a]) == {a} && LinkSet([a, b]) == {a, b}
  {
    assert [a][0] == a && [a, b][0] == a && [a, b][1] == b;
  }

  lemma CurrentFlows()
    ensures Current(Before(), Short(), Small()) == map[Long() := Halved(), Far() := Halved(), Short() := Small()]
    ensures Current(Before(), Short(), Small()).Keys == {Long(), Far(), Short()}
  {
  }

  lemma RestrictedFlows(flows: map<Key<Vertex>, Flow>)
    requires flows == map[Long() := Halved(), Far() := Halved(), Short() := Small()]
    ensures Restrict(flows, {Long(), Short()}) == map[Long() := Halved(), Short() := Small()]
  {
  }

  lemma ResultIsGiven(net: Net<Vertex>, current: map<Key<Vertex>, Flow>, link: Link<Vertex>)
    requires IsLine(net) && link == First() && current == map[Long() := Halved(), Far() := Halved(), Short() := Small()]
    ensures Gives(net, current, link, {Long(), Short()}, Result())
  {
    CurrentFlows();
    UsersOf(net, link);
    RestrictedFlows(current);
    FirstLinkShare(Restrict(current, {Long(), Short()}));
  }

  lemma ResultIsRedistributed(net: Net<Vertex>, active: map<Key<Vertex>, Flow>, k: Key<Vertex>, f: Flow, result: map<Key<Vertex>, Flow>, link: Link<Vertex>)
    requires IsLine(net) && active == Before() && k == Short() && f == Small() && result == Result() && link == First()
    ensures Redistributed(net, active, k, f, result)
  {
    OneLinkPath(net, X, Y);
    CurrentFlows();
    ResultIsGiven(net, Current(active, k, f), link);
    RedistributesAlike(net, active, k, f, {Long(), Short()}, link, link, result);
  }

  lemma KeysBefore()
    ensures Before().Keys == {Long(), Far()}
    ensures (Before() + Result()).Keys == {Long(), Far(), Short()}
    ensures (Before() + Result())[Long()].used == 50 && (Before() + Result())[Far()].used == 25
  {
  }

  /** 25 of 100 and 50 of 50 before the update, 75 of 50 on the second link after it. */
  lemma Loads(net: Net<Vertex>)
    requires IsLine(net)
    ensures Load(net, Before(), First()) == 25 && Load(net, Before(), Second()) == 50
    ensures Load(net, Before() + Result(), Second()) == 75
  {
    KeysBefore();
    UsersOf(net, First());
    UsersOf(net, Second());
    UsedOne(Before(), Long());
    UsedTwo(Before(), Long(), Far());
    UsedTwo(Before() + Result(), Long(), Far());
  }

  lemma CellsOfLine(net: Net<Vertex>, i: nat, j: nat)
    requires IsLine(net) && i < 3 && j < 3
    ensures net.cells.At(i, j).Some? ==> net.LinkIn(i, j) == First() || net.LinkIn(i, j) == Second()
  {
    AtSymmetric(net.cells, i, j);
    if i <= j {
      assert net.cells.At(i, j) == Cell(i, j);
    } else {
      assert net.cells.At(j, i) == Cell(j, i);
    }
  }

  lemma FitsLine(net: Net<Vertex>, flows: map<Key<Vertex>, Flow>)
    requires IsLine(net) && Load(net, flows, First()) <= 100 && Load(net, flows, Second()) <= 50
    ensures !Overloaded(net, flows)
  {
    forall i, j | 0 <= i < 3 && 0 <= j < 3
      ensures !OverloadedAt(net, flows, i, j)
    {
      CellsOfLine(net, i, j);
    }
  }

  lemma OverloadsLine(net: Net<Vertex>, flows: map<Key<Vertex>, Flow>)
    requires IsLine(net) && Load(net, flows, Second()) > 50
    ensures Overloaded(net, flows)
  {
    LineLinks(net);
    assert net.LinkIn(2, 1) == Second();
    assert OverloadedAt(net, flows, 2, 1);
  }

  lemma KnownBefore(net: Net<Vertex>)
    requires IsLine(net)
    ensures AllKnown(net, Before()) && WithinMax(Before())
  {
    KeysBefore();
  }

  lemma ServedAfter(net: Net<Vertex>)
    requires IsLine(net)
    ensures Served(net, Before(), Short(), Small(), Before() + Result())
  {
    ResultIsRedistributed(net, Before(), Short(), Small(), Result(), First());
  }

  // ----- How the flows got there -----

  /** A flow that asks for all that the second link has. */
  function Full(): Flow { Flow(0, 50, 50, false) }

  function Granted(): Flow { Flow(50, 50, 50, false) }

  function Alone(): map<Key<Vertex>, Flow> { map[Long() := Granted()] }

  /** A single flow keeps what it uses. */
  lemma AloneShare(flows: map<Key<Vertex>, Flow>, capacity: nat)
    requires flows == map[Long() := Full()] && capacity >= 50
    ensures Share(flows, capacity) == Alone()
  {
    var level := 50.0;
    assert Reduced(flows, level) == {} && flows.Keys - {} == {Long()};
    UsedOne(flows, Long());
    assert Times(level, 0) == 0.0;
    assert IsLevel(flows, capacity, level);
    LevelUnique(flows, capacity, level, Level(flows, capacity));
  }

  /** Two flows that both ask for all of a link are halved. */
  lemma HalvedShare(flows: map<Key<Vertex>, Flow>)
    requires flows == map[Long() := Granted(), Far() := Full()]
    ensures Share(flows, 50) == Before()
  {
    var level := 25.0;
    assert Reduced(flows, level) == {Long(), Far()} && flows.Keys - {Long(), Far()} == {};
    assert Times(level, 1) == Times(level, 0) + level && Times(level, 2) == Times(level, 1) + level;
    assert |{Long(), Far()}| == 2;
    assert IsLevel(flows, 50, level);
    LevelUnique(flows, 50, level, Level(flows, 50));
  }

  lemma LongFlows()
    ensures Current(map[], Long(), Full()) == map[Long() := Full()]
    ensures (map[Long() := Full()]).Keys == {Long()} && Restrict(map[Long() := Full()], {Long()}) == map[Long() := Full()]
  {
  }

  lemma UsesAlone(net: Net<Vertex>, k: Key<Vertex>, link: Link<Vertex>)
    requires OnPath(PathOfKey(net, k), link)
    ensures Users(net, {k}, link) == {k}
  {
    UsersMore(net, {}, k, link);
    assert {} + {k} == {k};
  }

  lemma AloneIsGiven(net: Net<Vertex>, current: map<Key<Vertex>, Flow>, link: Link<Vertex>)
    requires IsLine(net) && (link == First() || link == Second()) && current == map[Long() := Full()]
    ensures Gives(net, current, link, {Long()}, Alone())
  {
    LongFlows();
    LinksUsed(net, link);
    UsesAlone(net, Long(), link);
    AloneShare(current, link.bandwidth);
  }

  /** The first flow takes the whole of its path. */
  lemma FirstUpdate(net: Net<Vertex>, k: Key<Vertex>, f: Flow, result: map<Key<Vertex>, Flow>, first: Link<Vertex>, second: Link<Vertex>)
    requires IsLine(net) && k == Long() && f == Full() && result == Alone() && first == First() && second == Second()
    ensures Redistributed(net, map[], k, f, result)
  {
    TwoLinkPath(net);
    LongFlows();
    AloneIsGiven(net, Current(map[], k, f), first);
    AloneIsGiven(net, Current(map[], k, f), second);
    RedistributesAlike(net, map[], k, f, {Long()}, first, second, result);
  }

  lemma LongAndFarFlows()
    ensures Current(Alone(), Far(), Full()) == map[Long() := Granted(), Far() := Full()]
    ensures (map[Long() := Granted(), Far() := Full()]).Keys == {Long(), Far()}
    ensures Restrict(map[Long() := Granted(), Far() := Full()], {Long(), Far()}) == map[Long() := Granted(), Far() := Full()]
  {
  }

  lemma HalvesAreGiven(net: Net<Vertex>, current: map<Key<Vertex>, Flow>, link: Link<Vertex>)
    requires IsLine(net) && link == Second() && current == map[Long() := Granted(), Far() := Full()]
    ensures Gives(net, current, link, {Long(), Far()}, Before())
  {
    LongAndFarFlows();
    UsersOf(net, link);
    HalvedShare(current);
  }

  /** The second flow halves the second link. */
  lemma SecondUpdate(net: Net<Vertex>, active: map<Key<Vertex>, Flow>, k: Key<Vertex>, f: Flow, result: map<Key<Vertex>, Flow>, link: Link<Vertex>)
    requires IsLine(net) && active == Alone() && k == Far() && f == Full() && result == Before() && link == Second()
    ensures Redistributed(net, active, k, f, result)
  {
    OneLinkPath(net, Y, Z);
    LongAndFarFlows();
    HalvesAreGiven(net, Current(active, k, f), link);
    RedistributesAlike(net, active, k, f, {Long(), Far()}, link, link, result);
  }

  lemma BeforeMaps()
    ensures map[] + Alone() == Alone() && Alone() + Before() == Before()
  {
  }

  lemma BeforeIsReached(net: Net<Vertex>)
    requires IsLine(net)
    ensures Served(net, map[], Long(), Full(), Alone()) && Served(net, Alone(), Far(), Full(), Before())
  {
    FirstUpdate(net, Long(), Full(), Alone(), First(), Second());
    SecondUpdate(net, Alone(), Far(), Full(), Before(), Second());
    BeforeMaps();
  }

  /** From no flows two updates lead to a state within all capacities, and a third one overloads a link: the condition of
      OffPathLoad is needed, and OverloadForeseen does occur. */
  lemma UpdateCanOverload() returns (net: Net<Vertex>)
    ensures net.Valid() && AllKnown(net, Before()) && WithinMax(Before()) && Small().used <= Small().max
    ensures Served(net, map[], Long(), Full(), Alone()) && Served(net, Alone(), Far(), Full(), Before())
    ensures !Overloaded(net, Before())
    ensures Served(net, Before(), Short(), Small(), Before() + Result())
    ensures Overloaded(net, Before() + Result())
  {
    net := LineExists();
    LineLinks(net);
    KnownBefore(net);
    BeforeIsReached(net);
    Loads(net);
    FitsLine(net, Before());
    ServedAfter(net);
    OverloadsLine(net, Before() + Result());
  }
}
