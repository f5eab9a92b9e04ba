/** Network of netgraph/src/lib.rs: vertices, links in a symmetric matrix, path searches and what is read along paths. */
module Networks {
  import opened Prelude
  import opened SymMatrices
  import opened Routing
  import opened Walks

  datatype Link<T> = Link(source: T, destination: T, bandwidth: nat)

  /** Equality of links: they join the same two vertices, in either direction. */
  predicate SameLink<T(==)>(a: Link<T>, b: Link<T>) {
    (a.source == b.source && a.destination == b.destination) || (a.destination == b.source && a.source == b.destination)
  }

  function Ends<T(==)>(l: Link<T>): set<T> { {l.source, l.destination} }

  /** Sets of links are sets of unordered pairs of ends. */
  lemma SameLinkIffEnds<T>(a: Link<T>, b: Link<T>)
    ensures SameLink(a, b) <==> Ends(a) == Ends(b)
  {
    if Ends(a) == Ends(b) {
      assert a.source in Ends(b) && a.destination in Ends(b) && b.source in Ends(a) && b.destination in Ends(a);
    }
  }

  /** A network as a value. */
  datatype Net<T> = Net(cells: Sym<Option<Link<T>>>, mapper: map<T, nat>, strategy: PathStrategy) {
    /** The link in a cell of the matrix joins the vertices of the cell. */
    ghost predicate CellOk(i: nat, j: nat)
      requires cells.Valid() && i < cells.n && j < cells.n
    {
      cells.At(i, j).Some? ==>
        var l := cells.At(i, j).value;
        && l.source in mapper && l.destination in mapper && l.bandwidth <= MAX_BANDWIDTH
        && ((mapper[l.source] == i && mapper[l.destination] == j) || (mapper[l.source] == j && mapper[l.destination] == i))
    }

    ghost predicate Valid() {
      && cells.Valid()
      && (forall v | v in mapper :: mapper[v] < cells.n)
      && (forall v, w | v in mapper && w in mapper && mapper[v] == mapper[w] :: v == w)
      && (forall i, j | 0 <= i < cells.n && 0 <= j < cells.n :: CellOk(i, j))
    }

    /** The bandwidths by index. */
    ghost function Topology(): Graph
      requires cells.Valid()
    {
      Graph(cells.n, (i: nat, j: nat) =>
        if i < cells.n && j < cells.n && cells.At(i, j).Some? then Some(cells.At(i, j).value.bandwidth) else None)
    }

    lemma TopologyValid()
      requires Valid()
      ensures Topology().Valid()
    {
      var g := Topology();
      forall i, j | 0 <= i < g.n && 0 <= j < g.n
        ensures g.link(i, j) == g.link(j, i)
        ensures g.link(i, j).Some? ==> g.link(i, j).value <= MAX_BANDWIDTH
      {
        AtSymmetric(cells, i, j);
        assert CellOk(i, j);
      }
    }

    ghost predicate Knows(from: T, to: T) { from in mapper && to in mapper }

    /** From the index of `to` back to that of `from`. */
    ghost function Back(from: T, to: T): seq<nat>
      requires Valid() && Knows(from, to)
    {
      TopologyValid();
      Walk(Topology(), strategy, mapper[from], mapper[to])
    }

    /** The link in a cell that holds one. */
    ghost function LinkIn(i: nat, j: nat): Link<T>
      requires cells.Valid() && i < cells.n && j < cells.n && cells.At(i, j).Some?
    {
      cells.At(i, j).value
    }

    /** The links of a walk back, from its end to its beginning. */
    ghost function LinksBack(w: seq<nat>, k: nat): (ls: seq<Link<T>>)
      requires cells.Valid() && k < |w| && forall i | 0 <= i < k :: Topology().Adjacent(w[i + 1], w[i])
      ensures |ls| == k
    {
      if k == 0 then []
      else
        assert Topology().Adjacent(w[k - 1 + 1], w[k - 1]);
        [LinkIn(w[k], w[k - 1])] + LinksBack(w, k - 1)
    }

    lemma BackFollowsLinks(from: T, to: T)
      requires Valid() && Knows(from, to)
      ensures forall i | 0 <= i < |Back(from, to)| - 1 :: Topology().Adjacent(Back(from, to)[i + 1], Back(from, to)[i])
    {
      TopologyValid();
      var w := Back(from, to);
      forall i | 0 <= i < |w| - 1
        ensures Topology().Adjacent(w[i + 1], w[i])
      {
        WalkFollowsLinks(Topology(), strategy, mapper[from], mapper[to], i);
      }
    }

    /** The links and the smallest bandwidth on the first k steps back. */
    ghost function LinksTo(from: T, to: T, k: nat): seq<Link<T>>
      requires Valid() && Knows(from, to) && k < |Back(from, to)|
    {
      BackFollowsLinks(from, to);
      LinksBack(Back(from, to), k)
    }

    ghost function NarrowestTo(from: T, to: T, k: nat): nat
      requires Valid() && Knows(from, to) && k < |Back(from, to)|
    {
      BackFollowsLinks(from, to);
      Narrowest(Topology(), Back(from, to), k)
    }

    /** One step back along the parents. */
    lemma StepBack(from: T, to: T, k: nat)
      requires Valid() && Knows(from, to) && k < |Back(from, to)|
      ensures var w, parents := Back(from, to), Search(Topology(), strategy, mapper[from]).parents;
        && w[k] < |parents| && (parents[w[k]].Some? <==> k + 1 < |w|)
        && (k + 1 < |w| ==>
              && parents[w[k]] == Some(w[k + 1]) && w[k] < cells.n && w[k + 1] < cells.n && w[k] != w[k + 1]
              && cells.At(w[k + 1], w[k]).Some? && cells.At(w[k], w[k + 1]) == cells.At(w[k + 1], w[k])
              && LinksTo(from, to, k + 1) == [LinkIn(w[k + 1], w[k])] + LinksTo(from, to, k)
              && NarrowestTo(from, to, k + 1) == Min(NarrowestTo(from, to, k), LinkIn(w[k + 1], w[k]).bandwidth))
    {
      var w := Back(from, to);
      TopologyValid();
      BackFollowsLinks(from, to);
      if k + 1 < |w| {
        assert Topology().Adjacent(w[k + 1], w[k]);
        AtSymmetric(cells, w[k + 1], w[k]);
      }
    }

    /** The links of the path between two vertices: none when there is no path. */
    ghost function PathOf(from: T, to: T): seq<Link<T>>
      requires Valid() && Knows(from, to)
    {
      LinksTo(from, to, |Back(from, to)| - 1)
    }

    /** The smallest bandwidth on the path. */
    ghost function WalkedBandwidth(from: T, to: T): nat
      requires Valid() && Knows(from, to)
    {
      NarrowestTo(from, to, |Back(from, to)| - 1)
    }

    /** What is reported for two vertices: the searched width, or the smallest bandwidth on the shortest path. */
    ghost function Between(from: T, to: T): Option<nat>
      requires Valid() && Knows(from, to)
    {
      var st := Search(Topology(), strategy, mapper[from]);
      if strategy.WidestPath? then st.labels[mapper[to]]
      else if st.parents[mapper[to]].None? then None
      else Some(WalkedBandwidth(from, to))
    }
  }

  // ----- Paths -----

  lemma {:induction false} LinksBackAt<T>(net: Net<T>, w: seq<nat>, k: nat, i: nat)
    requires net.cells.Valid() && k < |w| && i < k && forall i | 0 <= i < k :: net.Topology().Adjacent(w[i + 1], w[i])
    ensures net.Topology().Adjacent(w[i + 1], w[i])
    ensures net.LinksBack(w, k)[k - 1 - i] == net.LinkIn(w[i + 1], w[i])
  {
    assert net.Topology().Adjacent(w[i + 1], w[i]);
    if i < k - 1 {
      LinksBackAt(net, w, k - 1, i);
    }
  }

  /** The links of a path, in order, join the vertices of a best path from the one end to the other. */
  lemma PathIsBestRoute<T>(net: Net<T>, from: T, to: T) returns (p: seq<nat>)
    requires net.Valid() && net.Knows(from, to)
    requires net.Topology().Valid() && Search(net.Topology(), net.strategy, net.mapper[from]).labels[net.mapper[to]].Some?
    ensures PathFromTo(net.Topology(), p, net.mapper[from], net.mapper[to])
    ensures IsBest(net.Topology(), net.strategy, net.mapper[from], net.mapper[to], Some(Cost(net.Topology(), net.strategy, p)))
    ensures |net.PathOf(from, to)| + 1 == |p|
    ensures forall i | 0 <= i < |net.PathOf(from, to)| :: Joins(net, net.PathOf(from, to)[i], p[i], p[i + 1])
  {
    var g, a, b, w := net.Topology(), net.mapper[from], net.mapper[to], net.Back(from, to);
    p := BestRoute(g, net.strategy, a, b);
    PathLength(net, from, to);
    forall i | 0 <= i < |net.PathOf(from, to)|
      ensures Joins(net, net.PathOf(from, to)[i], p[i], p[i + 1])
    {
      RouteLink(net, from, to, i);
    }
  }

  lemma PathLength<T>(net: Net<T>, from: T, to: T)
    requires net.Valid() && net.Knows(from, to)
    ensures |net.PathOf(from, to)| + 1 == |net.Back(from, to)|
  {
    net.BackFollowsLinks(from, to);
  }

  /** The i-th link of the path joins the vertices that the walk back leaves and reaches there. */
  lemma RouteLink<T>(net: Net<T>, from: T, to: T, i: nat)
    requires net.Valid() && net.Knows(from, to) && i + 1 < |net.Back(from, to)|
    ensures var w := net.Back(from, to);
      i < |net.PathOf(from, to)| && Joins(net, net.PathOf(from, to)[i], w[|w| - 1 - i], w[|w| - 2 - i])
  {
    var w := net.Back(from, to);
    LinkTaken(net, from, to, |w| - 1, |w| - 2 - i);
    assert net.CellOk(w[|w| - 1 - i], w[|w| - 2 - i]);
  }

  /** The link joins the two vertices. */
  ghost predicate Joins<T>(net: Net<T>, l: Link<T>, i: nat, j: nat) {
    && l.source in net.mapper && l.destination in net.mapper
    && ((net.mapper[l.source] == i && net.mapper[l.destination] == j) || (net.mapper[l.source] == j && net.mapper[l.destination] == i))
  }

  /** Equal links sit in the same cell. */
  lemma SameLinkSameCell<T>(net: Net<T>, i: nat, j: nat, k: nat, l: nat)
    requires net.Valid() && i < net.cells.n && j < net.cells.n && k < net.cells.n && l < net.cells.n
    requires net.cells.At(i, j).Some? && net.cells.At(k, l).Some?
    ensures SameLink(net.LinkIn(i, j), net.LinkIn(k, l)) <==> (i == k && j == l) || (i == l && j == k)
  {
    assert net.CellOk(i, j) && net.CellOk(k, l);
    AtSymmetric(net.cells, i, j);
  }

  /** The i-th link back, where it is in the list and in the matrix. */
  lemma LinkTaken<T>(net: Net<T>, from: T, to: T, k: nat, i: nat)
    requires net.Valid() && net.Knows(from, to) && i < k < |net.Back(from, to)|
    ensures var w := net.Back(from, to);
      && w[i] < net.cells.n && w[i + 1] < net.cells.n && net.cells.At(w[i + 1], w[i]).Some?
      && |net.LinksTo(from, to, k)| == k && net.LinksTo(from, to, k)[k - 1 - i] == net.LinkIn(w[i + 1], w[i])
  {
    net.BackFollowsLinks(from, to);
    LinksBackAt(net, net.Back(from, to), k, i);
  }

  /** A path takes no link twice. */
  lemma PathTakesLinksOnce<T>(net: Net<T>, from: T, to: T, i: nat, j: nat)
    requires net.Valid() && net.Knows(from, to) && i < j < |net.PathOf(from, to)|
    ensures !SameLink(net.PathOf(from, to)[i], net.PathOf(from, to)[j])
  {
    var w := net.Back(from, to);
    var m := |w| - 1;
    var k, l := m - 1 - i, m - 1 - j;
    LinkTaken(net, from, to, m, k);
    LinkTaken(net, from, to, m, l);
    net.TopologyValid();
    LinksDistinct(net.Topology(), net.strategy, net.mapper[from], net.mapper[to], l, k);
    SameLinkSameCell(net, w[k + 1], w[k], w[l + 1], w[l]);
  }

  lemma CrossedIsOnPath<T>(net: Net<T>, from: T, to: T, i: nat, j: nat)
    requires net.Valid() && net.Knows(from, to) && i < net.cells.n && j < net.cells.n && net.cells.At(i, j).Some?
    requires Crosses(net.Back(from, to), i, j)
    ensures OnPath(net.PathOf(from, to), net.LinkIn(i, j))
  {
    var w := net.Back(from, to);
    var m := |w| - 1;
    net.BackFollowsLinks(from, to);
    var k: nat :| k + 1 < |w| && LinkAt(w, k, i, j);
    LinksBackAt(net, w, m, k);
    SameLinkSameCell(net, w[k + 1], w[k], i, j);
    assert net.PathOf(from, to)[m - 1 - k] in net.PathOf(from, to);
  }

  lemma OnPathIsCrossed<T>(net: Net<T>, from: T, to: T, i: nat, j: nat)
    requires net.Valid() && net.Knows(from, to) && i < net.cells.n && j < net.cells.n && net.cells.At(i, j).Some?
    requires OnPath(net.PathOf(from, to), net.LinkIn(i, j))
    ensures Crosses(net.Back(from, to), i, j)
  {
    var w := net.Back(from, to);
    var m := |w| - 1;
    var path := net.PathOf(from, to);
    net.BackFollowsLinks(from, to);
    var l :| l in path && SameLink(l, net.LinkIn(i, j));
    var x :| 0 <= x < |path| && path[x] == l;
    LinksBackAt(net, w, m, m - 1 - x);
    SameLinkSameCell(net, w[m - x], w[m - 1 - x], i, j);
    assert LinkAt(w, m - 1 - x, i, j);
  }

  /** The cell of a link on a path. */
  lemma CellOfPathLink<T>(net: Net<T>, from: T, to: T, l: Link<T>) returns (i: nat, j: nat)
    requires net.Valid() && net.Knows(from, to) && l in net.PathOf(from, to)
    ensures i < net.cells.n && j < net.cells.n && net.cells.At(i, j) == Some(l)
    ensures Crosses(net.Back(from, to), i, j)
  {
    var w := net.Back(from, to);
    var path := net.PathOf(from, to);
    net.BackFollowsLinks(from, to);
    var x :| 0 <= x < |path| && path[x] == l;
    var k := |path| - 1 - x;
    LinksBackAt(net, w, |path|, k);
    i, j := w[k + 1], w[k];
    assert LinkAt(w, k, i, j);
  }

  /** A link of the network that equals one on the path is that one. */
  lemma OnPathIsLink<T>(net: Net<T>, from: T, to: T, i: nat, j: nat)
    requires net.Valid() && net.Knows(from, to) && i < net.cells.n && j < net.cells.n && net.cells.At(i, j).Some?
    requires OnPath(net.PathOf(from, to), net.LinkIn(i, j))
    ensures net.LinkIn(i, j) in net.PathOf(from, to)
  {
    var l :| l in net.PathOf(from, to) && SameLink(l, net.LinkIn(i, j));
    var r, c := CellOfPathLink(net, from, to, l);
    SameLinkSameCell(net, r, c, i, j);
    AtSymmetric(net.cells, i, j);
  }

  /** An equal link is on the path. */
  predicate OnPath<T(==)>(path: seq<Link<T>>, link: Link<T>) {
    exists l :: l in path && SameLink(l, link)
  }

  /** The links of a path are those in the cells that its walk crosses. */
  lemma PathLinksAreCrossed<T>(net: Net<T>, from: T, to: T, i: nat, j: nat)
    requires net.Valid() && net.Knows(from, to) && i < net.cells.n && j < net.cells.n && net.cells.At(i, j).Some?
    ensures Crosses(net.Back(from, to), i, j) <==> OnPath(net.PathOf(from, to), net.LinkIn(i, j))
  {
    if Crosses(net.Back(from, to), i, j) {
      CrossedIsOnPath(net, from, to, i, j);
    } else if OnPath(net.PathOf(from, to), net.LinkIn(i, j)) {
      OnPathIsCrossed(net, from, to, i, j);
    }
  }

  lemma PathLinksCarry<T>(net: Net<T>, from: T, to: T, b: nat, l: Link<T>)
    requires net.Valid() && net.Knows(from, to) && l in net.PathOf(from, to)
    requires var w := net.Back(from, to); forall i | 0 <= i < |w| - 1 :: LinkCarries(net.Topology(), w[i + 1], w[i], b)
    ensures l.bandwidth >= b
  {
    var w := net.Back(from, to);
    var path := net.PathOf(from, to);
    net.BackFollowsLinks(from, to);
    var x :| 0 <= x < |path| && path[x] == l;
    var i := |path| - 1 - x;
    LinksBackAt(net, w, |path|, i);
    assert LinkCarries(net.Topology(), w[i + 1], w[i], b);
  }

  /** No link of a path is narrower than the bandwidth that is reported for it. */
  lemma WalkedBandwidthIsMinimum<T>(net: Net<T>, from: T, to: T, b: nat)
    requires net.Valid() && net.Knows(from, to)
    ensures net.WalkedBandwidth(from, to) >= b <==>
      b <= MAX_BANDWIDTH && forall l | l in net.PathOf(from, to) :: l.bandwidth >= b
  {
    var g := net.Topology();
    var w := net.Back(from, to);
    var path := net.PathOf(from, to);
    net.BackFollowsLinks(from, to);
    NarrowestIsMinimum(g, w, |path|, b);
    if net.WalkedBandwidth(from, to) >= b {
      forall l | l in path
        ensures l.bandwidth >= b
      {
        PathLinksCarry(net, from, to, b, l);
      }
    }
    if forall l | l in path :: l.bandwidth >= b {
      forall i | 0 <= i < |path|
        ensures LinkCarries(g, w[i + 1], w[i], b)
      {
        LinksBackAt(net, w, |path|, i);
        assert path[|path| - 1 - i] in path;
      }
    }
  }

  /** Under both strategies the reported bandwidth is the smallest on the path that is walked; from a vertex
      to itself only widest paths report one. */
  lemma BetweenIsWalked<T>(net: Net<T>, from: T, to: T)
    requires net.Valid() && net.Knows(from, to)
    ensures net.Between(from, to).Some? ==> net.Between(from, to).value == net.WalkedBandwidth(from, to)
    ensures net.Between(from, to).Some? <==>
      (exists p :: PathFromTo(net.Topology(), p, net.mapper[from], net.mapper[to])) && (net.strategy.WidestPath? || from != to)
  {
    var g := net.Topology();
    var a, b := net.mapper[from], net.mapper[to];
    net.TopologyValid();
    SearchIsBest(g, net.strategy, a, b);
    ParentIffReached(g, net.strategy, a, b);
    if net.strategy.WidestPath? && net.Between(from, to).Some? {
      WalkedWidth(g, a, b);
    }
  }

  /** Between different vertices, a reported bandwidth has a path with links. */
  lemma ConnectedHasLinks<T>(net: Net<T>, from: T, to: T)
    requires net.Valid() && net.Knows(from, to) && from != to && net.Between(from, to).Some?
    ensures net.PathOf(from, to) != []
  {
    var g := net.Topology();
    var a, b := net.mapper[from], net.mapper[to];
    net.TopologyValid();
    ParentIffReached(g, net.strategy, a, b);
    assert |net.Back(from, to)| > 1;
  }

  // ----- Changing bandwidths along a path -----

  /** The links of the walk have their bandwidths changed by func; nothing else differs. */
  ghost predicate Changed<T>(before: Net<T>, after: Net<T>, w: seq<nat>, func: nat -> Option<nat>)
    requires before.cells.Valid()
  {
    && after.cells.Valid() && after.cells.n == before.cells.n
    && after.mapper == before.mapper && after.strategy == before.strategy
    && forall i, j | 0 <= i < before.cells.n && 0 <= j < before.cells.n :: CellChanged(before, after, w, i, j, func)
  }

  ghost predicate CellChanged<T>(before: Net<T>, after: Net<T>, w: seq<nat>, i: nat, j: nat, func: nat -> Option<nat>)
    requires before.cells.Valid() && after.cells.Valid() && after.cells.n == before.cells.n && i < before.cells.n && j < before.cells.n
  {
    var was, now := before.cells.At(i, j), after.cells.At(i, j);
    if was.Some? && Crosses(w, i, j) then
      now.Some? && func(was.value.bandwidth).Some? && now.value == was.value.(bandwidth := func(was.value.bandwidth).value)
    else now == was
  }

  lemma CrossesOneMore(w: seq<nat>, k: nat, i: nat, j: nat)
    requires k + 1 < |w|
    ensures Crosses(w[..k + 2], i, j) <==> Crosses(w[..k + 1], i, j) || LinkAt(w, k, i, j)
  {
    if Crosses(w[..k + 1], i, j) {
      var x: nat :| x + 1 < |w[..k + 1]| && LinkAt(w[..k + 1], x, i, j);
      assert LinkAt(w[..k + 2], x, i, j);
    }
    if Crosses(w[..k + 2], i, j) {
      var x: nat :| x + 1 < |w[..k + 2]| && LinkAt(w[..k + 2], x, i, j);
      if x < k {
        assert LinkAt(w[..k + 1], x, i, j);
      }
    }
    if LinkAt(w, k, i, j) {
      assert LinkAt(w[..k + 2], k, i, j);
    }
  }

  /** A link that the walk has still to cross is not among those already crossed. */
  lemma NotYetCrossed<T>(net: Net<T>, from: T, to: T, k: nat)
    requires net.Valid() && net.Knows(from, to) && k + 1 < |net.Back(from, to)|
    ensures var w := net.Back(from, to); !Crosses(w[..k + 1], w[k], w[k + 1])
  {
    var w := net.Back(from, to);
    net.TopologyValid();
    var walked, i, j := w[..k + 1], w[k], w[k + 1];
    forall x: nat | x + 1 < |walked|
      ensures !LinkAt(walked, x, i, j)
    {
      LinksDistinct(net.Topology(), net.strategy, net.mapper[from], net.mapper[to], x, k);
    }
  }

  lemma ChangedKeepsValid<T>(before: Net<T>, after: Net<T>, w: seq<nat>, func: nat -> Option<nat>)
    requires before.Valid() && Changed(before, after, w, func)
    requires forall b: nat | b <= MAX_BANDWIDTH && func(b).Some? :: func(b).value <= MAX_BANDWIDTH
    ensures after.Valid()
  {
    forall i, j | 0 <= i < after.cells.n && 0 <= j < after.cells.n
      ensures after.CellOk(i, j)
    {
      assert before.CellOk(i, j) && CellChanged(before, after, w, i, j, func);
    }
  }

  /** Writing the changed bandwidth of the next link. */
  lemma ChangedOneMore<T>(before: Net<T>, now: Net<T>, from: T, to: T, k: nat, func: nat -> Option<nat>, after: Net<T>)
    requires before.Valid() && before.Knows(from, to) && k + 1 < |before.Back(from, to)|
    requires Changed(before, now, before.Back(from, to)[..k + 1], func)
    requires var w := before.Back(from, to);
      && now.cells.At(w[k + 1], w[k]).Some?
      && (func(now.LinkIn(w[k + 1], w[k]).bandwidth).Some? ==>
            after == now.(cells := now.cells.Put(w[k + 1], w[k],
              Some(now.LinkIn(w[k + 1], w[k]).(bandwidth := func(now.LinkIn(w[k + 1], w[k]).bandwidth).value)))))
    ensures var w := before.Back(from, to); now.cells.At(w[k + 1], w[k]) == before.cells.At(w[k + 1], w[k])
    ensures func(now.LinkIn(before.Back(from, to)[k + 1], before.Back(from, to)[k]).bandwidth).Some? ==>
      Changed(before, after, before.Back(from, to)[..k + 2], func)
  {
    var w := before.Back(from, to);
    var r, c := w[k + 1], w[k];
    NotYetCrossed(before, from, to, k);
    assert CellChanged(before, now, w[..k + 1], r, c, func);
    assert Crosses(w[..k + 1], r, c) == Crosses(w[..k + 1], c, r) by {
      CrossesBothWays(w[..k + 1], r, c);
      CrossesBothWays(w[..k + 1], c, r);
    }
    if func(now.LinkIn(r, c).bandwidth).Some? {
      var link := Some(now.LinkIn(r, c).(bandwidth := func(now.LinkIn(r, c).bandwidth).value));
      now.cells.PutAt(r, c, link);
      AtSymmetric(before.cells, r, c);
      var walked := w[..k + 2];
      forall i, j | 0 <= i < before.cells.n && 0 <= j < before.cells.n
        ensures CellChanged(before, after, walked, i, j, func)
      {
        CrossesOneMore(w, k, i, j);
        assert CellChanged(before, now, w[..k + 1], i, j, func);
      }
    }
  }

  lemma CrossesBothWays(w: seq<nat>, i: nat, j: nat)
    ensures Crosses(w, i, j) ==> Crosses(w, j, i)
  {
    if Crosses(w, i, j) {
      var k: nat :| k + 1 < |w| && LinkAt(w, k, i, j);
      assert LinkAt(w, k, j, i);
    }
  }

  // ----- The network -----

  class Network<T(==)> {
    var links: SymMatrix<Option<Link<T>>>
    var mapper: map<T, nat>
    var strategy: PathStrategy

    ghost predicate Valid()
      reads this, links
    {
      links.Valid() && View().Valid()
    }

    ghost function View(): (net: Net<T>)
      reads this, links
    {
      Net(links.View(), mapper, strategy)
    }

    /** new: vertices without links, numbered in order. */
    constructor New(vertices: seq<T>, strategy: PathStrategy)
      ensures Valid() && fresh(links) && this.strategy == strategy
      ensures mapper.Keys == (set v | v in vertices) && forall v | v in vertices :: mapper[v] < |vertices| && vertices[mapper[v]] == v
      ensures links.n == |vertices| && forall i, j | 0 <= i <= j < |vertices| :: View().cells.At(i, j) == None
    {
      var m: map<T, nat> := map[];
      var i := 0;
      while i < |vertices|
        invariant i <= |vertices| && m.Keys == (set v | v in vertices[..i])
        invariant forall v | v in m :: m[v] < i && vertices[m[v]] == v
      {
        m := m[vertices[i] := i];
        i := i + 1;
      }
      assert vertices[..|vertices|] == vertices;
      this.strategy := strategy;
      mapper := m;
      links := new SymMatrix<Option<Link<T>>>.NewFn(|vertices|, (_, _) => None);
      new;
      forall i, j | 0 <= i < links.n && 0 <= j < links.n
        ensures View().CellOk(i, j)
      {
        AtSymmetric(links.View(), i, j);
      }
    }

    method Clone() returns (net: Network<T>)
      requires Valid()
      ensures fresh(net) && fresh(net.links) && net.Valid() && net.View() == View()
    {
      net := new Network<T>.New([], strategy);
      var copy := links.Clone();
      net.links := copy;
      net.mapper := mapper;
    }

    predicate Known(from: T, to: T)
      reads this
    {
      from in mapper && to in mapper
    }

    /** add_edge: puts a link between two known vertices, in place of the one that was there. */
    method AddEdge(from: T, to: T, bandwidth: nat)
      requires Valid() && bandwidth <= MAX_BANDWIDTH
      modifies links
      ensures Valid() && links.n == old(links.n)
      ensures !Known(from, to) ==> View() == old(View())
      ensures Known(from, to) ==>
        View().cells == old(View().cells).Put(mapper[from], mapper[to], Some(Link(from, to, bandwidth)))
    {
      if Known(from, to) {
        links.Set(mapper[from], mapper[to], Some(Link(from, to, bandwidth)));
        PutKeepsValid(old(View()), mapper[from], mapper[to], Some(Link(from, to, bandwidth)));
      }
    }

    /** update_bandwidth_inter: changes the bandwidth of a link that exists. */
    method UpdateBandwidthInter(from: nat, to: nat, bandwidth: nat)
      requires links.Valid() && from < links.n && to < links.n
      modifies links
      ensures links.Valid() && links.n == old(links.n)
      ensures View().cells ==
        if old(View().cells.At(from, to)).None? then old(View().cells)
        else old(View().cells).Put(from, to, Some(old(View().cells.At(from, to).value).(bandwidth := bandwidth)))
    {
      var link := links.Get(from, to);
      if link.Some? {
        links.Set(from, to, Some(link.value.(bandwidth := bandwidth)));
      }
    }

    static lemma AdjacentIffLink(net: Net<T>, i: nat, j: nat)
      requires net.cells.Valid() && i < net.cells.n && j < net.cells.n
      ensures net.Topology().Adjacent(i, j) <==> net.cells.At(i, j).Some? && j != i
    {
    }

    /** neighbours, in increasing order. */
    method Neighbours(from: nat) returns (ns: seq<nat>)
      requires Valid() && from < links.n
      ensures ns == Routing.Neighbours(View().Topology(), from, links.n)
      ensures forall v | v in ns :: View().Topology().Adjacent(from, v)
    {
      forall j: nat | j < links.n
        ensures View().Topology().Adjacent(from, j) <==> View().cells.At(from, j).Some? && j != from
      {
        AdjacentIffLink(View(), from, j);
      }
      ns := NeighboursIn(from, View().Topology());
      NeighboursAre(View().Topology(), from, links.n);
    }

    /** The loop over the vertices. */
    method NeighboursIn(from: nat, ghost g: Graph) returns (ns: seq<nat>)
      requires links.Valid() && from < links.n == g.n
      requires forall j: nat | j < links.n :: g.Adjacent(from, j) <==> View().cells.At(from, j).Some? && j != from
      ensures ns == Routing.Neighbours(g, from, g.n)
    {
      ns := [];
      var i := 0;
      while i < links.Size()
        invariant i <= links.n == g.n && ns == Routing.Neighbours(g, from, i)
      {
        var link := links.Get(from, i);
        if link.Some? && i != from {
          ns := ns + [i];
        }
        i := i + 1;
      }
    }

    /** The pair of the heap that comes first. */
    method PopFirst(heap: multiset<Pair>) returns (x: Pair, rest: multiset<Pair>)
      requires heap != multiset{}
      ensures x == Least(heap) && rest == heap - multiset{x}
    {
      assert First(heap, Least(heap));
      x :| x in heap && forall b | b in heap :: Before(x, b);
      assert Before(x, Least(heap)) && Before(Least(heap), x);
      rest := heap - multiset{x};
    }

    /** The loop over the neighbours in shortest_path. */
    method RelaxShortest(ghost g: Graph, u: nat, neighs: seq<nat>, st: State) returns (dist: seq<Option<nat>>, parents: seq<Option<nat>>, toVisit: multiset<Pair>)
      requires Expandable(g, ShortestPath, st, u) && forall v | v in neighs :: g.Adjacent(u, v)
      ensures State(dist, parents, toVisit) == RelaxAll(g, ShortestPath, st, u, neighs, |neighs|)
    {
      dist, parents, toVisit := st.labels, st.parents, st.heap;
      ghost var current := st;
      for k := 0 to |neighs|
        invariant current == State(dist, parents, toVisit) == RelaxAll(g, ShortestPath, st, u, neighs, k)
        invariant Expandable(g, ShortestPath, current, u)
      {
        RelaxNext(g, ShortestPath, st, u, neighs, k, current);
        dist, parents, toVisit := RelaxHop(g, u, neighs[k], dist, parents, toVisit);
        current := State(dist, parents, toVisit);
      }
    }

    method RelaxHop(ghost g: Graph, u: nat, neigh: nat, dist: seq<Option<nat>>, parents: seq<Option<nat>>, toVisit: multiset<Pair>)
      returns (dist': seq<Option<nat>>, parents': seq<Option<nat>>, toVisit': multiset<Pair>)
      requires Linked(g, State(dist, parents, toVisit), u, neigh)
      ensures State(dist', parents', toVisit') == Relax(g, ShortestPath, State(dist, parents, toVisit), u, neigh)
    {
      dist', parents', toVisit' := dist, parents, toVisit;
      var alt := dist[u].value + 1;
      if dist[neigh].None? || alt < dist[neigh].value {
        dist' := dist[neigh := Some(alt)];
        parents' := parents[neigh := Some(u)];
        toVisit' := toVisit + multiset{Pair(neigh, alt)};
      }
    }

    /** The body of the loop in shortest_path: the first pair leaves the heap, and is expanded unless it is outdated. */
    method ShortestPass(ghost g: Graph, st: State) returns (next: State)
      requires Valid() && g == View().Topology() && Shape(g, ShortestPath, st) && st.heap != multiset{}
      ensures next == Step(g, ShortestPath, st)
    {
      RunStep(g, ShortestPath, st);
      var dist, parents := st.labels, st.parents;
      var vert, toVisit := PopFirst(st.heap);
      if vert.val <= dist[vert.node].value {
        var neighs := Neighbours(vert.node);
        dist, parents, toVisit := RelaxShortest(g, vert.node, neighs, State(dist, parents, toVisit));
      }
      next := State(dist, parents, toVisit);
    }

    /** The loop of shortest_path. */
    method RunShortest(ghost g: Graph, start: State) returns (st: State)
      requires Valid() && g == View().Topology() && Shape(g, ShortestPath, start)
      ensures st == Run(g, ShortestPath, start)
    {
      st := start;
      ghost var goal := Run(g, ShortestPath, start);
      while st.heap != multiset{}
        invariant Shape(g, ShortestPath, st) && Run(g, ShortestPath, st) == goal
        decreases Unlabelled(st.labels), RankSum(ShortestPath, st.labels), |st.heap|
      {
        LoopStep(g, ShortestPath, st);
        st := ShortestPass(g, st);
      }
    }

    /** shortest_path: distances in links, and parents. */
    method ShortestPaths(from: nat) returns (dist: seq<Option<nat>>, parents: seq<Option<nat>>)
      requires Valid() && from < links.n
      ensures var st := Search(View().Topology(), ShortestPath, from); dist == st.labels && parents == st.parents
    {
      ghost var g := View().Topology();
      dist := seq(links.Size(), _ => None)[from := Some(0)];
      parents := seq(links.Size(), _ => None);
      var st := State(dist, parents, multiset{Pair(from, 0)});
      assert st == Start(g, ShortestPath, from);
      st := RunShortest(g, st);
      dist, parents := st.labels, st.parents;
    }

    /** The loop over the neighbours in widest_path. */
    method RelaxWidest(ghost g: Graph, u: nat, neighs: seq<nat>, st: State) returns (bandwidths: seq<Option<nat>>, parents: seq<Option<nat>>, toVisit: multiset<Pair>)
      requires links.Valid() && g == View().Topology()
      requires Expandable(g, WidestPath, st, u) && forall v | v in neighs :: g.Adjacent(u, v)
      ensures State(bandwidths, parents, toVisit) == RelaxAll(g, WidestPath, st, u, neighs, |neighs|)
    {
      bandwidths, parents, toVisit := st.labels, st.parents, st.heap;
      ghost var current := st;
      for k := 0 to |neighs|
        invariant current == State(bandwidths, parents, toVisit) == RelaxAll(g, WidestPath, st, u, neighs, k)
        invariant Expandable(g, WidestPath, current, u)
      {
        RelaxNext(g, WidestPath, st, u, neighs, k, current);
        bandwidths, parents, toVisit := RelaxWidth(g, u, neighs[k], bandwidths, parents, toVisit);
        current := State(bandwidths, parents, toVisit);
      }
    }

    method RelaxWidth(ghost g: Graph, u: nat, n: nat, bandwidths: seq<Option<nat>>, parents: seq<Option<nat>>, toVisit: multiset<Pair>)
      returns (bandwidths': seq<Option<nat>>, parents': seq<Option<nat>>, toVisit': multiset<Pair>)
      requires links.Valid() && g == View().Topology() && Linked(g, State(bandwidths, parents, toVisit), u, n)
      ensures State(bandwidths', parents', toVisit') == Relax(g, WidestPath, State(bandwidths, parents, toVisit), u, n)
    {
      bandwidths', parents', toVisit' := bandwidths, parents, toVisit;
      var linkBandwidth := links.Get(u, n).value.bandwidth;
      var bandwidth := Min(bandwidths[u].value, linkBandwidth);
      if bandwidths[n].Some? {
        bandwidth := Max(bandwidths[n].value, bandwidth);
      }
      if bandwidths[n].None? || bandwidth > bandwidths[n].value {
        bandwidths' := bandwidths[n := Some(bandwidth)];
        parents' := parents[n := Some(u)];
        toVisit' := toVisit + multiset{Pair(n, bandwidth)};
      }
    }

    /** The body of the loop in widest_path. */
    method WidestPass(ghost g: Graph, st: State) returns (next: State)
      requires Valid() && g == View().Topology() && Shape(g, WidestPath, st) && st.heap != multiset{}
      ensures next == Step(g, WidestPath, st)
    {
      RunStep(g, WidestPath, st);
      var bandwidths, parents := st.labels, st.parents;
      var vert, toVisit := PopFirst(st.heap);
      if bandwidths[vert.node].None? || vert.val >= bandwidths[vert.node].value {
        var neighs := Neighbours(vert.node);
        bandwidths, parents, toVisit := RelaxWidest(g, vert.node, neighs, State(bandwidths, parents, toVisit));
      }
      next := State(bandwidths, parents, toVisit);
    }

    /** The loop of widest_path. */
    method RunWidest(ghost g: Graph, start: State) returns (st: State)
      requires Valid() && g == View().Topology() && Shape(g, WidestPath, start)
      ensures st == Run(g, WidestPath, start)
    {
      st := start;
      ghost var goal := Run(g, WidestPath, start);
      while st.heap != multiset{}
        invariant Shape(g, WidestPath, st) && Run(g, WidestPath, st) == goal
        decreases Unlabelled(st.labels), RankSum(WidestPath, st.labels), |st.heap|
      {
        LoopStep(g, WidestPath, st);
        st := WidestPass(g, st);
      }
    }

    /** widest_path: widths, and parents. */
    method WidestPaths(from: nat) returns (bandwidths: seq<Option<nat>>, parents: seq<Option<nat>>)
      requires Valid() && from < links.n
      ensures var st := Search(View().Topology(), WidestPath, from); bandwidths == st.labels && parents == st.parents
    {
      ghost var g := View().Topology();
      bandwidths := seq(links.Size(), _ => None)[from := Some(MAX_BANDWIDTH)];
      parents := seq(links.Size(), _ => None);
      var st := State(bandwidths, parents, multiset{Pair(from, MAX_BANDWIDTH)});
      assert st == Start(g, WidestPath, from);
      st := RunWidest(g, st);
      bandwidths, parents := st.labels, st.parents;
    }

    /** path_between: the search of the network's strategy. */
    method PathBetween(from: nat) returns (val: seq<Option<nat>>, parents: seq<Option<nat>>)
      requires Valid() && from < links.n
      ensures var st := Search(View().Topology(), strategy, from); val == st.labels && parents == st.parents
    {
      match strategy
      case WidestPath => val, parents := WidestPaths(from);
      case ShortestPath => val, parents := ShortestPaths(from);
    }

    /** The loop over the parents in bandwidth_between and properties_between. */
    method WalkBack(parents: seq<Option<nat>>, from: T, to: T) returns (speed: nat)
      requires Valid() && Known(from, to)
      requires parents == Search(View().Topology(), strategy, mapper[from]).parents
      ensures speed == View().WalkedBandwidth(from, to)
    {
      ghost var net := View();
      ghost var w := net.Back(from, to);
      ghost var k := 0;
      var dest := mapper[to];
      speed := MAX_BANDWIDTH;
      net.StepBack(from, to, 0);
      while parents[dest].Some?
        invariant k < |w| && dest == w[k] && speed == net.NarrowestTo(from, to, k)
        invariant dest < |parents| && (parents[dest].Some? <==> k + 1 < |w|)
        decreases |w| - k
      {
        net.StepBack(from, to, k);
        net.StepBack(from, to, k + 1);
        var parent := parents[dest].value;
        speed := Min(speed, links.Get(dest, parent).value.bandwidth);
        dest := parent;
        k := k + 1;
      }
    }

    /** bandwidth_between. */
    method BandwidthBetween(from: T, to: T) returns (bandwidth: Option<nat>)
      requires Valid()
      ensures bandwidth == if Known(from, to) then View().Between(from, to) else None
    {
      if !Known(from, to) {
        return None;
      }
      var val, parents := PathBetween(mapper[from]);
      if strategy.WidestPath? {
        return val[mapper[to]];
      }
      if parents[mapper[to]].None? {
        return None;
      }
      var speed := WalkBack(parents, from, to);
      return Some(speed);
    }

    /** The bandwidth of properties_between: under both strategies none from a vertex to itself. */
    method PropertiesBetween(from: T, to: T) returns (bandwidth: Option<nat>)
      requires Valid()
      ensures bandwidth ==
        if Known(from, to) && View().Between(from, to).Some? && from != to then View().Between(from, to) else None
    {
      if !Known(from, to) {
        return None;
      }
      BetweenIsWalked(View(), from, to);
      View().TopologyValid();
      ParentIffReached(View().Topology(), strategy, mapper[from], mapper[to]);
      var _, parents := PathBetween(mapper[from]);
      if parents[mapper[to]].None? {
        return None;
      }
      var speed := WalkBack(parents, from, to);
      return Some(speed);
    }

    /** get_path_between: the links in order, and the set of their ends. Adding a link to the set always succeeds. */
    method GetPathBetween(from: T, to: T) returns (path: Option<seq<Link<T>>>)
      requires Valid()
      ensures path == if Known(from, to) then Some(View().PathOf(from, to)) else None
    {
      if !Known(from, to) {
        return None;
      }
      var _, parents := PathBetween(mapper[from]);
      ghost var net := View();
      ghost var w := net.Back(from, to);
      var edges: seq<Link<T>> := [];
      var edgesSet: set<set<T>> := {};
      var lastChild := mapper[to];
      ghost var k := 0;
      net.StepBack(from, to, 0);
      while parents[lastChild].Some?
        invariant k < |w| && lastChild == w[k] && edges == net.LinksTo(from, to, k)
        invariant lastChild < |parents| && (parents[lastChild].Some? <==> k + 1 < |w|)
        invariant edgesSet == AllEnds(edges)
        decreases |w| - k
      {
        net.StepBack(from, to, k);
        net.StepBack(from, to, k + 1);
        var parent := parents[lastChild].value;
        var link := links.Get(parent, lastChild).value;
        var newlyAdded := Ends(link) !in edgesSet;
        assert newlyAdded by {
          LinkIsNew(net, from, to, k);
        }
        EndsMore(link, edges);
        edges := [link] + edges;
        edgesSet := edgesSet + {Ends(link)};
        lastChild := parent;
        k := k + 1;
      }
      return Some(edges);
    }

    /** The next link on the way back. */
    method ChangeLink(ghost net: Net<T>, ghost from: T, ghost to: T, ghost k: nat, parent: nat, child: nat, func: nat -> Option<nat>)
      returns (ok: bool)
      requires net.Valid() && net.Knows(from, to) && links.Valid() && links.n == net.cells.n && ChangedTo(net, View(), from, to, k, func)
      requires k + 1 < |net.Back(from, to)| && child == net.Back(from, to)[k] && parent == net.Back(from, to)[k + 1]
      modifies links
      ensures ok ==> links.Valid() && links.n == net.cells.n && ChangedTo(net, View(), from, to, k + 1, func)
      ensures !ok ==> View() == old(View()) && links.Valid() && links.n == net.cells.n
      ensures !ok ==> !forall l | l in net.PathOf(from, to) :: func(l.bandwidth).Some?
    {
      ghost var before := View();
      ChangeNext(net, before, from, to, k, func);
      var link := links.Get(parent, child).value;
      var speed := func(link.bandwidth);
      if speed.None? {
        return false;
      }
      UpdateBandwidthInter(parent, child, speed.value);
      assert View() == WithBandwidth(before, parent, child, speed.value);
      return true;
    }

    /** update_edges_along_path_by: applies func to the bandwidth of every link of the path.
        It fails when func does on some link. */
    method UpdateEdgesAlongPathBy(from: T, to: T, func: nat -> Option<nat>) returns (ok: bool)
      requires Valid() && forall b: nat | b <= MAX_BANDWIDTH && func(b).Some? :: func(b).value <= MAX_BANDWIDTH
      modifies links
      ensures links.Valid() && links.n == old(links.n)
      ensures !Known(from, to) ==> ok && View() == old(View())
      ensures Known(from, to) ==>
        && (ok <==> forall l | l in old(View()).PathOf(from, to) :: func(l.bandwidth).Some?)
        && (ok ==> Valid() && Changed(old(View()), View(), old(View()).Back(from, to), func))
    {
      if !Known(from, to) {
        return true;
      }
      var _, parents := PathBetween(mapper[from]);
      ghost var net := View();
      NothingChanged(net, from, to, func);
      ok := ChangeLinks(net, from, to, parents, func);
      if ok {
        AllChanged(net, View(), from, to, func);
      }
    }

    /** The loop over the links on the way back. */
    method ChangeLinks(ghost net: Net<T>, from: T, to: T, parents: seq<Option<nat>>, func: nat -> Option<nat>) returns (ok: bool)
      requires net.Valid() && net.Knows(from, to) && parents == Search(net.Topology(), net.strategy, net.mapper[from]).parents
      requires mapper == net.mapper && links.Valid() && links.n == net.cells.n && ChangedTo(net, View(), from, to, 0, func)
      modifies links
      ensures links.Valid() && links.n == old(links.n)
      ensures ok ==> ChangedTo(net, View(), from, to, |net.Back(from, to)| - 1, func)
      ensures !ok ==> !forall l | l in net.PathOf(from, to) :: func(l.bandwidth).Some?
    {
      ghost var w := net.Back(from, to);
      var lastChild := mapper[to];
      ghost var k := 0;
      net.StepBack(from, to, 0);
      while parents[lastChild].Some?
        invariant k < |w| && lastChild == w[k] && lastChild < |parents| && (parents[lastChild].Some? <==> k + 1 < |w|)
        invariant links.Valid() && links.n == net.cells.n && ChangedTo(net, View(), from, to, k, func)
        decreases |w| - k
      {
        net.StepBack(from, to, k);
        net.StepBack(from, to, k + 1);
        var parent := parents[lastChild].value;
        ok := ChangeLink(net, from, to, k, parent, lastChild, func);
        if !ok {
          return;
        }
        lastChild := parent;
        k := k + 1;
      }
      return true;
    }
  }

  ghost function WithBandwidth<T>(net: Net<T>, i: nat, j: nat, bandwidth: nat): Net<T>
    requires net.cells.Valid() && i < net.cells.n && j < net.cells.n && net.cells.At(i, j).Some?
  {
    net.(cells := net.cells.Put(i, j, Some(net.LinkIn(i, j).(bandwidth := bandwidth))))
  }

  /** The first k links back have been changed. */
  ghost predicate ChangedTo<T>(net: Net<T>, now: Net<T>, from: T, to: T, k: nat, func: nat -> Option<nat>)
    requires net.Valid() && net.Knows(from, to)
  {
    && k < |net.Back(from, to)| && Changed(net, now, net.Back(from, to)[..k + 1], func)
    && forall l | l in net.LinksTo(from, to, k) :: func(l.bandwidth).Some?
  }

  lemma NothingChanged<T>(net: Net<T>, from: T, to: T, func: nat -> Option<nat>)
    requires net.Valid() && net.Knows(from, to)
    ensures ChangedTo(net, net, from, to, 0, func)
  {
    var walked := net.Back(from, to)[..1];
    forall i, j | 0 <= i < net.cells.n && 0 <= j < net.cells.n
      ensures CellChanged(net, net, walked, i, j, func)
    {
    }
  }

  /** The next link back still has its bandwidth, and is the next to be changed. */
  lemma AllChanged<T>(net: Net<T>, now: Net<T>, from: T, to: T, func: nat -> Option<nat>)
    requires net.Valid() && net.Knows(from, to) && ChangedTo(net, now, from, to, |net.Back(from, to)| - 1, func)
    requires forall b: nat | b <= MAX_BANDWIDTH && func(b).Some? :: func(b).value <= MAX_BANDWIDTH
    ensures now.Valid() && Changed(net, now, net.Back(from, to), func)
    ensures forall l | l in net.PathOf(from, to) :: func(l.bandwidth).Some?
  {
    var w := net.Back(from, to);
    assert w[..|w| - 1 + 1] == w;
    ChangedKeepsValid(net, now, w, func);
  }

  lemma ChangeNext<T>(net: Net<T>, now: Net<T>, from: T, to: T, k: nat, func: nat -> Option<nat>)
    requires net.Valid() && net.Knows(from, to) && k + 1 < |net.Back(from, to)| && ChangedTo(net, now, from, to, k, func)
    ensures var w := net.Back(from, to);
      && w[k] < net.cells.n && w[k + 1] < net.cells.n
      && net.cells.At(w[k + 1], w[k]).Some? && now.cells.At(w[k + 1], w[k]) == net.cells.At(w[k + 1], w[k])
      && net.LinkIn(w[k + 1], w[k]) in net.PathOf(from, to)
      && var val := func(net.LinkIn(w[k + 1], w[k]).bandwidth);
      val.Some? ==> ChangedTo(net, WithBandwidth(now, w[k + 1], w[k], val.value), from, to, k + 1, func)
  {
    var w := net.Back(from, to);
    net.StepBack(from, to, k);
    ReadAhead(net, now, from, to, k, func);
    LinksToWithin(net, from, to, k + 1, net.LinkIn(w[k + 1], w[k]));
    var val := func(net.LinkIn(w[k + 1], w[k]).bandwidth);
    if val.Some? {
      ChangedOneMore(net, now, from, to, k, func, WithBandwidth(now, w[k + 1], w[k], val.value));
    }
  }

  function AllEnds<T(==)>(edges: seq<Link<T>>): set<set<T>> { set l | l in edges :: Ends(l) }

  lemma EndsMore<T>(link: Link<T>, edges: seq<Link<T>>)
    ensures AllEnds([link] + edges) == AllEnds(edges) + {Ends(link)}
  {
    assert link in [link] + edges;
  }

  lemma LinksTakenDiffer<T>(net: Net<T>, from: T, to: T, k: nat, i: nat)
    requires net.Valid() && net.Knows(from, to) && i < k && k + 1 < |net.Back(from, to)|
    requires var w := net.Back(from, to); w[k] < net.cells.n && w[k + 1] < net.cells.n && net.cells.At(w[k + 1], w[k]).Some?
    ensures Ends(net.LinksTo(from, to, k)[k - 1 - i]) != Ends(net.LinkIn(net.Back(from, to)[k + 1], net.Back(from, to)[k]))
  {
    var w := net.Back(from, to);
    var m := |w| - 1;
    LinkTaken(net, from, to, k, i);
    LinkTaken(net, from, to, m, i);
    LinkTaken(net, from, to, m, k);
    PathTakesLinksOnce(net, from, to, m - 1 - k, m - 1 - i);
    SameLinkIffEnds(net.LinkIn(w[k + 1], w[k]), net.LinkIn(w[i + 1], w[i]));
  }

  /** The next link of the path differs from those already taken. */
  lemma LinkIsNew<T>(net: Net<T>, from: T, to: T, k: nat)
    requires net.Valid() && net.Knows(from, to) && k + 1 < |net.Back(from, to)|
    ensures var w := net.Back(from, to);
      && w[k] < net.cells.n && w[k + 1] < net.cells.n && net.cells.At(w[k + 1], w[k]).Some?
      && Ends(net.LinkIn(w[k + 1], w[k])) !in AllEnds(net.LinksTo(from, to, k))
  {
    var taken := net.LinksTo(from, to, k);
    net.StepBack(from, to, k);
    forall l | l in taken
      ensures Ends(net.LinkIn(net.Back(from, to)[k + 1], net.Back(from, to)[k])) != Ends(l)
    {
      var x :| 0 <= x < |taken| && taken[x] == l;
      LinksTakenDiffer(net, from, to, k, k - 1 - x);
    }
  }

  /** The next link still has the bandwidth it had at first. */
  lemma ReadAhead<T>(net: Net<T>, now: Net<T>, from: T, to: T, k: nat, func: nat -> Option<nat>)
    requires net.Valid() && net.Knows(from, to) && k + 1 < |net.Back(from, to)|
    requires Changed(net, now, net.Back(from, to)[..k + 1], func)
    ensures var w := net.Back(from, to); now.cells.At(w[k + 1], w[k]) == net.cells.At(w[k + 1], w[k])
  {
    var w := net.Back(from, to);
    NotYetCrossed(net, from, to, k);
    CrossesBothWays(w[..k + 1], w[k + 1], w[k]);
    assert CellChanged(net, now, w[..k + 1], w[k + 1], w[k], func);
  }

  lemma {:induction false} LinksToWithin<T>(net: Net<T>, from: T, to: T, k: nat, l: Link<T>)
    requires net.Valid() && net.Knows(from, to) && k < |net.Back(from, to)|
    requires l in net.LinksTo(from, to, k)
    ensures l in net.PathOf(from, to)
    decreases |net.Back(from, to)| - k
  {
    net.StepBack(from, to, k);
    if k + 1 < |net.Back(from, to)| {
      LinksToWithin(net, from, to, k + 1, l);
    }
  }

  lemma PutKeepsValid<T>(net: Net<T>, i: nat, j: nat, link: Option<Link<T>>)
    requires net.Valid() && i < net.cells.n && j < net.cells.n
    requires link.Some? ==>
      && link.value.source in net.mapper && link.value.destination in net.mapper && link.value.bandwidth <= MAX_BANDWIDTH
      && net.mapper[link.value.source] == i && net.mapper[link.value.destination] == j
    ensures net.(cells := net.cells.Put(i, j, link)).Valid()
  {
    net.cells.PutAt(i, j, link);
    var after := net.(cells := net.cells.Put(i, j, link));
    forall r, c | 0 <= r < net.cells.n && 0 <= c < net.cells.n
      ensures after.CellOk(r, c)
    {
      assert net.CellOk(r, c);
    }
  }
}
