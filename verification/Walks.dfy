/** Following the parents of a search back to its source (netgraph/src/lib.rs): the walks taken by
    bandwidth_between, get_path_between and update_edges_along_path_by. */
module Walks {
  import opened Prelude
  import opened Routing

  /** w follows the parents from w[0] until there is none. */
  ghost predicate Chain(parents: seq<Option<nat>>, w: seq<nat>) {
    && |w| >= 1 && (forall i | 0 <= i < |w| :: w[i] < |parents|)
    && (forall i | 0 <= i < |w| - 1 :: parents[w[i]] == Some(w[i + 1]))
    && parents[w[|w| - 1]].None?
  }

  lemma {:induction false} ChainUnique(parents: seq<Option<nat>>, w: seq<nat>, x: seq<nat>)
    requires Chain(parents, w) && Chain(parents, x) && w[0] == x[0]
    ensures w == x
    decreases |w|
  {
    assert |w| > 1 ==> parents[w[0]] == Some(w[1]);
    assert |x| > 1 ==> parents[x[0]] == Some(x[1]);
    if |w| > 1 {
      ChainUnique(parents, w[1..], x[1..]);
    }
  }

  ghost predicate WalkFrom(g: Graph, strategy: PathStrategy, from: nat, to: nat, w: seq<nat>)
    requires from < g.n && to < g.n
  {
    && Chain(Search(g, strategy, from).parents, w) && w[0] == to
    && w[|w| - 1] == if Search(g, strategy, from).labels[to].Some? then from else to
  }

  lemma WalkExists(g: Graph, strategy: PathStrategy, from: nat, to: nat)
    requires g.Valid() && from < g.n && to < g.n
    ensures exists w :: WalkFrom(g, strategy, from, to, w)
  {
    SearchEnds(g, strategy, from);
    ParentIffReached(g, strategy, from, to);
    if Search(g, strategy, from).labels[to].Some? {
      var w := ParentsReachSource(g, strategy, from, to);
      assert WalkFrom(g, strategy, from, to, w);
    } else {
      assert WalkFrom(g, strategy, from, to, [to]);
    }
  }

  /** The walk from a vertex back to the source of the search, or as far as it goes. */
  ghost function Walk(g: Graph, strategy: PathStrategy, from: nat, to: nat): (w: seq<nat>)
    requires g.Valid() && from < g.n && to < g.n
    ensures WalkFrom(g, strategy, from, to, w)
  {
    WalkExists(g, strategy, from, to);
    var w :| WalkFrom(g, strategy, from, to, w);
    w
  }

  /** Parents never form a cycle: a walk passes no vertex twice. */
  lemma WalkIsSimple(g: Graph, strategy: PathStrategy, from: nat, to: nat, i: nat, j: nat)
    requires g.Valid() && from < g.n && to < g.n
    requires i < j < |Walk(g, strategy, from, to)|
    ensures Walk(g, strategy, from, to)[i] != Walk(g, strategy, from, to)[j]
  {
    var st := Search(g, strategy, from);
    var w := Walk(g, strategy, from, to);
    SearchEnds(g, strategy, from);
    ParentIffReached(g, strategy, from, to);
    assert st.parents[w[0]] == Some(w[1]);
    var x := ParentsReachSource(g, strategy, from, to);
    ChainUnique(st.parents, w, x);
    WalkDistinct(g, st, from, w, i, j);
  }

  /** A walk runs along links. */
  lemma WalkFollowsLinks(g: Graph, strategy: PathStrategy, from: nat, to: nat, i: nat)
    requires g.Valid() && from < g.n && to < g.n && i + 1 < |Walk(g, strategy, from, to)|
    ensures var w := Walk(g, strategy, from, to); g.Adjacent(w[i + 1], w[i]) && g.Adjacent(w[i], w[i + 1])
  {
    var w := Walk(g, strategy, from, to);
    ParentIsExact(g, strategy, from, w[i]);
  }

  /** The two vertices joined by the k-th link of the walk, in either order. */
  ghost predicate LinkAt(w: seq<nat>, k: nat, i: nat, j: nat)
    requires k + 1 < |w|
  {
    (w[k] == i && w[k + 1] == j) || (w[k] == j && w[k + 1] == i)
  }

  /** No link is taken twice. */
  lemma LinksDistinct(g: Graph, strategy: PathStrategy, from: nat, to: nat, k: nat, l: nat)
    requires g.Valid() && from < g.n && to < g.n && k < l && l + 1 < |Walk(g, strategy, from, to)|
    ensures var w := Walk(g, strategy, from, to); !LinkAt(w, k, w[l], w[l + 1])
  {
    WalkIsSimple(g, strategy, from, to, k, l);
    WalkIsSimple(g, strategy, from, to, k, l + 1);
  }

  /** The walk crosses the link between two vertices. */
  ghost predicate Crosses(w: seq<nat>, i: nat, j: nat) {
    exists k: nat :: k + 1 < |w| && LinkAt(w, k, i, j)
  }

  // ----- What the walks measure -----

  /** The smallest bandwidth on the first k links of a walk. */
  ghost function Narrowest(g: Graph, w: seq<nat>, k: nat): (b: nat)
    requires k < |w| && forall i | 0 <= i < k :: g.Adjacent(w[i + 1], w[i])
    ensures b <= MAX_BANDWIDTH
  {
    if k == 0 then MAX_BANDWIDTH
    else
      assert g.Adjacent(w[k - 1 + 1], w[k - 1]);
      Min(Narrowest(g, w, k - 1), g.link(w[k], w[k - 1]).value)
  }

  /** The walked bandwidth is at least b exactly when every link of the walk carries b. */
  lemma {:induction false} NarrowestIsMinimum(g: Graph, w: seq<nat>, k: nat, b: nat)
    requires k < |w| && forall i | 0 <= i < k :: g.Adjacent(w[i + 1], w[i])
    ensures Narrowest(g, w, k) >= b <==> b <= MAX_BANDWIDTH && forall i | 0 <= i < k :: LinkCarries(g, w[i + 1], w[i], b)
  {
    if k > 0 {
      NarrowestIsMinimum(g, w, k - 1, b);
      assert g.Adjacent(w[k - 1 + 1], w[k - 1]);
    }
  }

  /** The label of the vertex the walk has left is that of the vertex it has reached, extended by what lies between. */
  lemma {:induction false} WidthAlongWalk(g: Graph, from: nat, to: nat, k: nat)
    requires g.Valid() && from < g.n && to < g.n && k < |Walk(g, WidestPath, from, to)|
    requires Search(g, WidestPath, from).labels[to].Some?
    requires forall i | 0 <= i < k :: g.Adjacent(Walk(g, WidestPath, from, to)[i + 1], Walk(g, WidestPath, from, to)[i])
    ensures var labels, w := Search(g, WidestPath, from).labels, Walk(g, WidestPath, from, to);
      labels[w[k]].Some? && labels[to].value == Min(labels[w[k]].value, Narrowest(g, w, k))
  {
    var st := Search(g, WidestPath, from);
    var w := Walk(g, WidestPath, from, to);
    if k > 0 {
      WidthAlongWalk(g, from, to, k - 1);
      ParentIsExact(g, WidestPath, from, w[k - 1]);
      assert st.parents[w[k - 1]] == Some(w[k]);
    }
  }

  /** The narrowest link of a widest path is as wide as reported. */
  lemma WalkedWidth(g: Graph, from: nat, to: nat)
    requires g.Valid() && from < g.n && to < g.n && Search(g, WidestPath, from).labels[to].Some?
    ensures var w := Walk(g, WidestPath, from, to);
      && (forall i | 0 <= i < |w| - 1 :: g.Adjacent(w[i + 1], w[i]))
      && Search(g, WidestPath, from).labels[to] == Some(Narrowest(g, w, |w| - 1))
  {
    var w := Walk(g, WidestPath, from, to);
    forall i | 0 <= i < |w| - 1
      ensures g.Adjacent(w[i + 1], w[i])
    {
      WalkFollowsLinks(g, WidestPath, from, to, i);
    }
    WidthAlongWalk(g, from, to, |w| - 1);
    SearchEnds(g, WidestPath, from);
  }

  lemma {:induction false} HopsAlongWalk(g: Graph, from: nat, to: nat, k: nat)
    requires g.Valid() && from < g.n && to < g.n && k < |Walk(g, ShortestPath, from, to)|
    requires Search(g, ShortestPath, from).labels[to].Some?
    ensures var labels, w := Search(g, ShortestPath, from).labels, Walk(g, ShortestPath, from, to);
      labels[w[k]].Some? && labels[to].value == labels[w[k]].value + k
  {
    var st := Search(g, ShortestPath, from);
    var w := Walk(g, ShortestPath, from, to);
    if k > 0 {
      HopsAlongWalk(g, from, to, k - 1);
      ParentIsExact(g, ShortestPath, from, w[k - 1]);
      assert st.parents[w[k - 1]] == Some(w[k]);
    }
  }

  /** The walk of a shortest path has as many links as reported. */
  lemma WalkedHops(g: Graph, from: nat, to: nat)
    requires g.Valid() && from < g.n && to < g.n && Search(g, ShortestPath, from).labels[to].Some?
    ensures Search(g, ShortestPath, from).labels[to].value == |Walk(g, ShortestPath, from, to)| - 1
  {
    HopsAlongWalk(g, from, to, |Walk(g, ShortestPath, from, to)| - 1);
    SearchEnds(g, ShortestPath, from);
  }

  /** The walk from the source on: a path whose cost is the label of its end. */
  lemma {:induction false} Route(g: Graph, strategy: PathStrategy, from: nat, to: nat, i: nat) returns (p: seq<nat>)
    requires g.Valid() && from < g.n && to < g.n && i < |Walk(g, strategy, from, to)|
    requires Search(g, strategy, from).labels[to].Some?
    ensures var w, labels := Walk(g, strategy, from, to), Search(g, strategy, from).labels;
      && |p| == i + 1 && (forall j | 0 <= j <= i :: p[j] == w[|w| - 1 - j])
      && PathFromTo(g, p, from, w[|w| - 1 - i]) && labels[w[|w| - 1 - i]] == Some(Cost(g, strategy, p))
  {
    var w, st := Walk(g, strategy, from, to), Search(g, strategy, from);
    SearchEnds(g, strategy, from);
    if i == 0 {
      p := [from];
    } else {
      var u, v := w[|w| - i], w[|w| - 1 - i];
      var q := Route(g, strategy, from, to, i - 1);
      WalkFollowsLinks(g, strategy, from, to, |w| - 1 - i);
      assert st.parents[v] == Some(u);
      ParentIsExact(g, strategy, from, v);
      PathExtends(g, strategy, from, u, v, q);
      p := q + [v];
    }
  }

  lemma BestRoute(g: Graph, strategy: PathStrategy, from: nat, to: nat) returns (p: seq<nat>)
    requires g.Valid() && from < g.n && to < g.n && Search(g, strategy, from).labels[to].Some?
    ensures var w := Walk(g, strategy, from, to); |p| == |w| && forall j | 0 <= j < |p| :: p[j] == w[|w| - 1 - j]
    ensures PathFromTo(g, p, from, to) && IsBest(g, strategy, from, to, Some(Cost(g, strategy, p)))
  {
    p := Route(g, strategy, from, to, |Walk(g, strategy, from, to)| - 1);
    SearchIsBest(g, strategy, from, to);
  }

  /** Walks of shortest paths depend on the links, not on their bandwidths. */
  lemma ShortestWalksFollowLinks(g: Graph, h: Graph, from: nat, to: nat)
    requires g.Valid() && h.Valid() && SameLinks(g, h) && from < g.n && to < g.n
    ensures Walk(g, ShortestPath, from, to) == Walk(h, ShortestPath, from, to)
  {
    ShortestPathsFollowLinks(g, h, from);
    ChainUnique(Search(g, ShortestPath, from).parents, Walk(g, ShortestPath, from, to), Walk(h, ShortestPath, from, to));
  }
}
