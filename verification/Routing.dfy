/** Path searches of netgraph/src/lib.rs, on values: shortest_path and widest_path are one label-correcting
    machine with two ways to extend and compare labels. */
module Routing {
  import opened Prelude

  datatype PathStrategy = WidestPath | ShortestPath

  /** A network by indices: the bandwidth of the link between two vertices, if there is one. */
  datatype Graph = Graph(n: nat, link: (nat, nat) -> Option<nat>) {
    ghost predicate Valid() {
      && (forall i, j | 0 <= i < n && 0 <= j < n :: link(i, j) == link(j, i))
      && (forall i, j | 0 <= i < n && 0 <= j < n && link(i, j).Some? :: link(i, j).value <= MAX_BANDWIDTH)
    }

    predicate Adjacent(i: nat, j: nat) {
      i < n && j < n && i != j && link(i, j).Some?
    }
  }

  // ----- Labels -----

  function Initial(strategy: PathStrategy): nat { if strategy.WidestPath? then MAX_BANDWIDTH else 0 }

  /** The label of a path when one more link is taken. */
  function Extend(strategy: PathStrategy, val: nat, bandwidth: nat): nat {
    if strategy.WidestPath? then Min(val, bandwidth) else val + 1
  }

  predicate Better(strategy: PathStrategy, a: nat, b: nat) { if strategy.WidestPath? then a > b else a < b }

  // ----- Paths -----

  ghost predicate IsPath(g: Graph, p: seq<nat>) {
    |p| >= 1 && (forall i | 0 <= i < |p| :: p[i] < g.n) && forall i | 0 <= i < |p| - 1 :: g.Adjacent(p[i], p[i + 1])
  }

  ghost predicate PathFromTo(g: Graph, p: seq<nat>, from: nat, to: nat) {
    IsPath(g, p) && p[0] == from && p[|p| - 1] == to
  }

  /** The label of a path: its smallest bandwidth, or its number of links. */
  ghost function Cost(g: Graph, strategy: PathStrategy, p: seq<nat>): nat
    requires IsPath(g, p)
  {
    if |p| == 1 then Initial(strategy)
    else
      assert g.Adjacent(p[|p| - 2], p[|p| - 1]);
      Extend(strategy, Cost(g, strategy, p[..|p| - 1]), g.link(p[|p| - 2], p[|p| - 1]).value)
  }

  /** The label is the best over all paths; there is none exactly when there is no path. */
  ghost predicate IsBest(g: Graph, strategy: PathStrategy, from: nat, to: nat, best: Option<nat>) {
    && (best.None? ==> forall p :: !PathFromTo(g, p, from, to))
    && (best.Some? ==>
          && (exists p :: PathFromTo(g, p, from, to) && Cost(g, strategy, p) == best.value)
          && forall p | PathFromTo(g, p, from, to) :: !Better(strategy, Cost(g, strategy, p), best.value))
  }

  lemma BestIsUnique(g: Graph, strategy: PathStrategy, from: nat, to: nat, a: Option<nat>, b: Option<nat>)
    requires IsBest(g, strategy, from, to, a) && IsBest(g, strategy, from, to, b)
    ensures a == b
  {
    if a.Some? && b.Some? {
      var p :| PathFromTo(g, p, from, to) && Cost(g, strategy, p) == a.value;
      var q :| PathFromTo(g, q, from, to) && Cost(g, strategy, q) == b.value;
    }
  }

  // ----- The machine -----

  datatype Pair = Pair(node: nat, val: nat)

  /** The order in which the heap gives its pairs: smallest value first, then smallest node. */
  predicate Before(a: Pair, b: Pair) { a.val < b.val || (a.val == b.val && a.node <= b.node) }

  ghost predicate First(heap: multiset<Pair>, a: Pair) {
    a in heap && forall b | b in heap :: Before(a, b)
  }

  lemma FirstExists(heap: multiset<Pair>, x: Pair)
    requires x in heap
    ensures exists a :: First(heap, a)
    decreases x.val, x.node
  {
    if b :| b in heap && !Before(x, b) {
      FirstExists(heap, b);
    } else {
      assert First(heap, x);
    }
  }

  ghost function Least(heap: multiset<Pair>): (a: Pair)
    requires heap != multiset{}
    ensures First(heap, a)
  {
    var x :| x in heap;
    FirstExists(heap, x);
    var a :| First(heap, a);
    a
  }

  datatype State = State(labels: seq<Option<nat>>, parents: seq<Option<nat>>, heap: multiset<Pair>)

  ghost predicate Shape(g: Graph, strategy: PathStrategy, st: State) {
    && |st.labels| == |st.parents| == g.n
    && (forall x | x in st.heap :: x.node < g.n && st.labels[x.node].Some?)
    && (strategy.WidestPath? ==> forall v | 0 <= v < g.n && st.labels[v].Some? :: st.labels[v].value <= MAX_BANDWIDTH)
  }

  predicate Linked(g: Graph, st: State, u: nat, v: nat) {
    |st.labels| == |st.parents| == g.n && g.Adjacent(u, v) && st.labels[u].Some?
  }

  /** The new label of v over u improves the old one. */
  ghost predicate Improves(g: Graph, strategy: PathStrategy, st: State, u: nat, v: nat)
    requires Linked(g, st, u, v)
  {
    st.labels[v].None? || Better(strategy, Extend(strategy, st.labels[u].value, g.link(u, v).value), st.labels[v].value)
  }

  /** Tries to improve the label of v over u. */
  ghost function Relax(g: Graph, strategy: PathStrategy, st: State, u: nat, v: nat): State {
    if Linked(g, st, u, v) && Improves(g, strategy, st, u, v) then
      var val := Extend(strategy, st.labels[u].value, g.link(u, v).value);
      State(st.labels[v := Some(val)], st.parents[v := Some(u)], st.heap + multiset{Pair(v, val)})
    else st
  }

  lemma RelaxShape(g: Graph, strategy: PathStrategy, st: State, u: nat, v: nat)
    requires Shape(g, strategy, st) && Linked(g, st, u, v)
    ensures Shape(g, strategy, Relax(g, strategy, st, u, v)) && Relax(g, strategy, st, u, v).labels[u].Some?
  {
  }

  /** The neighbours of u among the first k vertices, in increasing order. */
  ghost function Neighbours(g: Graph, u: nat, k: nat): (ns: seq<nat>)
    requires u < g.n && k <= g.n
  {
    if k == 0 then [] else Neighbours(g, u, k - 1) + if g.Adjacent(u, k - 1) then [k - 1] else []
  }

  lemma {:induction false} NeighboursAre(g: Graph, u: nat, k: nat)
    requires u < g.n && k <= g.n
    ensures forall v: nat :: v in Neighbours(g, u, k) <==> v < k && g.Adjacent(u, v)
  {
    if k > 0 {
      NeighboursAre(g, u, k - 1);
    }
  }

  /** Relaxes the first k neighbours of a list. */
  ghost function RelaxAll(g: Graph, strategy: PathStrategy, st: State, u: nat, ns: seq<nat>, k: nat): State
    requires k <= |ns|
  {
    if k == 0 then st else Relax(g, strategy, RelaxAll(g, strategy, st, u, ns, k - 1), u, ns[k - 1])
  }

  /** Relaxing the i-th neighbour keeps the invariant. */
  ghost predicate KeptAt(g: Graph, strategy: PathStrategy, u: nat, ns: seq<nat>, inv: (State, nat) -> bool, s: State, i: nat)
    requires i < |ns|
  {
    inv(s, i) ==> inv(Relax(g, strategy, s, u, ns[i]), i + 1)
  }

  /** What holds at first and is kept by every relaxation holds after the first k of them. */
  lemma {:induction false} RelaxAllInduction(g: Graph, strategy: PathStrategy, st: State, u: nat, ns: seq<nat>, k: nat, inv: (State, nat) -> bool)
    requires k <= |ns| && inv(st, 0)
    requires forall s: State, i: nat | i < |ns| :: KeptAt(g, strategy, u, ns, inv, s, i)
    ensures inv(RelaxAll(g, strategy, st, u, ns, k), k)
  {
    if k > 0 {
      RelaxAllInduction(g, strategy, st, u, ns, k - 1, inv);
      assert KeptAt(g, strategy, u, ns, inv, RelaxAll(g, strategy, st, u, ns, k - 1), k - 1);
    }
  }

  /** The state has the right shape and u is labelled. */
  ghost predicate Expandable(g: Graph, strategy: PathStrategy, st: State, u: nat) {
    Shape(g, strategy, st) && u < g.n && st.labels[u].Some?
  }

  lemma RelaxAllShape(g: Graph, strategy: PathStrategy, st: State, u: nat, ns: seq<nat>)
    requires Expandable(g, strategy, st, u) && forall v | v in ns :: g.Adjacent(u, v)
    ensures Expandable(g, strategy, RelaxAll(g, strategy, st, u, ns, |ns|), u)
  {
    var inv := (s: State, i: nat) => Expandable(g, strategy, s, u);
    forall s: State, i: nat | i < |ns|
      ensures KeptAt(g, strategy, u, ns, inv, s, i)
    {
      assert ns[i] in ns;
      if inv(s, i) {
        RelaxShape(g, strategy, s, u, ns[i]);
      }
    }
    RelaxAllInduction(g, strategy, st, u, ns, |ns|, inv);
  }

  /** What the next relaxation does. */
  lemma RelaxNext(g: Graph, strategy: PathStrategy, st: State, u: nat, ns: seq<nat>, k: nat, current: State)
    requires k < |ns| && (forall v | v in ns :: g.Adjacent(u, v)) && Expandable(g, strategy, current, u)
    requires current == RelaxAll(g, strategy, st, u, ns, k)
    ensures g.Adjacent(u, ns[k]) && ns[k] < g.n
    ensures var v := ns[k];
      var val := Extend(strategy, current.labels[u].value, g.link(u, v).value);
      var next := RelaxAll(g, strategy, st, u, ns, k + 1);
      && Expandable(g, strategy, next, u)
      && next == if current.labels[v].None? || Better(strategy, val, current.labels[v].value)
                 then State(current.labels[v := Some(val)], current.parents[v := Some(u)], current.heap + multiset{Pair(v, val)})
                 else current
  {
    assert ns[k] in ns;
    RelaxShape(g, strategy, current, u, ns[k]);
  }

  ghost function Popped(st: State): State
    requires st.heap != multiset{}
  {
    st.(heap := st.heap - multiset{Least(st.heap)})
  }

  /** One pass of the loop: the first pair leaves the heap, and unless it is outdated its vertex is expanded. */
  ghost function Step(g: Graph, strategy: PathStrategy, st: State): (r: State)
    requires Shape(g, strategy, st) && st.heap != multiset{}
    ensures Shape(g, strategy, r)
  {
    var x := Least(st.heap);
    if Better(strategy, st.labels[x.node].value, x.val) then Popped(st)
    else
      var ns := Neighbours(g, x.node, g.n);
      NeighboursAre(g, x.node, g.n);
      RelaxAllShape(g, strategy, Popped(st), x.node, ns);
      RelaxAll(g, strategy, Popped(st), x.node, ns, |ns|)
  }

  // ----- Termination: labels only get better, and a pair leaves the heap when none does -----

  ghost function Rank(strategy: PathStrategy, val: nat): nat {
    if strategy.WidestPath? then (if val <= MAX_BANDWIDTH then MAX_BANDWIDTH - val else 0) else val
  }

  ghost function Unlabelled(labels: seq<Option<nat>>): nat {
    if labels == [] then 0 else Unlabelled(labels[..|labels| - 1]) + if labels[|labels| - 1].None? then 1 else 0
  }

  ghost function RankSum(strategy: PathStrategy, labels: seq<Option<nat>>): nat {
    if labels == [] then 0
    else RankSum(strategy, labels[..|labels| - 1]) + if labels[|labels| - 1].None? then 0 else Rank(strategy, labels[|labels| - 1].value)
  }

  /** The labels have become better, or are as they were with no more pairs in the heap. */
  ghost predicate Progresses(strategy: PathStrategy, before: State, after: State) {
    || Unlabelled(after.labels) < Unlabelled(before.labels)
    || (Unlabelled(after.labels) == Unlabelled(before.labels) && RankSum(strategy, after.labels) < RankSum(strategy, before.labels))
    || after == before
  }

  lemma {:induction false} UpdateMeasure(strategy: PathStrategy, labels: seq<Option<nat>>, v: nat, val: nat)
    requires v < |labels|
    ensures labels[v].None? ==> Unlabelled(labels[v := Some(val)]) + 1 == Unlabelled(labels)
    ensures labels[v].Some? ==>
      && Unlabelled(labels[v := Some(val)]) == Unlabelled(labels)
      && RankSum(strategy, labels[v := Some(val)]) + Rank(strategy, labels[v].value) == RankSum(strategy, labels) + Rank(strategy, val)
    decreases |labels|
  {
    var n := |labels| - 1;
    var updated := labels[v := Some(val)];
    if v == n {
      assert updated[..n] == labels[..n];
    } else {
      UpdateMeasure(strategy, labels[..n], v, val);
      assert updated[..n] == labels[..n][v := Some(val)];
    }
  }

  lemma RelaxProgresses(g: Graph, strategy: PathStrategy, st: State, u: nat, v: nat)
    requires Shape(g, strategy, st) && g.Adjacent(u, v) && st.labels[u].Some?
    ensures Progresses(strategy, st, Relax(g, strategy, st, u, v))
  {
    UpdateMeasure(strategy, st.labels, v, Extend(strategy, st.labels[u].value, g.link(u, v).value));
  }

  lemma ProgressesTransitive(strategy: PathStrategy, a: State, b: State, c: State)
    requires Progresses(strategy, a, b) && Progresses(strategy, b, c)
    ensures Progresses(strategy, a, c)
  {
  }

  lemma RelaxAllProgresses(g: Graph, strategy: PathStrategy, st: State, u: nat, ns: seq<nat>)
    requires Expandable(g, strategy, st, u) && forall v | v in ns :: g.Adjacent(u, v)
    ensures Progresses(strategy, st, RelaxAll(g, strategy, st, u, ns, |ns|))
  {
    var inv := (s: State, i: nat) => Expandable(g, strategy, s, u) && Progresses(strategy, st, s);
    forall s: State, i: nat | i < |ns|
      ensures KeptAt(g, strategy, u, ns, inv, s, i)
    {
      assert ns[i] in ns;
      if inv(s, i) {
        RelaxShape(g, strategy, s, u, ns[i]);
        RelaxProgresses(g, strategy, s, u, ns[i]);
        ProgressesTransitive(strategy, st, s, Relax(g, strategy, s, u, ns[i]));
      }
    }
    RelaxAllInduction(g, strategy, st, u, ns, |ns|, inv);
  }

  lemma StepProgresses(g: Graph, strategy: PathStrategy, st: State)
    requires Shape(g, strategy, st) && st.heap != multiset{}
    ensures Step(g, strategy, st) == Popped(st) || Progresses(strategy, Popped(st), Step(g, strategy, st))
    ensures |Popped(st).heap| < |st.heap|
  {
    var x := Least(st.heap);
    if !Better(strategy, st.labels[x.node].value, x.val) {
      var ns := Neighbours(g, x.node, g.n);
      NeighboursAre(g, x.node, g.n);
      RelaxAllProgresses(g, strategy, Popped(st), x.node, ns);
    }
  }

  /** The loop until the heap is empty. */
  ghost function Run(g: Graph, strategy: PathStrategy, st: State): (r: State)
    requires Shape(g, strategy, st)
    ensures Shape(g, strategy, r) && r.heap == multiset{}
    decreases Unlabelled(st.labels), RankSum(strategy, st.labels), |st.heap|
  {
    if st.heap == multiset{} then st
    else
      StepProgresses(g, strategy, st);
      Run(g, strategy, Step(g, strategy, st))
  }

  /** What a pass of the loop needs to know. */
  lemma RunStep(g: Graph, strategy: PathStrategy, st: State)
    requires Shape(g, strategy, st) && st.heap != multiset{}
    ensures var x, popped, next := Least(st.heap), Popped(st), Step(g, strategy, st);
      && Expandable(g, strategy, popped, x.node) && Run(g, strategy, next) == Run(g, strategy, st)
      && next == (if Better(strategy, st.labels[x.node].value, x.val) then popped
                  else RelaxAll(g, strategy, popped, x.node, Neighbours(g, x.node, g.n), |Neighbours(g, x.node, g.n)|))
      && (next == popped || Progresses(strategy, popped, next)) && |popped.heap| < |st.heap|
  {
    StepProgresses(g, strategy, st);
  }

  /** What a loop over the states needs to know of a pass. */
  lemma LoopStep(g: Graph, strategy: PathStrategy, st: State)
    requires Shape(g, strategy, st) && st.heap != multiset{}
    ensures var next := Step(g, strategy, st);
      && Shape(g, strategy, next) && Run(g, strategy, next) == Run(g, strategy, st)
      && (|| Unlabelled(next.labels) < Unlabelled(st.labels)
          || (Unlabelled(next.labels) == Unlabelled(st.labels) && RankSum(strategy, next.labels) < RankSum(strategy, st.labels))
          || (Unlabelled(next.labels) == Unlabelled(st.labels) && RankSum(strategy, next.labels) == RankSum(strategy, st.labels)
              && |next.heap| < |st.heap|))
  {
    RunStep(g, strategy, st);
  }

  /** The state before the loop. */
  ghost function Start(g: Graph, strategy: PathStrategy, from: nat): (st: State)
    requires from < g.n
    ensures Shape(g, strategy, st)
  {
    State(
      seq(g.n, i => if i == from then Some(Initial(strategy)) else None),
      seq(g.n, _ => None),
      multiset{Pair(from, Initial(strategy))})
  }

  /** The result of shortest_path or widest_path. */
  ghost function Search(g: Graph, strategy: PathStrategy, from: nat): (r: State)
    requires from < g.n
    ensures Shape(g, strategy, r) && r.heap == multiset{}
  {
    Run(g, strategy, Start(g, strategy, from))
  }

  // ----- What the loop keeps -----

  /** Following the parents from v leads along links to the source. */
  ghost predicate RootWalk(g: Graph, st: State, from: nat, w: seq<nat>)
    requires |st.labels| == |st.parents| == g.n
  {
    && |w| >= 1 && w[|w| - 1] == from
    && (forall i | 0 <= i < |w| :: w[i] < g.n && st.labels[w[i]].Some?)
    && (forall i | 0 <= i < |w| - 1 :: st.parents[w[i]] == Some(w[i + 1]))
  }

  /** A parent is a labelled neighbour whose extended label is at least as good. */
  ghost predicate ParentOk(g: Graph, strategy: PathStrategy, st: State, v: nat)
    requires |st.labels| == |st.parents| == g.n && v < g.n
  {
    st.parents[v].Some? ==>
      var p := st.parents[v].value;
      && g.Adjacent(p, v) && st.labels[p].Some? && st.labels[v].Some?
      && !Better(strategy, st.labels[v].value, Extend(strategy, st.labels[p].value, g.link(p, v).value))
  }

  /** The label of v is that of some path, and v has a walk to the source. */
  ghost predicate LabelOk(g: Graph, strategy: PathStrategy, st: State, from: nat, v: nat)
    requires |st.labels| == |st.parents| == g.n && v < g.n
  {
    st.labels[v].Some? ==>
      && (exists p :: PathFromTo(g, p, from, v) && Cost(g, strategy, p) == st.labels[v].value)
      && (exists w :: RootWalk(g, st, from, w) && w[0] == v)
  }

  ghost predicate TreeOk(g: Graph, strategy: PathStrategy, st: State, from: nat) {
    && g.Valid() && Shape(g, strategy, st) && from < g.n
    && st.labels[from] == Some(Initial(strategy)) && st.parents[from].None?
    && (forall v | 0 <= v < g.n :: ParentOk(g, strategy, st, v))
    && (forall v | 0 <= v < g.n :: LabelOk(g, strategy, st, from, v))
  }

  /** v offers its neighbour w nothing better. */
  ghost predicate Settled(g: Graph, strategy: PathStrategy, st: State, v: nat, w: nat)
    requires |st.labels| == g.n && g.Adjacent(v, w) && st.labels[v].Some?
  {
    st.labels[w].Some? && !Better(strategy, Extend(strategy, st.labels[v].value, g.link(v, w).value), st.labels[w].value)
  }

  /** Every labelled vertex is in the heap with its label, or all its neighbours are settled. */
  ghost predicate Covered(g: Graph, strategy: PathStrategy, st: State, v: nat)
    requires |st.labels| == g.n && v < g.n
  {
    st.labels[v].Some? ==>
      Pair(v, st.labels[v].value) in st.heap || forall w | g.Adjacent(v, w) :: Settled(g, strategy, st, v, w)
  }

  lemma ExtendNotBetter(strategy: PathStrategy, val: nat, bandwidth: nat)
    ensures !Better(strategy, Extend(strategy, val, bandwidth), val)
  {
  }

  lemma ExtendMonotone(strategy: PathStrategy, a: nat, b: nat, bandwidth: nat)
    requires !Better(strategy, a, b)
    ensures !Better(strategy, Extend(strategy, a, bandwidth), Extend(strategy, b, bandwidth))
  {
  }

  /** Labels get no worse along a walk to the source. */
  lemma {:induction false} WalkImproves(g: Graph, strategy: PathStrategy, st: State, from: nat, w: seq<nat>, i: nat)
    requires TreeOk(g, strategy, st, from) && RootWalk(g, st, from, w) && i < |w|
    ensures !Better(strategy, st.labels[w[0]].value, st.labels[w[i]].value)
  {
    if i > 0 {
      WalkImproves(g, strategy, st, from, w, i - 1);
      assert ParentOk(g, strategy, st, w[i - 1]);
      ExtendNotBetter(strategy, st.labels[w[i]].value, g.link(w[i], w[i - 1]).value);
    }
  }

  /** A vertex whose label improves over u is not on the walk from u: parents never form a cycle. */
  lemma WalkAvoids(g: Graph, strategy: PathStrategy, st: State, from: nat, w: seq<nat>, v: nat)
    requires TreeOk(g, strategy, st, from) && RootWalk(g, st, from, w) && g.Adjacent(w[0], v)
    requires Improves(g, strategy, st, w[0], v)
    ensures v !in w
  {
    forall i | 0 <= i < |w|
      ensures w[i] != v
    {
      WalkImproves(g, strategy, st, from, w, i);
      ExtendNotBetter(strategy, st.labels[w[0]].value, g.link(w[0], v).value);
    }
  }

  /** A walk that avoids v is a walk after the parent of v has changed. */
  lemma WalkKept(g: Graph, strategy: PathStrategy, st: State, from: nat, u: nat, v: nat, w: seq<nat>)
    requires Shape(g, strategy, st) && g.Adjacent(u, v) && st.labels[u].Some?
    requires RootWalk(g, st, from, w) && v !in w
    ensures RootWalk(g, Relax(g, strategy, st, u, v), from, w)
  {
  }

  lemma FirstIndex(w: seq<nat>, v: nat) returns (i: nat)
    requires v in w
    ensures i < |w| && w[i] == v && v !in w[..i]
  {
    i := 0;
    while w[i] != v
      invariant i < |w| && v !in w[..i] && exists j :: i <= j < |w| && w[j] == v
      decreases |w| - i
    {
      i := i + 1;
    }
  }

  /** Every walk reaches the source after v has been hung under u: it goes on from v over u. */
  lemma WalkRerouted(g: Graph, strategy: PathStrategy, st: State, from: nat, u: nat, v: nat, wu: seq<nat>, w: seq<nat>) returns (r: seq<nat>)
    requires TreeOk(g, strategy, st, from) && g.Adjacent(u, v) && st.labels[u].Some? && Improves(g, strategy, st, u, v)
    requires RootWalk(g, st, from, wu) && wu[0] == u && RootWalk(g, st, from, w)
    ensures RootWalk(g, Relax(g, strategy, st, u, v), from, r) && r[0] == w[0]
  {
    WalkAvoids(g, strategy, st, from, wu, v);
    WalkKept(g, strategy, st, from, u, v, wu);
    if v !in w {
      WalkKept(g, strategy, st, from, u, v, w);
      r := w;
    } else {
      var i := FirstIndex(w, v);
      r := w[..i + 1] + wu;
      var st' := Relax(g, strategy, st, u, v);
      forall j | 0 <= j < |r| - 1
        ensures st'.parents[r[j]] == Some(r[j + 1])
      {
        if j < i {
          assert r[j] == w[..i][j];
        } else if j > i {
          assert r[j] == wu[j - i - 1] && r[j + 1] == wu[j - i];
        }
      }
    }
  }

  lemma PathExtends(g: Graph, strategy: PathStrategy, from: nat, u: nat, v: nat, p: seq<nat>)
    requires PathFromTo(g, p, from, u) && g.Adjacent(u, v)
    ensures PathFromTo(g, p + [v], from, v)
    ensures Cost(g, strategy, p + [v]) == Extend(strategy, Cost(g, strategy, p), g.link(u, v).value)
  {
    var q := p + [v];
    assert q[..|q| - 1] == p;
    forall i | 0 <= i < |q| - 1
      ensures g.Adjacent(q[i], q[i + 1])
    {
    }
  }

  lemma RelaxKeepsLabel(g: Graph, strategy: PathStrategy, st: State, from: nat, u: nat, v: nat, x: nat)
    requires TreeOk(g, strategy, st, from) && g.Adjacent(u, v) && st.labels[u].Some? && Improves(g, strategy, st, u, v) && x < g.n
    ensures LabelOk(g, strategy, Relax(g, strategy, st, u, v), from, x)
  {
    var st' := Relax(g, strategy, st, u, v);
    assert LabelOk(g, strategy, st, from, u) && LabelOk(g, strategy, st, from, x);
    var wu :| RootWalk(g, st, from, wu) && wu[0] == u;
    if x == v {
      var p :| PathFromTo(g, p, from, u) && Cost(g, strategy, p) == st.labels[u].value;
      PathExtends(g, strategy, from, u, v, p);
      WalkAvoids(g, strategy, st, from, wu, v);
      WalkKept(g, strategy, st, from, u, v, wu);
      var r := [v] + wu;
      assert RootWalk(g, st', from, r) && r[0] == x;
    } else if st.labels[x].Some? {
      var p :| PathFromTo(g, p, from, x) && Cost(g, strategy, p) == st.labels[x].value;
      var w :| RootWalk(g, st, from, w) && w[0] == x;
      var r := WalkRerouted(g, strategy, st, from, u, v, wu, w);
    }
  }

  lemma RelaxKeepsParent(g: Graph, strategy: PathStrategy, st: State, from: nat, u: nat, v: nat, x: nat)
    requires TreeOk(g, strategy, st, from) && g.Adjacent(u, v) && st.labels[u].Some? && Improves(g, strategy, st, u, v) && x < g.n
    ensures ParentOk(g, strategy, Relax(g, strategy, st, u, v), x)
  {
    assert ParentOk(g, strategy, st, x);
    if x != v && st.parents[x] == Some(v) {
      var improved := Extend(strategy, st.labels[u].value, g.link(u, v).value);
      ExtendMonotone(strategy, st.labels[v].value, improved, g.link(v, x).value);
    }
  }

  lemma RelaxKeepsTree(g: Graph, strategy: PathStrategy, st: State, from: nat, u: nat, v: nat)
    requires TreeOk(g, strategy, st, from) && g.Adjacent(u, v) && st.labels[u].Some?
    ensures TreeOk(g, strategy, Relax(g, strategy, st, u, v), from)
  {
    if Improves(g, strategy, st, u, v) {
      var st' := Relax(g, strategy, st, u, v);
      forall x | 0 <= x < g.n
        ensures ParentOk(g, strategy, st', x) && LabelOk(g, strategy, st', from, x)
      {
        RelaxKeepsParent(g, strategy, st, from, u, v, x);
        RelaxKeepsLabel(g, strategy, st, from, u, v, x);
      }
    }
  }

  /** Relaxing over u keeps every other vertex covered. */
  lemma RelaxKeepsCovered(g: Graph, strategy: PathStrategy, st: State, u: nat, v: nat, x: nat)
    requires Shape(g, strategy, st) && g.Adjacent(u, v) && st.labels[u].Some? && x < g.n && x != u
    requires Covered(g, strategy, st, x)
    ensures Covered(g, strategy, Relax(g, strategy, st, u, v), x)
  {
    var st' := Relax(g, strategy, st, u, v);
    if st.labels[x].Some? && st'.labels[x] == st.labels[x] && Pair(x, st.labels[x].value) !in st.heap {
      forall w | g.Adjacent(x, w)
        ensures Settled(g, strategy, st', x, w)
      {
        assert Settled(g, strategy, st, x, w);
      }
    }
  }

  /** While u is being expanded: all others are covered, and u has nothing better for its first k neighbours. */
  ghost predicate Expanding(g: Graph, strategy: PathStrategy, st: State, from: nat, u: nat, ns: seq<nat>, k: nat)
    requires k <= |ns|
  {
    && TreeOk(g, strategy, st, from) && u < g.n && st.labels[u].Some?
    && (forall v | v in ns :: g.Adjacent(u, v))
    && (forall x | 0 <= x < g.n && x != u :: Covered(g, strategy, st, x))
    && (forall i | 0 <= i < k :: Settled(g, strategy, st, u, ns[i]))
  }

  lemma ExpandingStep(g: Graph, strategy: PathStrategy, st: State, from: nat, u: nat, ns: seq<nat>, k: nat)
    requires k < |ns| && Expanding(g, strategy, st, from, u, ns, k)
    ensures Expanding(g, strategy, Relax(g, strategy, st, u, ns[k]), from, u, ns, k + 1)
  {
    var v := ns[k];
    assert v in ns;
    var st' := Relax(g, strategy, st, u, v);
    RelaxKeepsTree(g, strategy, st, from, u, v);
    forall x | 0 <= x < g.n && x != u
      ensures Covered(g, strategy, st', x)
    {
      RelaxKeepsCovered(g, strategy, st, u, v, x);
    }
    forall i | 0 <= i < k + 1
      ensures Settled(g, strategy, st', u, ns[i])
    {
      assert ns[i] in ns;
      if i < k {
        assert Settled(g, strategy, st, u, ns[i]);
      }
    }
  }

  lemma ExpandingAll(g: Graph, strategy: PathStrategy, st: State, from: nat, u: nat, ns: seq<nat>)
    requires Expanding(g, strategy, st, from, u, ns, 0)
    ensures Expanding(g, strategy, RelaxAll(g, strategy, st, u, ns, |ns|), from, u, ns, |ns|)
  {
    var inv := (s: State, i: nat) => i <= |ns| && Expanding(g, strategy, s, from, u, ns, i);
    forall s: State, i: nat | i < |ns|
      ensures KeptAt(g, strategy, u, ns, inv, s, i)
    {
      assert ns[i] in ns;
      if inv(s, i) {
        ExpandingStep(g, strategy, s, from, u, ns, i);
      }
    }
    RelaxAllInduction(g, strategy, st, u, ns, |ns|, inv);
  }

  ghost predicate LoopOk(g: Graph, strategy: PathStrategy, st: State, from: nat) {
    TreeOk(g, strategy, st, from) && forall v | 0 <= v < g.n :: Covered(g, strategy, st, v)
  }

  lemma PoppedKeepsTree(g: Graph, strategy: PathStrategy, st: State, from: nat)
    requires TreeOk(g, strategy, st, from) && st.heap != multiset{}
    ensures TreeOk(g, strategy, Popped(st), from)
  {
    var st' := Popped(st);
    forall v | 0 <= v < g.n
      ensures ParentOk(g, strategy, st', v) && LabelOk(g, strategy, st', from, v)
    {
      assert ParentOk(g, strategy, st, v) && LabelOk(g, strategy, st, from, v);
      if st.labels[v].Some? {
        var w :| RootWalk(g, st, from, w) && w[0] == v;
        assert RootWalk(g, st', from, w);
      }
    }
  }

  lemma PoppedKeepsCovered(g: Graph, strategy: PathStrategy, st: State, v: nat)
    requires Shape(g, strategy, st) && st.heap != multiset{} && v < g.n && Covered(g, strategy, st, v)
    requires st.labels[v].Some? ==> Pair(v, st.labels[v].value) != Least(st.heap)
    ensures Covered(g, strategy, Popped(st), v)
  {
    if st.labels[v].Some? && Pair(v, st.labels[v].value) !in st.heap {
      forall w | g.Adjacent(v, w)
        ensures Settled(g, strategy, Popped(st), v, w)
      {
        assert Settled(g, strategy, st, v, w);
      }
    }
  }

  lemma StepKeeps(g: Graph, strategy: PathStrategy, st: State, from: nat)
    requires LoopOk(g, strategy, st, from) && st.heap != multiset{}
    ensures LoopOk(g, strategy, Step(g, strategy, st), from)
  {
    var x := Least(st.heap);
    var u := x.node;
    PoppedKeepsTree(g, strategy, st, from);
    forall v | 0 <= v < g.n && (v != u || Better(strategy, st.labels[u].value, x.val))
      ensures Covered(g, strategy, Popped(st), v)
    {
      PoppedKeepsCovered(g, strategy, st, v);
    }
    if !Better(strategy, st.labels[u].value, x.val) {
      var ns := Neighbours(g, u, g.n);
      NeighboursAre(g, u, g.n);
      ExpandingAll(g, strategy, Popped(st), from, u, ns);
      ExpandedIsCovered(g, strategy, Step(g, strategy, st), from, u);
    }
  }

  lemma ExpandedIsCovered(g: Graph, strategy: PathStrategy, st: State, from: nat, u: nat)
    requires u < g.n && Expanding(g, strategy, st, from, u, Neighbours(g, u, g.n), |Neighbours(g, u, g.n)|)
    ensures LoopOk(g, strategy, st, from)
  {
    var ns := Neighbours(g, u, g.n);
    NeighboursAre(g, u, g.n);
    forall w | g.Adjacent(u, w)
      ensures Settled(g, strategy, st, u, w)
    {
      assert w in ns;
      var i :| 0 <= i < |ns| && ns[i] == w;
    }
  }

  lemma StartOk(g: Graph, strategy: PathStrategy, from: nat)
    requires g.Valid() && from < g.n
    ensures LoopOk(g, strategy, Start(g, strategy, from), from)
  {
    var st := Start(g, strategy, from);
    var p := [from];
    assert PathFromTo(g, p, from, from) && Cost(g, strategy, p) == Initial(strategy);
    assert RootWalk(g, st, from, p) && p[0] == from;
  }

  lemma {:induction false} RunKeeps(g: Graph, strategy: PathStrategy, st: State, from: nat)
    requires LoopOk(g, strategy, st, from)
    ensures LoopOk(g, strategy, Run(g, strategy, st), from)
    decreases Unlabelled(st.labels), RankSum(strategy, st.labels), |st.heap|
  {
    if st.heap != multiset{} {
      StepKeeps(g, strategy, st, from);
      StepProgresses(g, strategy, st);
      RunKeeps(g, strategy, Step(g, strategy, st), from);
    }
  }

  // ----- Results -----

  /** No path beats the label of its end. */
  lemma {:induction false} LabelBeatsPath(g: Graph, strategy: PathStrategy, st: State, from: nat, p: seq<nat>)
    requires LoopOk(g, strategy, st, from) && st.heap == multiset{} && IsPath(g, p) && p[0] == from
    ensures var v := p[|p| - 1]; st.labels[v].Some? && !Better(strategy, Cost(g, strategy, p), st.labels[v].value)
    decreases |p|
  {
    if |p| > 1 {
      var q := p[..|p| - 1];
      var u, v := p[|p| - 2], p[|p| - 1];
      forall i | 0 <= i < |q| - 1
        ensures g.Adjacent(q[i], q[i + 1])
      {
        assert g.Adjacent(p[i], p[i + 1]);
      }
      assert q[|q| - 1] == u && g.Adjacent(p[|p| - 2], p[|p| - 1]);
      LabelBeatsPath(g, strategy, st, from, q);
      assert Covered(g, strategy, st, u) && Settled(g, strategy, st, u, v);
      ExtendMonotone(strategy, Cost(g, strategy, q), st.labels[u].value, g.link(u, v).value);
    }
  }

  /** The search labels every vertex with the best over all paths, and with nothing when there is none. */
  lemma SearchIsBest(g: Graph, strategy: PathStrategy, from: nat, to: nat)
    requires g.Valid() && from < g.n && to < g.n
    ensures IsBest(g, strategy, from, to, Search(g, strategy, from).labels[to])
  {
    var st := Search(g, strategy, from);
    StartOk(g, strategy, from);
    RunKeeps(g, strategy, Start(g, strategy, from), from);
    assert LabelOk(g, strategy, st, from, to);
    forall p | PathFromTo(g, p, from, to)
      ensures st.labels[to].Some? && !Better(strategy, Cost(g, strategy, p), st.labels[to].value)
    {
      LabelBeatsPath(g, strategy, st, from, p);
    }
  }

  /** The parents of a search lead from every labelled vertex to the source: they form no cycle. */
  lemma ParentsReachSource(g: Graph, strategy: PathStrategy, from: nat, v: nat) returns (w: seq<nat>)
    requires g.Valid() && from < g.n && v < g.n && Search(g, strategy, from).labels[v].Some?
    ensures RootWalk(g, Search(g, strategy, from), from, w) && w[0] == v
  {
    var st := Search(g, strategy, from);
    StartOk(g, strategy, from);
    RunKeeps(g, strategy, Start(g, strategy, from), from);
    assert LabelOk(g, strategy, st, from, v);
    w :| RootWalk(g, st, from, w) && w[0] == v;
  }

  lemma SearchEnds(g: Graph, strategy: PathStrategy, from: nat)
    requires g.Valid() && from < g.n
    ensures LoopOk(g, strategy, Search(g, strategy, from), from)
  {
    StartOk(g, strategy, from);
    RunKeeps(g, strategy, Start(g, strategy, from), from);
  }

  /** At the end the label of a vertex is exactly its parent's label extended by the link between them. */
  lemma ParentIsExact(g: Graph, strategy: PathStrategy, from: nat, v: nat)
    requires g.Valid() && from < g.n && v < g.n
    ensures var st := Search(g, strategy, from);
      st.parents[v].Some? ==>
        var p := st.parents[v].value;
        && g.Adjacent(p, v) && st.labels[p].Some?
        && st.labels[v] == Some(Extend(strategy, st.labels[p].value, g.link(p, v).value))
  {
    var st := Search(g, strategy, from);
    SearchEnds(g, strategy, from);
    assert ParentOk(g, strategy, st, v);
    if st.parents[v].Some? {
      var p := st.parents[v].value;
      assert Covered(g, strategy, st, p) && Settled(g, strategy, st, p, v);
    }
  }

  /** Sources have no parent, and a vertex has a parent exactly when it is labelled and not the source. */
  lemma ParentIffReached(g: Graph, strategy: PathStrategy, from: nat, v: nat)
    requires g.Valid() && from < g.n && v < g.n
    ensures var st := Search(g, strategy, from);
      st.parents[v].Some? <==> st.labels[v].Some? && v != from
  {
    var st := Search(g, strategy, from);
    SearchEnds(g, strategy, from);
    assert ParentOk(g, strategy, st, v) && LabelOk(g, strategy, st, from, v);
    if st.labels[v].Some? {
      var w :| RootWalk(g, st, from, w) && w[0] == v;
      assert |w| > 1 ==> st.parents[w[0]] == Some(w[1]);
    }
  }

  lemma {:induction false} WalkShift(g: Graph, st: State, from: nat, w: seq<nat>, i: nat, j: nat, k: nat)
    requires |st.labels| == |st.parents| == g.n && RootWalk(g, st, from, w)
    requires i < j && j + k < |w|
    ensures w[i] == w[j] ==> w[i + k] == w[j + k]
  {
    if k > 0 {
      WalkShift(g, st, from, w, i, j, k - 1);
      assert st.parents[w[i + k - 1]] == Some(w[i + k]) && st.parents[w[j + k - 1]] == Some(w[j + k]);
    }
  }

  /** A walk visits no vertex twice. */
  lemma WalkDistinct(g: Graph, st: State, from: nat, w: seq<nat>, i: nat, j: nat)
    requires |st.labels| == |st.parents| == g.n && RootWalk(g, st, from, w) && st.parents[from].None?
    requires i < j < |w|
    ensures w[i] != w[j]
  {
    var k := |w| - 1 - j;
    WalkShift(g, st, from, w, i, j, k);
    assert st.parents[w[i + k]] == Some(w[i + k + 1]);
  }

  // ----- Which of several shortest paths -----

  /** u has been expanded, or is being expanded: it is labelled and waits in the heap no more. */
  ghost predicate Done(st: State, u: nat) {
    u < |st.labels| && st.labels[u].Some? && Pair(u, st.labels[u].value) !in st.heap
  }

  /** w would be a parent of v on a shortest path: it is done and one hop nearer. */
  ghost predicate Nearer(g: Graph, st: State, w: nat, v: nat) {
    v < |st.labels| && Done(st, w) && g.Adjacent(w, v) && st.labels[v] == Some(st.labels[w].value + 1)
  }

  /** The parent of v is the first of those. */
  ghost predicate FirstParent(g: Graph, st: State, v: nat) {
    v < |st.parents| && (st.parents[v].Some? ==> Nearer(g, st, st.parents[v].value, v) && forall w: nat | Nearer(g, st, w, v) :: st.parents[v].value <= w)
  }

  /** Every pair of the heap is in it once, with the label of its vertex. */
  ghost predicate HeapOk(g: Graph, st: State) {
    |st.labels| == |st.parents| == g.n && forall y | y in st.heap :: y.node < g.n && st.labels[y.node] == Some(y.val) && st.heap[y] == 1
  }

  ghost predicate CameBefore(st: State, w: nat, x: Pair)
    requires Done(st, w)
  {
    Before(Pair(w, st.labels[w].value), x)
  }

  ghost predicate Explored(g: Graph, st: State, w: nat) { forall v: nat | g.Adjacent(w, v) :: v < |st.labels| && st.labels[v].Some? }

  /** x is the pair that left the heap last: those that are done came before it, those in the heap come after it, at most
      one hop further. */
  ghost predicate Queued(g: Graph, st: State, x: Pair) {
    && HeapOk(g, st) && Done(st, x.node) && st.labels[x.node] == Some(x.val)
    && (forall y | y in st.heap :: Before(x, y) && y.val <= x.val + 1)
    && (forall w: nat | Done(st, w) :: CameBefore(st, w, x))
    && (forall w: nat | Done(st, w) && w != x.node :: Explored(g, st, w))
    && (forall v: nat | v < g.n :: FirstParent(g, st, v))
  }

  /** A vertex with a label gets no better one over x. */
  lemma LabelledStays(g: Graph, st: State, x: Pair, v: nat)
    requires Queued(g, st, x) && g.Adjacent(x.node, v) && st.labels[v].Some?
    ensures Relax(g, ShortestPath, st, x.node, v) == st
  {
    if Done(st, v) {
      assert CameBefore(st, v, x);
    } else {
      assert Pair(v, st.labels[v].value) in st.heap;
    }
  }

  /** A vertex without a label goes to the end of the heap. */
  lemma NewLabel(g: Graph, st: State, x: Pair, v: nat)
    requires Queued(g, st, x) && g.Adjacent(x.node, v) && st.labels[v].None?
    ensures Relax(g, ShortestPath, st, x.node, v)
         == State(st.labels[v := Some(x.val + 1)], st.parents[v := Some(x.node)], st.heap + multiset{Pair(v, x.val + 1)})
    ensures Pair(v, x.val + 1) !in st.heap
  {
  }

  lemma NewLabelDone(g: Graph, st: State, x: Pair, v: nat, st': State, w: nat)
    requires HeapOk(g, st) && v < g.n && st.labels[v].None?
    requires st' == State(st.labels[v := Some(x.val + 1)], st.parents[v := Some(x.node)], st.heap + multiset{Pair(v, x.val + 1)})
    ensures Done(st', w) <==> Done(st, w)
    ensures Done(st, w) ==> w != v && st'.labels[w] == st.labels[w]
  {
  }

  lemma NewLabelParent(g: Graph, st: State, x: Pair, v: nat, st': State, u: nat)
    requires Queued(g, st, x) && g.Adjacent(x.node, v) && st.labels[v].None? && u < g.n
    requires st' == State(st.labels[v := Some(x.val + 1)], st.parents[v := Some(x.node)], st.heap + multiset{Pair(v, x.val + 1)})
    ensures FirstParent(g, st', u)
  {
    assert FirstParent(g, st, u);
    forall w: nat
      ensures u != v ==> (Nearer(g, st', w, u) <==> Nearer(g, st, w, u))
      ensures u == v ==> (Nearer(g, st', w, u) <==> w == x.node)
    {
      NewLabelDone(g, st, x, v, st', w);
      if u == v && Done(st, w) && w != x.node {
        assert Explored(g, st, w);
      }
    }
  }

  lemma RelaxQueued(g: Graph, st: State, x: Pair, v: nat)
    requires Queued(g, st, x) && g.Adjacent(x.node, v)
    ensures Queued(g, Relax(g, ShortestPath, st, x.node, v), x)
  {
    if st.labels[v].Some? {
      LabelledStays(g, st, x, v);
    } else {
      NewLabel(g, st, x, v);
      NewLabelQueued(g, st, x, v, Relax(g, ShortestPath, st, x.node, v));
    }
  }

  lemma ExploredStays(g: Graph, st: State, x: Pair, v: nat, st': State, w: nat)
    requires Explored(g, st, w) && v < |st.labels| && st'.labels == st.labels[v := Some(x.val + 1)]
    ensures Explored(g, st', w)
  {
    forall u: nat | g.Adjacent(w, u)
      ensures u < |st'.labels| && st'.labels[u].Some?
    {
      assert u < |st.labels| && st.labels[u].Some?;
    }
  }

  lemma NewLabelQueued(g: Graph, st: State, x: Pair, v: nat, st': State)
    requires Queued(g, st, x) && g.Adjacent(x.node, v) && st.labels[v].None? && Pair(v, x.val + 1) !in st.heap
    requires st' == State(st.labels[v := Some(x.val + 1)], st.parents[v := Some(x.node)], st.heap + multiset{Pair(v, x.val + 1)})
    ensures Queued(g, st', x)
  {
    forall w: nat
      ensures Done(st', w) <==> Done(st, w)
      ensures Done(st, w) ==> w != v && st'.labels[w] == st.labels[w] && CameBefore(st, w, x) && (w != x.node ==> Explored(g, st', w))
    {
      NewLabelDone(g, st, x, v, st', w);
      if Done(st, w) && w != x.node {
        ExploredStays(g, st, x, v, st', w);
      }
    }
    forall u: nat | u < g.n
      ensures FirstParent(g, st', u)
    {
      NewLabelParent(g, st, x, v, st', u);
    }
  }

  lemma RelaxAllQueued(g: Graph, st: State, x: Pair, ns: seq<nat>)
    requires Queued(g, st, x) && forall v | v in ns :: g.Adjacent(x.node, v)
    ensures Queued(g, RelaxAll(g, ShortestPath, st, x.node, ns, |ns|), x)
  {
    var inv := (s: State, i: nat) => Queued(g, s, x);
    forall s: State, i: nat | i < |ns|
      ensures KeptAt(g, ShortestPath, x.node, ns, inv, s, i)
    {
      assert ns[i] in ns;
      if inv(s, i) {
        RelaxQueued(g, s, x, ns[i]);
      }
    }
    RelaxAllInduction(g, ShortestPath, st, x.node, ns, |ns|, inv);
  }

  /** Between two passes: the heap spans at most one hop, and those that are done came before it. */
  ghost predicate InHops(g: Graph, st: State) {
    && HeapOk(g, st)
    && (forall y, z | y in st.heap && z in st.heap :: z.val <= y.val + 1)
    && (forall w: nat, y | Done(st, w) && y in st.heap :: CameBefore(st, w, y))
    && (forall v: nat | v < g.n :: FirstParent(g, st, v))
  }

  lemma QueuedInHops(g: Graph, st: State, x: Pair)
    requires Queued(g, st, x)
    ensures InHops(g, st)
  {
    forall w: nat, y | Done(st, w) && y in st.heap
      ensures CameBefore(st, w, y)
    {
      assert CameBefore(st, w, x);
    }
  }

  lemma PoppedDone(g: Graph, st: State, w: nat)
    requires HeapOk(g, st) && st.heap != multiset{}
    ensures Done(Popped(st), w) <==> Done(st, w) || w == Least(st.heap).node
  {
  }

  lemma PoppedParent(g: Graph, st: State, v: nat)
    requires InHops(g, st) && st.heap != multiset{} && v < g.n
    ensures FirstParent(g, Popped(st), v)
  {
    var x, st' := Least(st.heap), Popped(st);
    assert FirstParent(g, st, v);
    if st.parents[v].Some? {
      var p := st.parents[v].value;
      PoppedDone(g, st, p);
      assert CameBefore(st, p, x);
      forall w: nat | Nearer(g, st', w, v)
        ensures p <= w
      {
        PoppedDone(g, st, w);
        assert Done(st, w) ==> Nearer(g, st, w, v);
      }
    }
  }

  lemma PoppedQueued(g: Graph, st: State, from: nat)
    requires LoopOk(g, ShortestPath, st, from) && InHops(g, st) && st.heap != multiset{}
    ensures Queued(g, Popped(st), Least(st.heap))
  {
    var x, st' := Least(st.heap), Popped(st);
    forall w: nat | Done(st', w)
      ensures CameBefore(st', w, x) && (w != x.node ==> Explored(g, st', w))
    {
      PoppedDone(g, st, w);
      if w != x.node {
        assert CameBefore(st, w, x) && Covered(g, ShortestPath, st, w);
        forall v: nat | g.Adjacent(w, v)
          ensures st.labels[v].Some?
        {
          assert Settled(g, ShortestPath, st, w, v);
        }
      }
    }
    PoppedDone(g, st, x.node);
    forall v: nat | v < g.n
      ensures FirstParent(g, st', v)
    {
      PoppedParent(g, st, v);
    }
  }

  lemma StepInHops(g: Graph, st: State, from: nat)
    requires LoopOk(g, ShortestPath, st, from) && InHops(g, st) && st.heap != multiset{}
    ensures InHops(g, Step(g, ShortestPath, st))
  {
    var x := Least(st.heap);
    var ns := Neighbours(g, x.node, g.n);
    NeighboursAre(g, x.node, g.n);
    PoppedQueued(g, st, from);
    RelaxAllQueued(g, Popped(st), x, ns);
    QueuedInHops(g, RelaxAll(g, ShortestPath, Popped(st), x.node, ns, |ns|), x);
  }

  lemma {:induction false} RunInHops(g: Graph, st: State, from: nat)
    requires LoopOk(g, ShortestPath, st, from) && InHops(g, st)
    ensures InHops(g, Run(g, ShortestPath, st))
    decreases Unlabelled(st.labels), RankSum(ShortestPath, st.labels), |st.heap|
  {
    if st.heap != multiset{} {
      StepKeeps(g, ShortestPath, st, from);
      StepInHops(g, st, from);
      StepProgresses(g, ShortestPath, st);
      RunInHops(g, Step(g, ShortestPath, st), from);
    }
  }

  lemma StartInHops(g: Graph, from: nat)
    requires from < g.n
    ensures InHops(g, Start(g, ShortestPath, from))
  {
    var st := Start(g, ShortestPath, from);
    forall w: nat
      ensures !Done(st, w)
    {
    }
  }

  /** Among several shortest paths the search takes at every vertex the neighbour with the smallest number that is one
      hop nearer to the source. */
  lemma ParentIsSmallest(g: Graph, from: nat, v: nat, w: nat)
    requires g.Valid() && from < g.n && v < g.n && Search(g, ShortestPath, from).parents[v].Some?
    ensures var st := Search(g, ShortestPath, from);
      var p := st.parents[v].value;
      && g.Adjacent(p, v) && st.labels[p].Some? && st.labels[v] == Some(st.labels[p].value + 1)
      && (g.Adjacent(w, v) && st.labels[w].Some? && st.labels[v] == Some(st.labels[w].value + 1) ==> p <= w)
  {
    var st := Search(g, ShortestPath, from);
    StartOk(g, ShortestPath, from);
    StartInHops(g, from);
    RunInHops(g, Start(g, ShortestPath, from), from);
    ParentIsExact(g, ShortestPath, from, v);
    assert FirstParent(g, st, v);
    if g.Adjacent(w, v) && st.labels[w].Some? {
      assert st.labels[v] == Some(st.labels[w].value + 1) ==> Nearer(g, st, w, v);
    }
  }

  // ----- Widths -----

  /** Every link of the path carries w. */
  ghost predicate Carries(g: Graph, p: seq<nat>, w: nat)
    requires IsPath(g, p)
  {
    forall i | 0 <= i < |p| - 1 :: LinkCarries(g, p[i], p[i + 1], w)
  }

  ghost predicate LinkCarries(g: Graph, i: nat, j: nat, w: nat) {
    g.Adjacent(i, j) && g.link(i, j).value >= w
  }

  lemma {:induction false} WidthIsMinimum(g: Graph, p: seq<nat>, w: nat)
    requires IsPath(g, p)
    ensures Cost(g, WidestPath, p) >= w <==> w <= MAX_BANDWIDTH && Carries(g, p, w)
    decreases |p|
  {
    if |p| > 1 {
      var q := p[..|p| - 1];
      assert g.Adjacent(p[|p| - 2], p[|p| - 1]);
      forall i | 0 <= i < |q| - 1
        ensures g.Adjacent(q[i], q[i + 1])
      {
        assert g.Adjacent(p[i], p[i + 1]);
      }
      WidthIsMinimum(g, q, w);
      if Carries(g, p, w) {
        forall i | 0 <= i < |q| - 1
          ensures LinkCarries(g, q[i], q[i + 1], w)
        {
          assert LinkCarries(g, p[i], p[i + 1], w);
        }
        assert LinkCarries(g, p[|p| - 2], p[|p| - 1], w);
      }
      if w <= MAX_BANDWIDTH && Carries(g, q, w) && g.link(p[|p| - 2], p[|p| - 1]).value >= w {
        forall i | 0 <= i < |p| - 1
          ensures LinkCarries(g, p[i], p[i + 1], w)
        {
          if i < |q| - 1 {
            assert LinkCarries(g, q[i], q[i + 1], w);
          }
        }
      }
    }
  }

  function Reverse(p: seq<nat>): (r: seq<nat>)
    ensures |r| == |p| && forall i | 0 <= i < |p| :: r[i] == p[|p| - 1 - i]
  {
    seq(|p|, i requires 0 <= i < |p| => p[|p| - 1 - i])
  }

  lemma ReversePath(g: Graph, p: seq<nat>, w: nat)
    requires g.Valid() && IsPath(g, p) && Carries(g, p, w)
    ensures IsPath(g, Reverse(p)) && Carries(g, Reverse(p), w)
  {
    var r := Reverse(p);
    forall i | 0 <= i < |r| - 1
      ensures g.Adjacent(r[i], r[i + 1]) && LinkCarries(g, r[i], r[i + 1], w)
    {
      var j := |p| - 2 - i;
      assert g.Adjacent(p[j], p[j + 1]) && LinkCarries(g, p[j], p[j + 1], w);
    }
  }

  lemma JoinPaths(g: Graph, p: seq<nat>, q: seq<nat>, w: nat)
    requires IsPath(g, p) && IsPath(g, q) && p[|p| - 1] == q[0] && Carries(g, p, w) && Carries(g, q, w)
    ensures IsPath(g, p + q[1..]) && Carries(g, p + q[1..], w)
    ensures (p + q[1..])[0] == p[0] && (p + q[1..])[|p| + |q| - 2] == q[|q| - 1]
  {
    var r := p + q[1..];
    forall i | 0 <= i < |r| - 1
      ensures g.Adjacent(r[i], r[i + 1]) && LinkCarries(g, r[i], r[i + 1], w)
    {
      if i < |p| - 1 {
        assert g.Adjacent(p[i], p[i + 1]) && LinkCarries(g, p[i], p[i + 1], w);
      } else {
        var j := i - (|p| - 1);
        assert g.Adjacent(q[j], q[j + 1]) && LinkCarries(g, q[j], q[j + 1], w);
      }
    }
  }

  /** The width that widest_path reports between two vertices. */
  ghost function Width(g: Graph, a: nat, b: nat): Option<nat>
    requires a < g.n && b < g.n
  {
    Search(g, WidestPath, a).labels[b]
  }

  /** Some path carries w. */
  ghost predicate Reaches(g: Graph, a: nat, b: nat, w: nat) {
    w <= MAX_BANDWIDTH && exists p :: PathFromTo(g, p, a, b) && Carries(g, p, w)
  }

  /** A width of at least w means a path all of whose links carry w. */
  lemma WidthReaches(g: Graph, a: nat, b: nat, w: nat)
    requires g.Valid() && a < g.n && b < g.n
    ensures (Width(g, a, b).Some? && Width(g, a, b).value >= w) <==> Reaches(g, a, b, w)
  {
    SearchIsBest(g, WidestPath, a, b);
    var best := Width(g, a, b);
    if best.Some? && best.value >= w {
      var p :| PathFromTo(g, p, a, b) && Cost(g, WidestPath, p) == best.value;
      WidthIsMinimum(g, p, w);
    }
    if Reaches(g, a, b, w) {
      var p :| PathFromTo(g, p, a, b) && Carries(g, p, w);
      WidthIsMinimum(g, p, w);
    }
  }

  lemma ReachesBack(g: Graph, a: nat, b: nat, w: nat)
    requires g.Valid() && Reaches(g, a, b, w)
    ensures Reaches(g, b, a, w)
  {
    var p :| PathFromTo(g, p, a, b) && Carries(g, p, w);
    ReversePath(g, p, w);
    assert PathFromTo(g, Reverse(p), b, a);
  }

  lemma ReachesThrough(g: Graph, a: nat, b: nat, c: nat, w: nat)
    requires Reaches(g, a, c, w) && Reaches(g, c, b, w)
    ensures Reaches(g, a, b, w)
  {
    var p :| PathFromTo(g, p, a, c) && Carries(g, p, w);
    var q :| PathFromTo(g, q, c, b) && Carries(g, q, w);
    JoinPaths(g, p, q, w);
    assert PathFromTo(g, p + q[1..], a, b);
  }

  /** Widths are symmetric. */
  lemma WidthSymmetric(g: Graph, a: nat, b: nat)
    requires g.Valid() && a < g.n && b < g.n
    ensures Width(g, a, b) == Width(g, b, a)
  {
    WidthNotLess(g, a, b);
    WidthNotLess(g, b, a);
  }

  lemma WidthNotLess(g: Graph, a: nat, b: nat)
    requires g.Valid() && a < g.n && b < g.n
    ensures Width(g, a, b).Some? ==> Width(g, b, a).Some? && Width(g, b, a).value >= Width(g, a, b).value
  {
    if Width(g, a, b).Some? {
      var w := Width(g, a, b).value;
      WidthReaches(g, a, b, w);
      WidthReaches(g, b, a, w);
      ReachesBack(g, a, b, w);
    }
  }

  /** Widths satisfy the max-min triangle inequality: the cluster graph relies on it. */
  lemma WidthTriangle(g: Graph, a: nat, b: nat, c: nat)
    requires g.Valid() && a < g.n && b < g.n && c < g.n
    ensures Width(g, a, c).Some? && Width(g, c, b).Some? ==>
      Width(g, a, b).Some? && Width(g, a, b).value >= Min(Width(g, a, c).value, Width(g, c, b).value)
  {
    if Width(g, a, c).Some? && Width(g, c, b).Some? {
      var w := Min(Width(g, a, c).value, Width(g, c, b).value);
      WidthReaches(g, a, c, w);
      WidthReaches(g, c, b, w);
      WidthReaches(g, a, b, w);
      ReachesThrough(g, a, b, c, w);
    }
  }

  // ----- Shortest paths depend on the links, not on their bandwidths -----

  ghost predicate SameLinks(g: Graph, h: Graph) {
    g.n == h.n && forall i, j | 0 <= i < g.n && 0 <= j < g.n :: g.Adjacent(i, j) == h.Adjacent(i, j)
  }

  lemma {:induction false} SameNeighbours(g: Graph, h: Graph, u: nat, k: nat)
    requires SameLinks(g, h) && u < g.n && k <= g.n
    ensures Neighbours(g, u, k) == Neighbours(h, u, k)
  {
    if k > 0 {
      SameNeighbours(g, h, u, k - 1);
      assert g.Adjacent(u, k - 1) == h.Adjacent(u, k - 1);
    }
  }

  lemma SameRelax(g: Graph, h: Graph, st: State, u: nat, v: nat)
    requires SameLinks(g, h)
    ensures Relax(g, ShortestPath, st, u, v) == Relax(h, ShortestPath, st, u, v)
  {
  }

  lemma {:induction false} SameRelaxAll(g: Graph, h: Graph, st: State, u: nat, ns: seq<nat>, k: nat)
    requires SameLinks(g, h) && k <= |ns|
    ensures RelaxAll(g, ShortestPath, st, u, ns, k) == RelaxAll(h, ShortestPath, st, u, ns, k)
  {
    if k > 0 {
      SameRelaxAll(g, h, st, u, ns, k - 1);
      SameRelax(g, h, RelaxAll(g, ShortestPath, st, u, ns, k - 1), u, ns[k - 1]);
    }
  }

  lemma SameStep(g: Graph, h: Graph, st: State)
    requires SameLinks(g, h) && Shape(g, ShortestPath, st) && st.heap != multiset{}
    ensures Shape(h, ShortestPath, st)
    ensures Step(g, ShortestPath, st) == Step(h, ShortestPath, st)
  {
    var x := Least(st.heap);
    var ns := Neighbours(g, x.node, g.n);
    NeighboursAre(g, x.node, g.n);
    SameNeighbours(g, h, x.node, g.n);
    SameRelaxAll(g, h, Popped(st), x.node, ns, |ns|);
  }

  lemma {:induction false} SameRun(g: Graph, h: Graph, st: State)
    requires SameLinks(g, h) && Shape(g, ShortestPath, st)
    ensures Shape(h, ShortestPath, st) && Run(g, ShortestPath, st) == Run(h, ShortestPath, st)
    decreases Unlabelled(st.labels), RankSum(ShortestPath, st.labels), |st.heap|
  {
    if st.heap != multiset{} {
      SameStep(g, h, st);
      StepProgresses(g, ShortestPath, st);
      SameRun(g, h, Step(g, ShortestPath, st));
    }
  }

  /** Changing bandwidths changes no shortest path. */
  lemma ShortestPathsFollowLinks(g: Graph, h: Graph, from: nat)
    requires SameLinks(g, h) && from < g.n
    ensures Search(g, ShortestPath, from) == Search(h, ShortestPath, from)
  {
    assert Start(g, ShortestPath, from) == Start(h, ShortestPath, from);
    SameRun(g, h, Start(g, ShortestPath, from));
  }
}
