/** Joining a cluster: the test loop of cmanager/src/controller.rs over the cluster graph. */
module CompleteGraphs {
  import opened Prelude
  import opened SymMatrices
  import opened SpeedClosure
  import opened CGraphs

  datatype Failure = PerfTestFailed

  /** The outcome of the n-th test launched, against a node: a speed, or an error. */
  type Perf<!I> = (I, nat) -> Option<nat>

  /** Tests that succeed measure the real bandwidth from me. */
  ghost predicate Honest<I(!new)>(perf: Perf<I>, me: I, bw: (I, I) -> nat) {
    forall x, i :: perf(x, i).Some? ==> perf(x, i).value == bw(me, x)
  }

  ghost predicate Exact<I>(s: Sym<TestData>, a: Node<I>, b: Node<I>, bw: (I, I) -> nat)
    requires s.Valid() && a.index < s.n && b.index < s.n
  {
    s.At(a.index, b.index).speed == bw(a.info, b.info)
  }

  /** The nodes with whom I have no tested speed yet. */
  ghost function Untested<I>(s: Sym<TestData>, nodes: set<Node<I>>, me: Node<I>): set<Node<I>>
    requires s.Valid() && me.index < s.n && forall a | a in nodes :: a.index < s.n
  {
    set a | a in nodes && a != me && !s.At(me.index, a.index).tested
  }

  /** Exact pairs stay exact: speeds do not shrink and never exceed the real bandwidth. */
  ghost predicate StaysExact<I(!new)>(before: Sym<TestData>, after: Sym<TestData>, nodes: set<Node<I>>, bw: (I, I) -> nat) {
    && before.Valid() && after.Valid() && before.n == after.n && (forall a | a in nodes :: a.index < before.n)
    && forall a, b | a in nodes && b in nodes && a != b && Exact(before, a, b, bw) :: Exact(after, a, b, bw)
  }

  lemma GrowingStaysExact<I(!new)>(before: Sym<TestData>, after: Sym<TestData>, nodes: set<Node<I>>, bw: (I, I) -> nat)
    requires before.Valid() && after.Valid() && before.n == after.n && Numbered(nodes, before.n)
    requires forall i, j | 0 <= i < before.n && 0 <= j < before.n :: before.At(i, j).speed <= after.At(i, j).speed
    requires TableFaithful(after, TableOf(bw, nodes, after.n))
    ensures StaysExact(before, after, nodes, bw)
  {
    var d := TableOf(bw, nodes, after.n);
    forall a, b | a in nodes && b in nodes && a != b && Exact(before, a, b, bw)
      ensures Exact(after, a, b, bw)
    {
      NodeOfUnique(nodes, after.n, a);
      NodeOfUnique(nodes, after.n, b);
      assert CellFaithful(after.At(a.index, b.index), d(a.index, b.index));
      assert before.At(a.index, b.index).speed <= after.At(a.index, b.index).speed;
    }
  }

  /** Every speed from me is exact, or it is at least sufficient. */
  ghost predicate RowComplete<I(!new)>(s: Sym<TestData>, nodes: set<Node<I>>, me: Node<I>, sufficient: nat, bw: (I, I) -> nat)
    requires s.Valid() && me.index < s.n && forall a | a in nodes :: a.index < s.n
  {
    forall a | a in nodes && a != me ::
      s.At(me.index, a.index).speed == bw(me.info, a.info) || s.At(me.index, a.index).speed >= sufficient
  }

  /** Every entry of my row is tested, sufficient, or at the speed of the slower link. */
  ghost predicate RowSettled<I(!new)>(s: Sym<TestData>, nodes: set<Node<I>>, me: Node<I>, sufficient: nat)
    requires s.Valid() && me.index < s.n && forall a | a in nodes :: a.index < s.n
  {
    forall a | a in nodes && a.index != me.index ::
      var c := s.At(me.index, a.index); c.tested || c.speed >= sufficient || c.speed >= me.speed || c.speed >= a.speed
  }

  /** Nothing missing means the row is complete: a speed that reaches the slower link is exact too. */
  lemma NothingMissing<I(!new)>(s: Sym<TestData>, nodes: set<Node<I>>, me: Node<I>, sufficient: nat, bw: (I, I) -> nat, link: I -> nat)
    requires s.Valid() && Numbered(nodes, s.n) && me in nodes && Metric(bw, link)
    requires forall a | a in nodes :: a.speed == link(a.info)
    requires TableFaithful(s, TableOf(bw, nodes, s.n))
    requires RowSettled(s, nodes, me, sufficient)
    ensures RowComplete(s, nodes, me, sufficient, bw)
  {
    var d := TableOf(bw, nodes, s.n);
    forall a | a in nodes && a != me
      ensures s.At(me.index, a.index).speed == bw(me.info, a.info) || s.At(me.index, a.index).speed >= sufficient
    {
      NodeOfUnique(nodes, s.n, me);
      NodeOfUnique(nodes, s.n, a);
      assert CellFaithful(s.At(me.index, a.index), d(me.index, a.index));
      assert bw(me.info, a.info) == bw(a.info, me.info);
    }
  }

  /** All attempts of one measurement against a node fail. */
  ghost predicate Unreachable<I>(perf: Perf<I>, other: I, attempt: nat, retries: nat) {
    forall i | attempt <= i <= attempt + retries :: perf(other, i) == None
  }

  /** Some measurement against a node fails. */
  ghost predicate SomeUnreachable<I(!new)>(perf: Perf<I>, nodes: set<Node<I>>, retries: nat) {
    exists a, attempt: nat :: a in nodes && Unreachable(perf, a.info, attempt, retries)
  }

  /** Launches tests against a node until one succeeds, with the given number of retries. */
  method Measure<I(!new)>(perf: Perf<I>, other: I, retries: nat, attempt: nat) returns (speed: Option<nat>, next: nat)
    ensures attempt < next <= attempt + retries + 1
    ensures speed.Some? ==> perf(other, next - 1) == speed && forall i | attempt <= i < next - 1 :: perf(other, i) == None
    ensures speed.None? ==> next == attempt + retries + 1 && Unreachable(perf, other, attempt, retries)
  {
    next := attempt;
    speed := None;
    for i := 0 to retries + 1
      invariant next == attempt + i && speed == None
      invariant forall j | attempt <= j < next :: perf(other, j) == None
    {
      speed := perf(other, next);
      if speed.Some? {
        return speed, next + 1;
      }
      next := next + 1;
    }
  }

  /** The search for the next test keeps the graph faithful; when it finds none my row is complete. */
  method FindMissing<I(==,!new)>(cgraph: CGraph<I>, me: Node<I>, sufficient: nat, ghost bw: (I, I) -> nat, ghost link: I -> nat)
    returns (r: Option<Node<I>>)
    requires cgraph.Faithful(bw, link) && Metric(bw, link) && me in cgraph.nodes
    modifies cgraph.graph
    ensures cgraph.Faithful(bw, link) && cgraph.graph.n == old(cgraph.graph.n)
    ensures StaysExact(old(cgraph.graph.View()), cgraph.graph.View(), cgraph.nodes, bw)
    ensures Untested(cgraph.graph.View(), cgraph.nodes, me) <= Untested(old(cgraph.graph.View()), cgraph.nodes, me)
    ensures r.Some? ==> r.value in Untested(cgraph.graph.View(), cgraph.nodes, me)
    ensures r.None? ==> RowComplete(cgraph.graph.View(), cgraph.nodes, me, sufficient, bw)
    ensures old(RowSettled(cgraph.graph.View(), cgraph.nodes, me, sufficient)) ==> r.None?
  {
    ghost var before := cgraph.graph.View();
    TableClosed(bw, link, cgraph.nodes, cgraph.graph.n);
    r := cgraph.FindMissingFromMe(me, sufficient);
    RowExtendedStaysExact(before, cgraph.graph.View(), me.index, cgraph.nodes, bw);
    if r.Some? && RowSettled(before, cgraph.nodes, me, sufficient) {
      SettledStays(before, cgraph.graph.View(), me.index, r.value.index);
    }
    if r.None? {
      NothingMissing(cgraph.graph.View(), cgraph.nodes, me, sufficient, bw, link);
    }
  }

  lemma SettledStays(before: Sym<TestData>, after: Sym<TestData>, f: nat, t: nat)
    requires RowExtended(before, after, f) && Closed(SpeedsOf(before), before.n) && f < before.n && t < before.n
    ensures after.At(f, t).speed == before.At(f, t).speed && (before.At(f, t).tested ==> after.At(f, t).tested)
  {
    assert SpeedsOf(after)(f, t) == SpeedsOf(before)(f, t);
  }

  lemma RowExtendedStaysExact<I(!new)>(before: Sym<TestData>, after: Sym<TestData>, f: nat, nodes: set<Node<I>>, bw: (I, I) -> nat)
    requires RowExtended(before, after, f) && Closed(SpeedsOf(before), before.n) && Numbered(nodes, before.n)
    ensures StaysExact(before, after, nodes, bw)
  {
    forall a, b | a in nodes && b in nodes && a != b && Exact(before, a, b, bw)
      ensures Exact(after, a, b, bw)
    {
      assert SpeedsOf(after)(a.index, b.index) == SpeedsOf(before)(a.index, b.index);
    }
  }

  /** Records a measured speed: one node less is untested. */
  method RecordMeasured<I(==,!new)>(cgraph: CGraph<I>, me: Node<I>, other: Node<I>, speed: nat, ghost bw: (I, I) -> nat, ghost link: I -> nat)
    requires cgraph.Faithful(bw, link) && Metric(bw, link) && me in cgraph.nodes && other in cgraph.nodes && other != me
    requires speed == bw(me.info, other.info)
    modifies cgraph.graph
    ensures cgraph.Faithful(bw, link) && cgraph.graph.n == old(cgraph.graph.n)
    ensures StaysExact(old(cgraph.graph.View()), cgraph.graph.View(), cgraph.nodes, bw)
    ensures Untested(cgraph.graph.View(), cgraph.nodes, me) == Untested(old(cgraph.graph.View()), cgraph.nodes, me) - {other}
  {
    ghost var before := cgraph.graph.View();
    var r := cgraph.AddLinkDirectTest(me, other, speed, bw, link);
    MeasuredEffect(cgraph.Links(), before, cgraph.graph.View(), cgraph.nodes, me, other, speed, bw);
  }

  lemma MeasuredEffect<I(!new)>(links: seq<nat>, before: Sym<TestData>, after: Sym<TestData>, nodes: set<Node<I>>,
    me: Node<I>, other: Node<I>, speed: nat, bw: (I, I) -> nat)
    requires before.Valid() && Numbered(nodes, before.n) && me in nodes && other in nodes && other != me
    requires FlagsFollow(links, before.Put(me.index, other.index, TestData(false, true, speed)), after)
    requires TableFaithful(before, TableOf(bw, nodes, before.n)) && TableFaithful(after, TableOf(bw, nodes, before.n))
    requires speed == bw(me.info, other.info)
    ensures StaysExact(before, after, nodes, bw)
    ensures Untested(after, nodes, me) == Untested(before, nodes, me) - {other}
  {
    var raised := before.Put(me.index, other.index, TestData(false, true, speed));
    before.PutAt(me.index, other.index, TestData(false, true, speed));
    var d := TableOf(bw, nodes, before.n);
    NodeOfUnique(nodes, before.n, me);
    NodeOfUnique(nodes, before.n, other);
    assert CellFaithful(before.At(me.index, other.index), d(me.index, other.index));
    forall i, j | 0 <= i < before.n && 0 <= j < before.n
      ensures before.At(i, j).speed <= after.At(i, j).speed && after.At(i, j).tested == raised.At(i, j).tested
    {
      assert CellFollows(Min(links[i], links[j]), raised.At(i, j), after.At(i, j));
      AtSymmetric(before, me.index, other.index);
    }
    GrowingStaysExact(before, after, nodes, bw);
    forall a | a in nodes && a != me && a != other
      ensures after.At(me.index, a.index).tested == before.At(me.index, a.index).tested
    {
      assert a.index != other.index;
    }
  }

  lemma AddedNodeStaysExact<I(!new)>(before: Sym<TestData>, after: Sym<TestData>, last: Sym<TestData>, nodes: set<Node<I>>, all: set<Node<I>>, bw: (I, I) -> nat)
    requires Keeps(before, after) && Numbered(nodes, before.n) && nodes <= all && StaysExact(after, last, all, bw)
    ensures forall a, b | a in nodes && b in nodes && a != b && Exact(before, a, b, bw) :: Exact(last, a, b, bw)
  {
    forall a, b | a in nodes && b in nodes && a != b && Exact(before, a, b, bw)
      ensures Exact(last, a, b, bw)
    {
      assert Exact(after, a, b, bw);
    }
  }

  /** Adds me to the graph and tests until nothing is missing. */
  method CompleteGraph<I(==,!new)>(cgraph: CGraph<I>, mySpeed: nat, myInfo: I, sufficient: nat, retries: nat, perf: Perf<I>,
    ghost bw: (I, I) -> nat, ghost link: I -> nat)
    returns (r: Option<Failure>, me: Node<I>, ghost tests: nat, ghost launched: nat)
    requires cgraph.Faithful(bw, link) && Metric(bw, link) && mySpeed == link(myInfo) && Honest(perf, myInfo, bw)
    modifies cgraph, cgraph.graph
    ensures cgraph.Faithful(bw, link)
    ensures cgraph.graph == old(cgraph.graph) || fresh(cgraph.graph)
    ensures me in cgraph.nodes && me.info == myInfo && cgraph.nodes == old(cgraph.nodes) + {me}
    ensures tests + 1 <= |cgraph.nodes|
    ensures r.Some? ==> SomeUnreachable(perf, cgraph.nodes, retries)
    ensures forall a | a in old(cgraph.nodes) && a.info == myInfo && old(RowSettled(cgraph.graph.View(), cgraph.nodes, a, sufficient)) ::
      r.None? && launched == 0
    ensures r.None? ==> RowComplete(cgraph.graph.View(), cgraph.nodes, me, sufficient, bw)
    ensures forall a, b | a in old(cgraph.nodes) && b in old(cgraph.nodes) && a != b && old(Exact(cgraph.graph.View(), a, b, bw)) ::
      Exact(cgraph.graph.View(), a, b, bw)
  {
    me := cgraph.AddNode(mySpeed, myInfo, bw, link);
    ghost var start := cgraph.graph.View();
    GrowingStaysExact(start, start, cgraph.nodes, bw);
    r, tests, launched := TestLoop(cgraph, me, sufficient, retries, perf, bw, link);
    AddedNodeStaysExact(old(cgraph.graph.View()), start, cgraph.graph.View(), old(cgraph.nodes), cgraph.nodes, bw);
  }

  datatype TestStatus = Complete | Failed | Tested

  /** One pass of the loop. A test leaves one node less untested. */
  method TestNext<I(==,!new)>(cgraph: CGraph<I>, me: Node<I>, sufficient: nat, retries: nat, perf: Perf<I>, attempt: nat,
    ghost bw: (I, I) -> nat, ghost link: I -> nat)
    returns (status: TestStatus, next: nat)
    requires cgraph.Faithful(bw, link) && Metric(bw, link) && me in cgraph.nodes && Honest(perf, me.info, bw)
    modifies cgraph.graph
    ensures cgraph.Faithful(bw, link) && cgraph.graph.n == old(cgraph.graph.n)
    ensures StaysExact(old(cgraph.graph.View()), cgraph.graph.View(), cgraph.nodes, bw)
    ensures status.Complete? ==> RowComplete(cgraph.graph.View(), cgraph.nodes, me, sufficient, bw)
    ensures status.Failed? ==> SomeUnreachable(perf, cgraph.nodes, retries)
    ensures old(RowSettled(cgraph.graph.View(), cgraph.nodes, me, sufficient)) ==> status.Complete? && next == attempt
    ensures status.Tested? ==>
      |Untested(cgraph.graph.View(), cgraph.nodes, me)| < |Untested(old(cgraph.graph.View()), cgraph.nodes, me)|
  {
    ghost var before, untested := cgraph.graph.View(), Untested(cgraph.graph.View(), cgraph.nodes, me);
    var other := FindMissing(cgraph, me, sufficient, bw, link);
    ghost var middle, left := cgraph.graph.View(), Untested(cgraph.graph.View(), cgraph.nodes, me);
    SubsetCount(left, untested);
    if other.None? {
      return Complete, attempt;
    }
    var tested;
    tested, next := TestOther(cgraph, me, other.value, retries, perf, attempt, bw, link);
    StaysExactTransitive(before, middle, cgraph.graph.View(), cgraph.nodes, bw);
    status := if tested then Tested else Failed;
  }

  /** The test against one node. */
  method TestOther<I(==,!new)>(cgraph: CGraph<I>, me: Node<I>, other: Node<I>, retries: nat, perf: Perf<I>, attempt: nat,
    ghost bw: (I, I) -> nat, ghost link: I -> nat)
    returns (tested: bool, next: nat)
    requires cgraph.Faithful(bw, link) && Metric(bw, link) && me in cgraph.nodes && Honest(perf, me.info, bw)
    requires other in Untested(cgraph.graph.View(), cgraph.nodes, me)
    modifies cgraph.graph
    ensures cgraph.Faithful(bw, link) && cgraph.graph.n == old(cgraph.graph.n)
    ensures StaysExact(old(cgraph.graph.View()), cgraph.graph.View(), cgraph.nodes, bw)
    ensures !tested ==> Unreachable(perf, other.info, attempt, retries)
    ensures tested ==>
      |Untested(cgraph.graph.View(), cgraph.nodes, me)| < |Untested(old(cgraph.graph.View()), cgraph.nodes, me)|
  {
    var speed;
    speed, next := Measure(perf, other.info, retries, attempt);
    if speed.None? {
      GrowingStaysExact(cgraph.graph.View(), cgraph.graph.View(), cgraph.nodes, bw);
      return false, next;
    }
    RecordMeasured(cgraph, me, other, speed.value, bw, link);
    return true, next;
  }

  lemma StaysExactTransitive<I(!new)>(a: Sym<TestData>, b: Sym<TestData>, c: Sym<TestData>, nodes: set<Node<I>>, bw: (I, I) -> nat)
    requires StaysExact(a, b, nodes, bw) && StaysExact(b, c, nodes, bw)
    ensures StaysExact(a, c, nodes, bw)
  {
    forall x, y | x in nodes && y in nodes && x != y && Exact(a, x, y, bw)
      ensures Exact(c, x, y, bw)
    {
      assert Exact(b, x, y, bw);
    }
  }

  lemma UntestedCount<I(!new)>(s: Sym<TestData>, nodes: set<Node<I>>, me: Node<I>)
    requires s.Valid() && me in nodes && forall a | a in nodes :: a.index < s.n
    ensures |Untested(s, nodes, me)| + 1 <= |nodes|
  {
    SubsetCount(Untested(s, nodes, me), nodes - {me});
  }

  /** The loop: there are fewer tests than nodes. */
  method TestLoop<I(==,!new)>(cgraph: CGraph<I>, me: Node<I>, sufficient: nat, retries: nat, perf: Perf<I>,
    ghost bw: (I, I) -> nat, ghost link: I -> nat)
    returns (r: Option<Failure>, ghost tests: nat, ghost launched: nat)
    requires cgraph.Faithful(bw, link) && Metric(bw, link) && me in cgraph.nodes && Honest(perf, me.info, bw)
    modifies cgraph.graph
    ensures cgraph.Faithful(bw, link) && cgraph.graph.n == old(cgraph.graph.n)
    ensures tests + 1 <= |cgraph.nodes|
    ensures r.Some? ==> SomeUnreachable(perf, cgraph.nodes, retries)
    ensures old(RowSettled(cgraph.graph.View(), cgraph.nodes, me, sufficient)) ==> r.None? && launched == 0
    ensures r.None? ==> RowComplete(cgraph.graph.View(), cgraph.nodes, me, sufficient, bw)
    ensures StaysExact(old(cgraph.graph.View()), cgraph.graph.View(), cgraph.nodes, bw)
  {
    tests := 0;
    var attempt: nat := 0;
    var status := Tested;
    ghost var start := cgraph.graph.View();
    ghost var settled := RowSettled(start, cgraph.nodes, me, sufficient);
    GrowingStaysExact(start, start, cgraph.nodes, bw);
    UntestedCount(start, cgraph.nodes, me);
    while status.Tested?
      invariant cgraph.Faithful(bw, link) && cgraph.graph.n == start.n
      invariant StaysExact(start, cgraph.graph.View(), cgraph.nodes, bw)
      invariant status.Complete? ==> RowComplete(cgraph.graph.View(), cgraph.nodes, me, sufficient, bw)
      invariant tests + 1 <= |cgraph.nodes| && (status.Failed? ==> SomeUnreachable(perf, cgraph.nodes, retries))
      invariant settled ==> attempt == 0 && !status.Failed? && (status.Tested? ==> cgraph.graph.View() == start)
      invariant status.Tested? ==> tests + |Untested(cgraph.graph.View(), cgraph.nodes, me)| + 1 <= |cgraph.nodes|
      decreases status.Tested?, |Untested(cgraph.graph.View(), cgraph.nodes, me)|
    {
      ghost var middle := cgraph.graph.View();
      status, attempt := TestNext(cgraph, me, sufficient, retries, perf, attempt, bw, link);
      StaysExactTransitive(start, middle, cgraph.graph.View(), cgraph.nodes, bw);
      if status.Tested? {
        tests := tests + 1;
      }
    }
    r, launched := if status.Complete? then None else Some(PerfTestFailed), attempt;
  }

  lemma {:induction false} SubsetCount<T>(a: set<T>, b: set<T>)
    requires a <= b
    ensures |a| <= |b|
  {
    if x :| x in a {
      SubsetCount(a - {x}, b - {x});
    }
  }

  ghost predicate AllExact<I(!new)>(s: Sym<TestData>, nodes: set<Node<I>>, bw: (I, I) -> nat) {
    && s.Valid() && (forall a | a in nodes :: a.index < s.n)
    && forall a, b | a in nodes && b in nodes && a != b :: Exact(s, a, b, bw)
  }

  /** One node joins; with a threshold that no bandwidth reaches, exactness of all pairs is kept. */
  method JoinOne<I(==,!new)>(cgraph: CGraph<I>, info: I, speed: I -> nat, sufficient: nat, retries: nat, perf: Perf<I>,
    ghost bw: (I, I) -> nat)
    returns (joined: bool)
    requires cgraph.Faithful(bw, speed) && Metric(bw, speed) && Honest(perf, info, bw)
    requires forall x, y | x != y :: bw(x, y) < sufficient
    requires AllExact(cgraph.graph.View(), cgraph.nodes, bw)
    modifies cgraph, cgraph.graph
    ensures cgraph.Faithful(bw, speed) && (cgraph.graph == old(cgraph.graph) || fresh(cgraph.graph))
    ensures joined ==> AllExact(cgraph.graph.View(), cgraph.nodes, bw) && HasInfo(cgraph.nodes, info)
    ensures !joined ==> SomeUnreachable(perf, cgraph.nodes, retries)
    ensures old(cgraph.nodes) <= cgraph.nodes
  {
    ghost var before := cgraph.nodes;
    var r, me, tests, launched := CompleteGraph(cgraph, speed(info), info, sufficient, retries, perf, bw, speed);
    if r.None? {
      RowMakesAllExact(cgraph.graph.View(), before, cgraph.nodes, me, sufficient, bw);
    }
    return r.None?;
  }

  /** Nodes that join one by one leave every pair exact. */
  method JoinAll<I(==,!new)>(cgraph: CGraph<I>, infos: seq<I>, speed: I -> nat, sufficient: nat, retries: nat, perf: I -> Perf<I>,
    ghost bw: (I, I) -> nat)
    returns (joined: bool)
    requires cgraph.Faithful(bw, speed) && Metric(bw, speed) && forall x :: Honest(perf(x), x, bw)
    requires forall x, y | x != y :: bw(x, y) < sufficient
    requires AllExact(cgraph.graph.View(), cgraph.nodes, bw)
    modifies cgraph, cgraph.graph
    ensures joined ==> cgraph.Faithful(bw, speed) && AllExact(cgraph.graph.View(), cgraph.nodes, bw)
    ensures joined ==> forall j | 0 <= j < |infos| :: HasInfo(cgraph.nodes, infos[j])
    ensures !joined ==> exists j | 0 <= j < |infos| :: SomeUnreachable(perf(infos[j]), cgraph.nodes, retries)
  {
    for i := 0 to |infos|
      invariant cgraph.Faithful(bw, speed) && AllExact(cgraph.graph.View(), cgraph.nodes, bw)
      invariant cgraph.graph == old(cgraph.graph) || fresh(cgraph.graph)
      invariant forall j | 0 <= j < i :: HasInfo(cgraph.nodes, infos[j])
    {
      ghost var before := cgraph.nodes;
      var one := JoinOne(cgraph, infos[i], speed, sufficient, retries, perf(infos[i]), bw);
      if !one {
        return false;
      }
      forall j | 0 <= j < i
        ensures HasInfo(cgraph.nodes, infos[j])
      {
        InfoStays(before, cgraph.nodes, infos[j]);
      }
    }
    return true;
  }

  lemma InfoStays<I>(before: set<Node<I>>, after: set<Node<I>>, info: I)
    requires before <= after && HasInfo(before, info)
    ensures HasInfo(after, info)
  {
    var a :| a in before && a.info == info;
    assert a in after;
  }

  lemma RowMakesAllExact<I(!new)>(s: Sym<TestData>, before: set<Node<I>>, nodes: set<Node<I>>, me: Node<I>, sufficient: nat, bw: (I, I) -> nat)
    requires s.Valid() && Numbered(nodes, s.n) && nodes == before + {me}
    requires TableFaithful(s, TableOf(bw, nodes, s.n)) && RowComplete(s, nodes, me, sufficient, bw)
    requires (forall x, y | x != y :: bw(x, y) < sufficient) && forall x, y :: bw(x, y) == bw(y, x)
    requires forall a, b | a in before && b in before && a != b :: Exact(s, a, b, bw)
    ensures AllExact(s, nodes, bw)
  {
    forall a, b | a in nodes && b in nodes && a != b
      ensures Exact(s, a, b, bw)
    {
      if a == me {
        RowEntryExact(s, nodes, me, b, sufficient, bw);
      } else if b == me {
        RowEntryExact(s, nodes, me, a, sufficient, bw);
      }
    }
  }

  lemma RowEntryExact<I(!new)>(s: Sym<TestData>, nodes: set<Node<I>>, me: Node<I>, a: Node<I>, sufficient: nat, bw: (I, I) -> nat)
    requires s.Valid() && Numbered(nodes, s.n) && me in nodes && a in nodes && a != me
    requires TableFaithful(s, TableOf(bw, nodes, s.n)) && RowComplete(s, nodes, me, sufficient, bw)
    requires (forall x, y | x != y :: bw(x, y) < sufficient) && forall x, y :: bw(x, y) == bw(y, x)
    ensures Exact(s, me, a, bw) && Exact(s, a, me, bw)
  {
    var d := TableOf(bw, nodes, s.n);
    NodeOfUnique(nodes, s.n, me);
    NodeOfUnique(nodes, s.n, a);
    assert CellFaithful(s.At(me.index, a.index), d(me.index, a.index));
    AtSymmetric(s, me.index, a.index);
    assert bw(me.info, a.info) == bw(a.info, me.info);
  }
}
