/** The cluster graph of cgraph/src/lib.rs: measured and extrapolated speeds between the nodes. */
module CGraphs {
  import opened Prelude
  import opened SymMatrices
  import opened SpeedClosure

  /** One cell: is the speed limited by the path, was it tested directly, and the speed. */
  datatype TestData = TestData(limited: bool, tested: bool, speed: nat)

  datatype Node<I> = Node(index: nat, speed: nat, info: I)

  datatype Error = NotFound | InvalidData | NoResource

  datatype Result<+T> = Ok(value: T) | Err(error: Error)

  ghost function SpeedsOf(s: Sym<TestData>): Speeds {
    (i: nat, j: nat) => if s.Valid() && i < s.n && j < s.n then s.At(i, j).speed else 0
  }

  /** The real bandwidths that tests measure: they behave like the widths of widest paths, and no path is
      faster than the links of its two ends. */
  ghost predicate Metric<I(!new)>(bw: (I, I) -> nat, link: I -> nat) {
    && (forall x, y :: bw(x, y) == bw(y, x))
    && (forall x, y, z | x != y && y != z && x != z :: Ultra(bw, x, y, z))
    && (forall x, y | x != y :: bw(x, y) <= link(x))
    && (forall x :: link(x) <= MAX_SPEED)
  }

  ghost predicate Ultra<I>(bw: (I, I) -> nat, x: I, y: I, z: I) { bw(x, y) >= Min(bw(x, z), bw(z, y)) }

  ghost predicate HasInfo<I>(nodes: set<Node<I>>, info: I) { exists a :: a in nodes && a.info == info }

  ghost predicate HasIndex<I>(nodes: set<Node<I>>, i: nat) { exists a :: a in nodes && a.index == i }

  /** The nodes have distinct infos and number the rows 0..n-1. */
  ghost predicate Numbered<I>(nodes: set<Node<I>>, n: nat) {
    && (forall a | a in nodes :: a.index < n)
    && (forall a, b | a in nodes && b in nodes && a.index == b.index :: a == b)
    && (forall a, b | a in nodes && b in nodes && a.info == b.info :: a == b)
    && (forall i | 0 <= i < n :: HasIndex(nodes, i))
  }

  ghost function NodeOf<I>(nodes: set<Node<I>>, n: nat, i: nat): (a: Node<I>)
    requires Numbered(nodes, n) && i < n
    ensures a in nodes && a.index == i
  {
    assert HasIndex(nodes, i);
    var a :| a in nodes && a.index == i;
    a
  }

  /** The link speed of the node at each index. */
  ghost function LinkSpeeds<I>(nodes: set<Node<I>>, n: nat): (l: seq<nat>)
    requires Numbered(nodes, n)
    ensures |l| == n && forall a | a in nodes :: l[a.index] == a.speed
  {
    seq(n, i requires 0 <= i < n && Numbered(nodes, n) => NodeOf(nodes, n, i).speed)
  }

  /** The real bandwidth between the nodes at two indices. */
  ghost function RealSpeed<I(!new)>(bw: (I, I) -> nat, nodes: set<Node<I>>, n: nat, i: nat, j: nat): nat {
    if i == j then MAX_SPEED
    else if Numbered(nodes, n) && i < n && j < n then bw(NodeOf(nodes, n, i).info, NodeOf(nodes, n, j).info)
    else 0
  }

  ghost function TableOf<I(!new)>(bw: (I, I) -> nat, nodes: set<Node<I>>, n: nat): Speeds {
    (i: nat, j: nat) => RealSpeed(bw, nodes, n, i, j)
  }

  ghost predicate CellFaithful(c: TestData, width: nat) {
    c.speed <= width && (c.tested || !c.limited ==> c.speed == width)
  }

  ghost predicate TableFaithful(s: Sym<TestData>, table: Speeds) {
    s.Valid() && forall i, j | 0 <= i < s.n && 0 <= j < s.n && i != j :: CellFaithful(s.At(i, j), table(i, j))
  }

  lemma TableClosed<I(!new)>(bw: (I, I) -> nat, link: I -> nat, nodes: set<Node<I>>, n: nat)
    requires Metric(bw, link) && Numbered(nodes, n)
    ensures Closed(TableOf(bw, nodes, n), n)
  {
    var d := TableOf(bw, nodes, n);
    forall i, j | 0 <= i < n && 0 <= j < n
      ensures d(i, j) == d(j, i) <= MAX_SPEED
    {
      var x, y := NodeOf(nodes, n, i).info, NodeOf(nodes, n, j).info;
      assert bw(x, y) == bw(y, x) && (x != y ==> bw(x, y) <= link(x)) && link(x) <= MAX_SPEED;
    }
    forall i, j, k | 0 <= i < n && 0 <= j < n && 0 <= k < n
      ensures NoDetour(d, i, j, k)
    {
      var x, y, z := NodeOf(nodes, n, i).info, NodeOf(nodes, n, j).info, NodeOf(nodes, n, k).info;
      if i != j && j != k && i != k {
        assert Ultra(bw, x, y, z);
      }
    }
  }

  lemma TableWithinLinks<I(!new)>(bw: (I, I) -> nat, link: I -> nat, nodes: set<Node<I>>, n: nat, i: nat, j: nat)
    requires Metric(bw, link) && Numbered(nodes, n) && i < n && j < n && i != j
    requires forall a | a in nodes :: a.speed == link(a.info)
    ensures TableOf(bw, nodes, n)(i, j) <= Min(LinkSpeeds(nodes, n)[i], LinkSpeeds(nodes, n)[j])
  {
    var a, b := NodeOf(nodes, n, i), NodeOf(nodes, n, j);
    assert bw(a.info, b.info) == bw(b.info, a.info);
  }

  /** A test and the pass after it keep the graph faithful: the pass yields the least closed table above the
      measured speed, and the real bandwidths are such a table. */
  lemma TestKeepsFaithful(links: seq<nat>, before: Sym<TestData>, raised: Sym<TestData>, after: Sym<TestData>, d: Speeds, f: nat, t: nat)
    requires before.Valid() && f < before.n && t < before.n && Raises(SpeedsOf(before), before.n, f, t, d(f, t))
    requires raised == before.Put(f, t, TestData(false, true, d(f, t)))
    requires FlagsFollow(links, raised, after)
    requires forall i, j | 0 <= i < after.n && 0 <= j < after.n :: SpeedsOf(after)(i, j) == Raised(SpeedsOf(before), f, t, d(f, t))(i, j)
    requires Closed(d, before.n) && TableFaithful(before, d)
    requires forall i, j | 0 <= i < before.n && 0 <= j < before.n && i != j :: d(i, j) <= Min(links[i], links[j])
    ensures TableFaithful(after, d)
  {
    var s, n, v := SpeedsOf(before), before.n, d(f, t);
    EntryBelowReal(before, d, f, t);
    RaisedIsLeast(s, n, f, t, v, d);
    before.PutAt(f, t, TestData(false, true, v));
    forall i, j | 0 <= i < n && 0 <= j < n && i != j
      ensures CellFaithful(after.At(i, j), d(i, j))
    {
      assert CellFollows(Min(links[i], links[j]), raised.At(i, j), after.At(i, j));
      assert SpeedsOf(after)(i, j) == Raised(s, f, t, v)(i, j) <= d(i, j);
      assert CellFaithful(before.At(i, j), d(i, j));
      assert d(f, t) == d(t, f);
    }
  }

  lemma EntryBelowReal(before: Sym<TestData>, d: Speeds, f: nat, t: nat)
    requires Closed(d, before.n) && TableFaithful(before, d) && f < before.n && t < before.n
    requires Closed(SpeedsOf(before), before.n)
    ensures AtMost(WithEntry(SpeedsOf(before), f, t, d(f, t)), d, before.n)
  {
    var e := WithEntry(SpeedsOf(before), f, t, d(f, t));
    forall i, j | 0 <= i < before.n && 0 <= j < before.n
      ensures e(i, j) <= d(i, j)
    {
      if i != j {
        assert CellFaithful(before.At(i, j), d(i, j));
      }
      assert d(f, t) == d(t, f);
    }
  }

  // ----- The triangle rule -----

  ghost predicate Known(c: TestData) { !c.limited || c.tested }

  /** The rule of find_missing_from_me: both sides over k are known and differ. */
  ghost predicate Rule(s: Sym<TestData>, f: nat, k: nat, t: nat)
    requires s.Valid() && f < s.n && k < s.n && t < s.n
  {
    Known(s.At(f, k)) && Known(s.At(k, t)) && s.At(f, k).speed != s.At(k, t).speed
  }

  ghost function Extrapolated(s: Sym<TestData>, f: nat, k: nat, t: nat): TestData
    requires s.Valid() && f < s.n && k < s.n && t < s.n
  {
    TestData(s.At(f, t).limited, true, Min(s.At(f, k).speed, s.At(k, t).speed))
  }

  /** The rule changes no speed of a closed graph. */
  lemma RuleKeepsSpeeds(s: Sym<TestData>, f: nat, k: nat, t: nat)
    requires s.Valid() && f < s.n && k < s.n && t < s.n && Rule(s, f, k, t) && Closed(SpeedsOf(s), s.n)
    ensures var s' := s.Put(f, t, Extrapolated(s, f, k, t));
      && (forall i, j | 0 <= i < s.n && 0 <= j < s.n :: SpeedsOf(s')(i, j) == SpeedsOf(s)(i, j))
      && Closed(SpeedsOf(s'), s.n)
  {
    var s' := s.Put(f, t, Extrapolated(s, f, k, t));
    s.PutAt(f, t, Extrapolated(s, f, k, t));
    Isosceles(SpeedsOf(s), s.n, f, k, t);
    AtSymmetric(s, f, t);
    forall i, j | 0 <= i < s.n && 0 <= j < s.n
      ensures SpeedsOf(s')(i, j) == SpeedsOf(s)(i, j)
    {
    }
    SameTableClosed(SpeedsOf(s'), SpeedsOf(s), s.n);
  }

  /** What the rule fills in is the real bandwidth. */
  lemma RuleKeepsFaithful(s: Sym<TestData>, f: nat, k: nat, t: nat, d: Speeds)
    requires s.Valid() && f < s.n && k < s.n && t < s.n && f != k && k != t && f != t && Rule(s, f, k, t)
    requires Closed(d, s.n) && TableFaithful(s, d)
    ensures TableFaithful(s.Put(f, t, Extrapolated(s, f, k, t)), d)
  {
    var s' := s.Put(f, t, Extrapolated(s, f, k, t));
    s.PutAt(f, t, Extrapolated(s, f, k, t));
    assert CellFaithful(s.At(f, k), d(f, k)) && CellFaithful(s.At(k, t), d(k, t));
    Isosceles(d, s.n, f, k, t);
    forall i, j | 0 <= i < s.n && 0 <= j < s.n && i != j
      ensures CellFaithful(s'.At(i, j), d(i, j))
    {
      assert CellFaithful(s.At(i, j), d(i, j));
      assert d(f, t) == d(t, f);
    }
  }

  /** What the pass may do to the flags: tests stay, speeds only grow, and a cell stops being limited only
      by reaching the slower of the two links. */
  ghost predicate FlagsFollow(links: seq<nat>, before: Sym<TestData>, after: Sym<TestData>) {
    && before.Valid() && after.Valid() && before.n == after.n == |links|
    && forall a, b | 0 <= a < before.n && 0 <= b < before.n ::
      CellFollows(Min(links[a], links[b]), before.At(a, b), after.At(a, b))
  }

  ghost predicate CellFollows(limit: nat, before: TestData, after: TestData) {
    && after.tested == before.tested && after.speed >= before.speed
    && (!before.limited ==> !after.limited)
    && (before.limited && !after.limited ==> before.speed < after.speed && limit <= after.speed)
    && (before.speed < after.speed == limit ==> !after.limited)
  }

  lemma FlagsFollowTransitive(links: seq<nat>, a: Sym<TestData>, b: Sym<TestData>, c: Sym<TestData>)
    requires FlagsFollow(links, a, b) && FlagsFollow(links, b, c)
    ensures FlagsFollow(links, a, c)
  {
    forall i, j | 0 <= i < a.n && 0 <= j < a.n
      ensures CellFollows(Min(links[i], links[j]), a.At(i, j), c.At(i, j))
    {
      assert CellFollows(Min(links[i], links[j]), a.At(i, j), b.At(i, j));
      assert CellFollows(Min(links[i], links[j]), b.At(i, j), c.At(i, j));
    }
  }

  /** `after` differs from `before` in one cell at most. */
  ghost predicate OneCell(before: Sym<TestData>, after: Sym<TestData>, i: nat, j: nat) {
    && before.Valid() && after.Valid() && before.n == after.n
    && forall a, b | 0 <= a < before.n && 0 <= b < before.n && !SameCell(a, b, i, j) :: after.At(a, b) == before.At(a, b)
  }

  ghost predicate SameCell(a: nat, b: nat, i: nat, j: nat) { (a == i && b == j) || (a == j && b == i) }

  /** The value of a cell after the first k detours: the table is otherwise as before. */
  ghost predicate Relaxing(limit: nat, was: TestData, s: Speeds, i: nat, j: nat, k: nat, now: TestData) {
    CellFollows(limit, was, now) && now.speed == Best(s, i, j, k)
  }

  /** s reads the speeds of the table. */
  ghost predicate Reads(s: Speeds, m: Sym<TestData>) {
    m.Valid() && forall a, b {:trigger m.At(a, b)} | 0 <= a < m.n && 0 <= b < m.n :: s(a, b) == m.At(a, b).speed
  }

  lemma RelaxingStarts(limit: nat, before: Sym<TestData>, s: Speeds, i: nat, j: nat)
    requires Reads(s, before) && i < before.n && j < before.n
    ensures before.Put(i, j, before.At(i, j)) == before && Relaxing(limit, before.At(i, j), s, i, j, 0, before.At(i, j))
  {
  }

  lemma TableRead(s: Speeds, m: Sym<TestData>)
    requires Reads(s, m)
    ensures forall a, b | 0 <= a < m.n && 0 <= b < m.n :: SpeedsOf(m)(a, b) == s(a, b)
  {
    forall a, b | 0 <= a < m.n && 0 <= b < m.n
      ensures SpeedsOf(m)(a, b) == s(a, b)
    {
      assert s(a, b) == m.At(a, b).speed;
    }
  }

  /** A detour over one of the two nodes themselves never beats the cell, so no other detour runs over the cell. */
  lemma DetourAsBefore(before: Sym<TestData>, s: Speeds, i: nat, j: nat, k: nat, now: TestData)
    requires Reads(s, before) && i < before.n && j < before.n && k < before.n && now.speed == Best(s, i, j, k)
    ensures var m := before.Put(i, j, now);
      && m.At(i, j) == now
      && Best(s, i, j, k + 1) == Max(now.speed, Min(m.At(i, k).speed, m.At(k, j).speed))
  {
    before.PutAt(i, j, now);
    BestAtLeast(s, i, j, k);
    assert s(i, j) == before.At(i, j).speed && s(i, k) == before.At(i, k).speed && s(k, j) == before.At(k, j).speed;
    AtSymmetric(before, i, j);
  }

  /** The next detour. */
  ghost function Detoured(limit: nat, now: TestData, speed: nat): TestData {
    if now.speed < speed then TestData(now.limited && limit != speed, now.tested, speed) else now
  }

  lemma CellFollowsDetour(limit: nat, before: TestData, now: TestData, speed: nat)
    requires CellFollows(limit, before, now)
    ensures CellFollows(limit, before, Detoured(limit, now, speed)) && Detoured(limit, now, speed).speed == Max(now.speed, speed)
  {
  }

  lemma PutTwice(before: Sym<TestData>, i: nat, j: nat, a: TestData, b: TestData)
    requires before.Valid() && i < before.n && j < before.n
    ensures before.Put(i, j, a).Put(i, j, b) == before.Put(i, j, b)
  {
  }

  lemma CellRelaxed(links: seq<nat>, before: Sym<TestData>, s: Speeds, i: nat, j: nat, now: TestData)
    requires Reads(s, before) && |links| == before.n && i < before.n && j < before.n
    requires Relaxing(Min(links[i], links[j]), before.At(i, j), s, i, j, before.n, now)
    ensures Relaxed(s, SpeedsOf(before.Put(i, j, now)), before.n, i, j)
    ensures FlagsFollow(links, before, before.Put(i, j, now))
  {
    before.PutAt(i, j, now);
    TableRead(s, before);
    AtSymmetric(before, i, j);
    SpeedsSymmetric(before.Put(i, j, now));
  }

  lemma SpeedsSymmetric(s: Sym<TestData>)
    requires s.Valid()
    ensures Symmetric(SpeedsOf(s), s.n)
  {
    forall i, j | 0 <= i < s.n && 0 <= j < s.n
      ensures SpeedsOf(s)(i, j) == SpeedsOf(s)(j, i)
    {
      AtSymmetric(s, i, j);
    }
  }

  ghost predicate MissingIn<I>(s: Sym<TestData>, me: Node<I>, to: Node<I>, sufficient: nat)
    requires s.Valid() && me.index < s.n && to.index < s.n
  {
    var c := s.At(me.index, to.index);
    to.index != me.index && !c.tested && c.speed < sufficient && c.speed < Min(me.speed, to.speed)
  }

  /** A change in the cell of one node says nothing about the others. */
  lemma OthersStayMissing<I>(before: Sym<TestData>, after: Sym<TestData>, nodes: set<Node<I>>, me: Node<I>, to: Node<I>, sufficient: nat)
    requires OneCell(before, after, me.index, to.index) && Numbered(nodes, before.n) && me in nodes && to in nodes
    ensures forall a | a in nodes && a != to :: MissingIn(after, me, a, sufficient) == MissingIn(before, me, a, sufficient)
  {
    forall a | a in nodes && a != to
      ensures MissingIn(after, me, a, sufficient) == MissingIn(before, me, a, sufficient)
    {
      assert a.index != to.index;
    }
  }

  /** What find_missing_from_me may change: cells of my row become tested by the rule. Speeds stay in a
      closed graph, and the graph stays faithful to every table of real bandwidths. */
  ghost predicate RowExtended(before: Sym<TestData>, after: Sym<TestData>, f: nat) {
    && before.Valid() && after.Valid() && after.n == before.n
    && (forall i, j | 0 <= i < before.n && 0 <= j < before.n ::
          after.At(i, j).limited == before.At(i, j).limited && (before.At(i, j).tested ==> after.At(i, j).tested))
    && (forall i, j | 0 <= i < before.n && 0 <= j < before.n && i != f && j != f :: after.At(i, j) == before.At(i, j))
    && (Closed(SpeedsOf(before), before.n) ==>
          && Closed(SpeedsOf(after), before.n)
          && forall i, j | 0 <= i < before.n && 0 <= j < before.n :: SpeedsOf(after)(i, j) == SpeedsOf(before)(i, j))
    && forall d: Speeds | Closed(d, before.n) && TableFaithful(before, d) :: TableFaithful(after, d)
  }

  /** The list holds the nodes that need a test, apart from some that are still to be looked at. */
  ghost predicate Collected<I(!new)>(s: Sym<TestData>, nodes: set<Node<I>>, rest: set<Node<I>>, me: Node<I>, sufficient: nat, missing: seq<Node<I>>)
    requires s.Valid() && me.index < s.n && forall a | a in nodes :: a.index < s.n
  {
    forall a :: a in missing <==> a in nodes && a !in rest && MissingIn(s, me, a, sufficient)
  }

  lemma CollectOne<I(!new)>(before: Sym<TestData>, after: Sym<TestData>, nodes: set<Node<I>>, rest: set<Node<I>>, me: Node<I>, to: Node<I>, sufficient: nat, missing: seq<Node<I>>)
    requires before.Valid() && Numbered(nodes, before.n) && me in nodes && to in nodes && to !in rest
    requires OneCell(before, after, me.index, to.index) && Collected(before, nodes, rest + {to}, me, sufficient, missing)
    ensures Collected(after, nodes, rest, me, sufficient, if MissingIn(after, me, to, sufficient) then missing + [to] else missing)
  {
    OthersStayMissing(before, after, nodes, me, to, sufficient);
  }

  lemma RuleExtendsRow(before: Sym<TestData>, m: Sym<TestData>, f: nat, k: nat, t: nat)
    requires RowExtended(before, m, f) && f < m.n && k < m.n && t < m.n && f != k && k != t && f != t && Rule(m, f, k, t)
    ensures RowExtended(before, m.Put(f, t, Extrapolated(m, f, k, t)), f)
  {
    m.PutAt(f, t, Extrapolated(m, f, k, t));
    AtSymmetric(m, f, t);
    if Closed(SpeedsOf(before), before.n) {
      RuleKeepsSpeeds(m, f, k, t);
    }
    forall d: Speeds | Closed(d, before.n) && TableFaithful(before, d)
      ensures TableFaithful(m.Put(f, t, Extrapolated(m, f, k, t)), d)
    {
      RuleKeepsFaithful(m, f, k, t, d);
    }
  }

  /** A rule that applies before applies later: what is known stays known, and speeds stay in a closed graph. */
  lemma RuleStays(before: Sym<TestData>, after: Sym<TestData>, f: nat, k: nat, t: nat)
    requires RowExtended(before, after, f) && Closed(SpeedsOf(before), before.n)
    requires f < before.n && k < before.n && t < before.n && Rule(before, f, k, t)
    ensures Rule(after, f, k, t)
  {
    assert SpeedsOf(after)(f, k) == SpeedsOf(before)(f, k) && SpeedsOf(after)(k, t) == SpeedsOf(before)(k, t);
  }

  /** No other node tells the speed between the two. */
  ghost predicate Untold(s: Sym<TestData>, f: nat, t: nat)
    requires s.Valid() && f < s.n && t < s.n
  {
    forall k | 0 <= k < s.n && k != f && k != t :: !Rule(s, f, k, t)
  }

  lemma UntoldSides(s: Sym<TestData>, f: nat, t: nat)
    requires s.Valid() && f < s.n && t < s.n && Untold(s, f, t)
    ensures forall k | 0 <= k < s.n && k != f && k != t ::
      var a, b := s.At(f, k), s.At(k, t);
      (a.limited && !a.tested) || (b.limited && !b.tested) || a.speed == b.speed
  {
    forall k | 0 <= k < s.n && k != f && k != t
      ensures var a, b := s.At(f, k), s.At(k, t); (a.limited && !a.tested) || (b.limited && !b.tested) || a.speed == b.speed
    {
      assert !Rule(s, f, k, t);
    }
  }

  lemma UntoldBefore(before: Sym<TestData>, after: Sym<TestData>, f: nat, t: nat)
    requires RowExtended(before, after, f) && Closed(SpeedsOf(before), before.n)
    requires f < before.n && t < before.n && Untold(after, f, t)
    ensures Untold(before, f, t)
  {
    forall k | 0 <= k < before.n && k != f && k != t
      ensures !Rule(before, f, k, t)
    {
      if Rule(before, f, k, t) {
        RuleStays(before, after, f, k, t);
      }
    }
  }

  /** Only cells of my row that need a test have been changed. */
  ghost predicate OnlyMissingChanged<I(!new)>(before: Sym<TestData>, after: Sym<TestData>, nodes: set<Node<I>>, me: Node<I>, sufficient: nat)
    requires before.Valid() && after.Valid() && after.n == before.n && me.index < before.n && forall a | a in nodes :: a.index < before.n
  {
    forall a | a in nodes && after.At(me.index, a.index) != before.At(me.index, a.index) :: MissingIn(before, me, a, sufficient)
  }

  lemma MissingBefore<I(!new)>(before: Sym<TestData>, m: Sym<TestData>, after: Sym<TestData>, nodes: set<Node<I>>, me: Node<I>, to: Node<I>, sufficient: nat)
    requires before.Valid() && Numbered(nodes, before.n) && me in nodes && to in nodes && m.Valid() && m.n == before.n
    requires OnlyMissingChanged(before, m, nodes, me, sufficient) && OneCell(m, after, me.index, to.index)
    requires after.At(me.index, to.index) != m.At(me.index, to.index) ==> MissingIn(m, me, to, sufficient)
    ensures OnlyMissingChanged(before, after, nodes, me, sufficient)
  {
    forall a | a in nodes && after.At(me.index, a.index) != before.At(me.index, a.index)
      ensures MissingIn(before, me, a, sufficient)
    {
      if a != to {
        assert a.index != to.index;
      }
    }
  }

  /** What the loop over the nodes keeps, with some nodes still to be looked at. */
  ghost predicate LookedAt<I(!new)>(before: Sym<TestData>, now: Sym<TestData>, nodes: set<Node<I>>, rest: set<Node<I>>, me: Node<I>,
    sufficient: nat, missing: seq<Node<I>>)
    requires before.Valid() && me.index < before.n && forall a | a in nodes :: a.index < before.n
  {
    && RowExtended(before, now, me.index) && Collected(now, nodes, rest, me, sufficient, missing)
    && OnlyMissingChanged(before, now, nodes, me, sufficient)
    && (Closed(SpeedsOf(before), before.n) ==> forall a | a in missing :: a in nodes && Untold(before, me.index, a.index))
  }

  lemma LookAtOne<I(!new)>(before: Sym<TestData>, m: Sym<TestData>, after: Sym<TestData>, nodes: set<Node<I>>, rest: set<Node<I>>, me: Node<I>,
    to: Node<I>, sufficient: nat, missing: seq<Node<I>>)
    requires before.Valid() && Numbered(nodes, before.n) && me in nodes && to in nodes && to !in rest
    requires LookedAt(before, m, nodes, rest + {to}, me, sufficient, missing)
    requires RowExtended(m, after, me.index) && OneCell(m, after, me.index, to.index)
    requires MissingIn(after, me, to, sufficient) ==> Untold(m, me.index, to.index)
    requires after.At(me.index, to.index) != m.At(me.index, to.index) ==> MissingIn(m, me, to, sufficient)
    ensures LookedAt(before, after, nodes, rest, me, sufficient, if MissingIn(after, me, to, sufficient) then missing + [to] else missing)
  {
    RowExtendedTransitive(before, m, after, me.index);
    CollectOne(m, after, nodes, rest, me, to, sufficient, missing);
    MissingBefore(before, m, after, nodes, me, to, sufficient);
    if Closed(SpeedsOf(before), before.n) && MissingIn(after, me, to, sufficient) {
      UntoldBefore(before, m, me.index, to.index);
    }
  }

  lemma RowExtendedTransitive(a: Sym<TestData>, b: Sym<TestData>, c: Sym<TestData>, f: nat)
    requires RowExtended(a, b, f) && RowExtended(b, c, f)
    ensures RowExtended(a, c, f)
  {
    forall i, j | 0 <= i < a.n && 0 <= j < a.n
      ensures c.At(i, j).limited == a.At(i, j).limited && (a.At(i, j).tested ==> c.At(i, j).tested)
      ensures i != f && j != f ==> c.At(i, j) == a.At(i, j)
    {
      assert c.At(i, j).limited == b.At(i, j).limited && b.At(i, j).limited == a.At(i, j).limited;
    }
    if Closed(SpeedsOf(a), a.n) {
      forall i, j | 0 <= i < a.n && 0 <= j < a.n
        ensures SpeedsOf(c)(i, j) == SpeedsOf(a)(i, j)
      {
        assert SpeedsOf(b)(i, j) == SpeedsOf(a)(i, j);
      }
    }
  }

  // ----- Numbering -----

  lemma NodeOfUnique<I>(nodes: set<Node<I>>, n: nat, a: Node<I>)
    requires Numbered(nodes, n) && a in nodes
    ensures a.index < n && NodeOf(nodes, n, a.index) == a
  {
  }

  /** A numbering has as many nodes as rows. */
  lemma {:induction false} NumberedCount<I>(nodes: set<Node<I>>, n: nat)
    requires Numbered(nodes, n)
    ensures |nodes| == n
  {
    if n == 0 {
      assert nodes == {};
    } else {
      var a := NodeOf(nodes, n, n - 1);
      var rest := nodes - {a};
      forall i | 0 <= i < n - 1
        ensures HasIndex(rest, i)
      {
        assert NodeOf(nodes, n, i) in rest;
      }
      NumberedCount(rest, n - 1);
    }
  }

  lemma NumberedGrow<I>(nodes: set<Node<I>>, n: nat, a: Node<I>)
    requires Numbered(nodes, n) && a.index == n && forall b | b in nodes :: b.info != a.info
    ensures Numbered(nodes + {a}, n + 1)
    ensures forall i | 0 <= i < n :: NodeOf(nodes + {a}, n + 1, i) == NodeOf(nodes, n, i)
    ensures NodeOf(nodes + {a}, n + 1, n) == a
  {
    GrowNumbered(nodes, n, a);
    forall i | 0 <= i < n
      ensures NodeOf(nodes + {a}, n + 1, i) == NodeOf(nodes, n, i)
    {
      NodeOfUnique(nodes + {a}, n + 1, NodeOf(nodes, n, i));
    }
    NodeOfUnique(nodes + {a}, n + 1, a);
  }

  lemma GrowNumbered<I>(nodes: set<Node<I>>, n: nat, a: Node<I>)
    requires Numbered(nodes, n) && a.index == n && forall b | b in nodes :: b.info != a.info
    ensures Numbered(nodes + {a}, n + 1)
  {
    forall i | 0 <= i < n + 1
      ensures HasIndex(nodes + {a}, i)
    {
      if i < n {
        assert NodeOf(nodes, n, i) in nodes + {a};
      } else {
        assert a in nodes + {a};
      }
    }
  }

  /** A node after the removal of row `index`. */
  function Shifted<I>(m: Node<I>, index: nat): Node<I> {
    if m.index > index then Node(m.index - 1, m.speed, m.info) else m
  }

  function ShiftedAll<I(==)>(nodes: set<Node<I>>, x: Node<I>): set<Node<I>> {
    set m | m in nodes && m != x :: Shifted(m, x.index)
  }

  lemma ShiftedDistinct<I>(nodes: set<Node<I>>, n: nat, x: Node<I>, a: Node<I>, b: Node<I>)
    requires Numbered(nodes, n) && x in nodes && a in nodes && b in nodes && a != x && b != x
    ensures Shifted(a, x.index).index < n - 1
    ensures Shifted(a, x.index).index == Shifted(b, x.index).index ==> a == b
    ensures Shifted(a, x.index).info == Shifted(b, x.index).info ==> a == b
  {
  }

  lemma ShrinkNumbered<I>(nodes: set<Node<I>>, n: nat, x: Node<I>)
    requires Numbered(nodes, n) && x in nodes && n >= 1
    ensures Numbered(ShiftedAll(nodes, x), n - 1)
  {
    var small := ShiftedAll(nodes, x);
    forall a, b | a in small && b in small
      ensures a.index < n - 1 && (a.index == b.index ==> a == b) && (a.info == b.info ==> a == b)
    {
      var m :| m in nodes && m != x && a == Shifted(m, x.index);
      var k :| k in nodes && k != x && b == Shifted(k, x.index);
      ShiftedDistinct(nodes, n, x, m, k);
    }
    forall i | 0 <= i < n - 1
      ensures HasIndex(small, i)
    {
      var m := NodeOf(nodes, n, Skip(i, x.index));
      assert Shifted(m, x.index) in small && Shifted(m, x.index).index == i;
    }
  }

  lemma NumberedShrink<I>(nodes: set<Node<I>>, n: nat, x: Node<I>)
    requires Numbered(nodes, n) && x in nodes
    ensures n >= 1 && Numbered(ShiftedAll(nodes, x), n - 1)
    ensures forall i | 0 <= i < n - 1 :: NodeOf(ShiftedAll(nodes, x), n - 1, i) == Shifted(NodeOf(nodes, n, Skip(i, x.index)), x.index)
  {
    ShrinkNumbered(nodes, n, x);
    var small := ShiftedAll(nodes, x);
    forall i | 0 <= i < n - 1
      ensures NodeOf(small, n - 1, i) == Shifted(NodeOf(nodes, n, Skip(i, x.index)), x.index)
    {
      var m := NodeOf(nodes, n, Skip(i, x.index));
      assert Shifted(m, x.index) in small;
      NodeOfUnique(small, n - 1, Shifted(m, x.index));
    }
  }

  // ----- Growing and shrinking -----

  /** `after` is `before` with a row and column for a node about which nothing is known yet. */
  ghost predicate AddsRow(before: Sym<TestData>, after: Sym<TestData>) {
    && Keeps(before, after) && after.n == before.n + 1
    && after.At(before.n, before.n) == TestData(true, false, MAX_SPEED)
    && forall i | 0 <= i < before.n :: after.At(i, before.n) == TestData(true, false, 0)
  }

  lemma AddRowKeepsClosed(before: Sym<TestData>, after: Sym<TestData>)
    requires AddsRow(before, after) && Closed(SpeedsOf(before), before.n)
    ensures Closed(SpeedsOf(after), after.n)
  {
    var s, m, n := SpeedsOf(before), SpeedsOf(after), before.n;
    SpeedsSymmetric(after);
    forall i, j | 0 <= i <= n && 0 <= j <= n
      ensures m(i, j) == if i < n && j < n then s(i, j) else if i == j then MAX_SPEED else 0
    {
      AtSymmetric(after, i, j);
    }
    forall i, j, k | 0 <= i <= n && 0 <= j <= n && 0 <= k <= n
      ensures NoDetour(m, i, j, k)
    {
      if i < n && j < n && k < n {
        assert NoDetour(s, i, j, k);
      }
    }
  }

  lemma RemoveRowKeepsClosed(before: Sym<TestData>, id: nat, after: Sym<TestData>)
    requires Removes(before, id, after) && Closed(SpeedsOf(before), before.n)
    ensures Closed(SpeedsOf(after), after.n)
  {
    var s, m, n := SpeedsOf(before), SpeedsOf(after), after.n;
    SpeedsSymmetric(after);
    forall i, j | 0 <= i < n && 0 <= j < n
      ensures m(i, j) == s(Skip(i, id), Skip(j, id))
    {
    }
    forall i, j, k | 0 <= i < n && 0 <= j < n && 0 <= k < n
      ensures NoDetour(m, i, j, k)
    {
      assert NoDetour(s, Skip(i, id), Skip(j, id), Skip(k, id));
    }
  }

  lemma AddRowKeepsFaithful<I(!new)>(bw: (I, I) -> nat, before: Sym<TestData>, after: Sym<TestData>, nodes: set<Node<I>>, a: Node<I>)
    requires AddsRow(before, after) && Numbered(nodes, before.n)
    requires a.index == before.n && forall b | b in nodes :: b.info != a.info
    requires TableFaithful(before, TableOf(bw, nodes, before.n))
    ensures TableFaithful(after, TableOf(bw, nodes + {a}, after.n))
  {
    var n, d, e := before.n, TableOf(bw, nodes, before.n), TableOf(bw, nodes + {a}, after.n);
    NumberedGrow(nodes, n, a);
    forall i, j | 0 <= i < after.n && 0 <= j < after.n && i != j
      ensures CellFaithful(after.At(i, j), e(i, j))
    {
      AtSymmetric(after, i, j);
      if i < n && j < n {
        assert CellFaithful(before.At(i, j), d(i, j));
      }
    }
  }

  lemma RemoveRowKeepsFaithful<I(!new)>(bw: (I, I) -> nat, before: Sym<TestData>, after: Sym<TestData>, nodes: set<Node<I>>, x: Node<I>)
    requires Numbered(nodes, before.n) && x in nodes && Removes(before, x.index, after)
    requires TableFaithful(before, TableOf(bw, nodes, before.n))
    ensures TableFaithful(after, TableOf(bw, ShiftedAll(nodes, x), after.n))
  {
    NumberedShrink(nodes, before.n, x);
    forall i, j | 0 <= i < after.n && 0 <= j < after.n && i != j
      ensures CellFaithful(after.At(i, j), TableOf(bw, ShiftedAll(nodes, x), after.n)(i, j))
    {
      ShiftedFaithful(bw, before, after, nodes, x, i, j);
    }
  }

  lemma ShiftedFaithful<I(!new)>(bw: (I, I) -> nat, before: Sym<TestData>, after: Sym<TestData>, nodes: set<Node<I>>, x: Node<I>, i: nat, j: nat)
    requires Numbered(nodes, before.n) && x in nodes && Removes(before, x.index, after) && i < after.n && j < after.n && i != j
    requires TableFaithful(before, TableOf(bw, nodes, before.n))
    ensures CellFaithful(after.At(i, j), TableOf(bw, ShiftedAll(nodes, x), after.n)(i, j))
  {
    ShiftedTable(bw, nodes, before.n, x, i, j);
    ShiftedCell(before, after, x.index, TableOf(bw, nodes, before.n), TableOf(bw, ShiftedAll(nodes, x), after.n), i, j);
  }

  lemma ShiftedCell(before: Sym<TestData>, after: Sym<TestData>, id: nat, d: Speeds, e: Speeds, i: nat, j: nat)
    requires Removes(before, id, after) && i < after.n && j < after.n && i != j
    requires TableFaithful(before, d) && e(i, j) == d(Skip(i, id), Skip(j, id))
    ensures CellFaithful(after.At(i, j), e(i, j))
  {
    RemovedCell(before, id, after, i, j);
    FaithfulCell(before, d, Skip(i, id), Skip(j, id));
  }

  lemma RemovedCell(before: Sym<TestData>, id: nat, after: Sym<TestData>, i: nat, j: nat)
    requires Removes(before, id, after) && i < after.n && j < after.n
    ensures Skip(i, id) < before.n && Skip(j, id) < before.n && (i != j ==> Skip(i, id) != Skip(j, id))
    ensures after.At(i, j) == before.At(Skip(i, id), Skip(j, id))
  {
  }

  lemma FaithfulCell(s: Sym<TestData>, table: Speeds, i: nat, j: nat)
    requires TableFaithful(s, table) && i < s.n && j < s.n && i != j
    ensures CellFaithful(s.At(i, j), table(i, j))
  {
  }

  /** The table of the remaining nodes is the old one without the row. */
  lemma ShiftedTable<I(!new)>(bw: (I, I) -> nat, nodes: set<Node<I>>, n: nat, x: Node<I>, i: nat, j: nat)
    requires Numbered(nodes, n) && x in nodes && i < n - 1 && j < n - 1 && i != j
    ensures TableOf(bw, ShiftedAll(nodes, x), n - 1)(i, j) == TableOf(bw, nodes, n)(Skip(i, x.index), Skip(j, x.index))
  {
    NumberedShrink(nodes, n, x);
  }

  class CGraph<I(==,!new)> {
    var graph: SymMatrix<TestData>
    var nodes: set<Node<I>>

    constructor ()
      ensures Valid() && Closed(S(), graph.n) && nodes == {} && fresh(graph)
    {
      graph := new SymMatrix<TestData>.NewFn(0, (r, c) => TestData(true, false, 0));
      nodes := {};
    }

    /** The nodes number the rows of the matrix. */
    ghost predicate Valid()
      reads this, graph
    {
      graph.Valid() && Numbered(nodes, graph.n)
    }

    ghost function S(): Speeds
      reads this, graph
    {
      SpeedsOf(graph.View())
    }

    ghost function Cell(i: nat, j: nat): TestData
      requires graph.Valid() && i < graph.n && j < graph.n
      reads this, graph
    {
      graph.View().At(i, j)
    }

    ghost function Links(): (l: seq<nat>)
      requires Valid()
      reads this, graph
      ensures |l| == graph.n
    {
      LinkSpeeds(nodes, graph.n)
    }

    /** Every stored speed is at most the real one, and exact when it was tested or is not limited. */
    ghost predicate Faithful(bw: (I, I) -> nat, link: I -> nat)
      reads this, graph
    {
      && Valid() && Closed(S(), graph.n)
      && (forall a | a in nodes :: a.speed == link(a.info))
      && TableFaithful(graph.View(), TableOf(bw, nodes, graph.n))
    }

    /** The smaller link speed of the nodes at two indices. */
    method MinSpeed(i: nat, j: nat) returns (speed: nat)
      requires Valid() && i < graph.n && j < graph.n
      ensures speed == Min(Links()[i], Links()[j])
    {
      var best: Option<nat> := None;
      var rest := nodes;
      ghost var a, b := NodeOf(nodes, graph.n, i), NodeOf(nodes, graph.n, j);
      while rest != {}
        invariant rest <= nodes
        invariant best.None? ==> a in rest && b in rest
        invariant best.Some? ==>
          && best.value >= Min(a.speed, b.speed)
          && (a in rest || best.value <= a.speed)
          && (b in rest || best.value <= b.speed)
        decreases |rest|
      {
        var node :| node in rest;
        rest := rest - {node};
        if node.index == i || node.index == j {
          assert node == a || node == b;
          best := if best.Some? && best.value <= node.speed then best else Some(node.speed);
        }
      }
      speed := best.value;
    }

    /** Relaxes one cell. */
    method RelaxCell(i: nat, j: nat, ghost s: Speeds)
      requires Valid() && i < graph.n && j < graph.n && Reads(s, graph.View())
      modifies graph
      ensures Valid() && graph.n == old(graph.n)
      ensures Relaxed(s, S(), graph.n, i, j)
      ensures FlagsFollow(Links(), old(graph.View()), graph.View())
    {
      ghost var before := graph.View();
      ghost var now := RelaxOverAll(i, j, s);
      CellRelaxed(Links(), before, s, i, j, now);
    }

    /** The loop over k: all detours of one cell. */
    method RelaxOverAll(i: nat, j: nat, ghost s: Speeds) returns (ghost now: TestData)
      requires Valid() && i < graph.n && j < graph.n && Reads(s, graph.View())
      modifies graph
      ensures graph.Valid() && graph.n == old(graph.n) && graph.View() == old(graph.View()).Put(i, j, now)
      ensures Relaxing(Min(Links()[i], Links()[j]), old(graph.View().At(i, j)), s, i, j, graph.n, now)
    {
      ghost var before, links := graph.View(), Links();
      now := before.At(i, j);
      RelaxingStarts(Min(links[i], links[j]), before, s, i, j);
      var n := graph.Size();
      for k := 0 to n
        invariant graph.Valid() && graph.n == n && graph.View() == before.Put(i, j, now)
        invariant Relaxing(Min(links[i], links[j]), before.At(i, j), s, i, j, k, now)
      {
        now := RelaxOver(i, j, k, before, s, now, links);
      }
    }

    /** Relaxes one cell over one detour. */
    method RelaxOver(i: nat, j: nat, k: nat, ghost before: Sym<TestData>, ghost s: Speeds, ghost now: TestData, ghost links: seq<nat>)
      returns (ghost next: TestData)
      requires Valid() && i < graph.n && j < graph.n && k < graph.n && links == Links()
      requires Reads(s, before) && before.n == graph.n && graph.View() == before.Put(i, j, now)
      requires Relaxing(Min(links[i], links[j]), before.At(i, j), s, i, j, k, now)
      modifies graph
      ensures graph.Valid() && graph.n == old(graph.n) && graph.View() == before.Put(i, j, next)
      ensures Relaxing(Min(links[i], links[j]), before.At(i, j), s, i, j, k + 1, next)
    {
      ghost var limit := Min(links[i], links[j]);
      DetourAsBefore(before, s, i, j, k, now);
      var ik, kj, ij := graph.Get(i, k), graph.Get(k, j), graph.Get(i, j);
      var byTransition := Min(ik.speed, kj.speed);
      next := Detoured(limit, now, byTransition);
      CellFollowsDetour(limit, before.At(i, j), now, byTransition);
      if ij.speed < byTransition {
        var minSpeed := MinSpeed(i, j);
        PutTwice(before, i, j, now, next);
        graph.Set(i, j, TestData(ij.limited && minSpeed != byTransition, ij.tested, byTransition));
      }
    }

    /** The pass of update_speeds. When the table was closed before one entry was raised, the pass yields
        exactly its closure. */
    method UpdateSpeeds(ghost closed: bool, ghost s: Speeds, ghost f: nat, ghost t: nat, ghost v: nat)
      requires Valid()
      requires closed ==> Raises(s, graph.n, f, t, v)
      requires closed ==> forall i, j | 0 <= i < graph.n && 0 <= j < graph.n :: S()(i, j) == WithEntry(s, f, t, v)(i, j)
      modifies graph
      ensures Valid() && graph.n == old(graph.n)
      ensures FlagsFollow(Links(), old(graph.View()), graph.View())
      ensures closed ==> forall i, j | 0 <= i < graph.n && 0 <= j < graph.n :: S()(i, j) == Raised(s, f, t, v)(i, j)
      ensures closed ==> Closed(S(), graph.n)
    {
      ghost var before, n, links := graph.View(), graph.n, Links();
      FlagsFollowSelf(links, before);
      if closed {
        ProgressStarts(s, S(), n, f, t, v);
      }
      ghost var m := S();
      for i := 0 to graph.Size()
        invariant graph.Valid() && graph.n == n && FlagsFollow(links, before, graph.View()) && Reads(m, graph.View())
        invariant closed ==> Progress(s, m, n, f, t, v, i, 0)
      {
        m := RelaxRow(i, closed, s, f, t, v, links, before, m);
        if closed {
          ProgressRow(s, m, n, f, t, v, i);
        }
      }
      if closed {
        PassCloses(s, m, n, f, t, v);
        TableRead(m, graph.View());
        SameTableClosed(S(), m, n);
      }
    }

    /** The pass over one row. */
    method RelaxRow(i: nat, ghost closed: bool, ghost s: Speeds, ghost f: nat, ghost t: nat, ghost v: nat, ghost links: seq<nat>,
      ghost before: Sym<TestData>, ghost m: Speeds) returns (ghost now: Speeds)
      requires Valid() && i < graph.n && links == Links() && FlagsFollow(links, before, graph.View()) && Reads(m, graph.View())
      requires closed ==> Progress(s, m, graph.n, f, t, v, i, 0)
      modifies graph
      ensures graph.Valid() && graph.n == old(graph.n) && FlagsFollow(links, before, graph.View()) && Reads(now, graph.View())
      ensures closed ==> Progress(s, now, graph.n, f, t, v, i, graph.n)
    {
      var n := graph.Size();
      now := m;
      for j := 0 to n
        invariant graph.Valid() && graph.n == n && FlagsFollow(links, before, graph.View()) && Reads(now, graph.View())
        invariant closed ==> Progress(s, now, n, f, t, v, i, j)
      {
        now := RelaxNext(i, j, closed, s, f, t, v, links, before, now);
      }
    }

    /** One cell of the pass. */
    method RelaxNext(i: nat, j: nat, ghost closed: bool, ghost s: Speeds, ghost f: nat, ghost t: nat, ghost v: nat, ghost links: seq<nat>,
      ghost before: Sym<TestData>, ghost m: Speeds) returns (ghost now: Speeds)
      requires Valid() && i < graph.n && j < graph.n && links == Links()
      requires FlagsFollow(links, before, graph.View()) && Reads(m, graph.View())
      requires closed ==> Progress(s, m, graph.n, f, t, v, i, j)
      modifies graph
      ensures graph.Valid() && graph.n == old(graph.n) && FlagsFollow(links, before, graph.View()) && Reads(now, graph.View())
      ensures closed ==> Progress(s, now, graph.n, f, t, v, i, j + 1)
    {
      ghost var was := graph.View();
      RelaxCell(i, j, m);
      FlagsFollowTransitive(links, before, was, graph.View());
      now := S();
      if closed {
        ProgressStep(s, m, now, graph.n, f, t, v, i, j);
      }
    }

    method FindInfo(info: I) returns (r: Option<Node<I>>)
      requires Valid()
      ensures r.Some? <==> HasInfo(nodes, info)
      ensures r.Some? ==> r.value in nodes && r.value.info == info
    {
      var rest := nodes;
      while rest != {}
        invariant rest <= nodes && forall a | a in nodes - rest :: a.info != info
        decreases |rest|
      {
        var node :| node in rest;
        if node.info == info {
          return Some(node);
        }
        rest := rest - {node};
      }
      return None;
    }

    /** The matrix with one more row, about which only the diagonal is known. */
    method BiggerMatrix() returns (bigger: SymMatrix<TestData>)
      requires Valid()
      ensures fresh(bigger) && bigger.Valid() && AddsRow(graph.View(), bigger.View())
    {
      bigger := graph.GrowFn(1, (row, col) => TestData(true, false, 0));
      var index := bigger.Size() - 1;
      var cell := bigger.Get(index, index);
      bigger.View().PutAt(index, index, TestData(cell.limited, cell.tested, MAX_SPEED));
      bigger.Set(index, index, TestData(cell.limited, cell.tested, MAX_SPEED));
    }

    /** Adds a node unless its info is in the graph already. */
    method AddNode(speed: nat, info: I, ghost bw: (I, I) -> nat, ghost link: I -> nat) returns (r: Node<I>)
      requires Valid()
      modifies this
      ensures Valid() && r in nodes && r.info == info
      ensures old(HasInfo(nodes, info)) ==> nodes == old(nodes) && graph == old(graph) && graph.View() == old(graph.View())
      ensures !old(HasInfo(nodes, info)) ==>
        && r == Node(old(graph.n), speed, info) && nodes == old(nodes) + {r}
        && fresh(graph) && AddsRow(old(graph.View()), graph.View())
      ensures old(Closed(S(), graph.n)) ==> Closed(S(), graph.n)
      ensures old(Faithful(bw, link)) && speed == link(info) ==> Faithful(bw, link)
    {
      var known := FindInfo(info);
      if known.Some? {
        return known.value;
      }
      var bigger := BiggerMatrix();
      r := Node(graph.Size(), speed, info);
      ghost var before := graph.View();
      NumberedGrow(nodes, graph.n, r);
      if Closed(S(), graph.n) {
        AddRowKeepsClosed(before, bigger.View());
      }
      if Faithful(bw, link) {
        AddRowKeepsFaithful(bw, before, bigger.View(), nodes, r);
      }
      graph := bigger;
      nodes := nodes + {r};
    }

    /** Removes one node that satisfies the predicate. */
    method RemoveOneBy(p: Node<I> -> bool, ghost bw: (I, I) -> nat, ghost link: I -> nat) returns (r: Result<Node<I>>)
      requires Valid()
      modifies this
      ensures Valid()
      ensures r.Err? <==> forall a | a in old(nodes) :: !p(a)
      ensures r.Err? ==> nodes == old(nodes) && graph == old(graph) && graph.View() == old(graph.View())
      ensures r.Ok? ==>
        && r.value in old(nodes) && p(r.value) && nodes == ShiftedAll(old(nodes), r.value)
        && fresh(graph) && Removes(old(graph.View()), r.value.index, graph.View())
      ensures old(Closed(S(), graph.n)) ==> Closed(S(), graph.n)
      ensures old(Faithful(bw, link)) ==> Faithful(bw, link)
    {
      var found := FindMatching(p);
      match found {
        case None => r := Err(NoResource);
        case Some(node) =>
          RemoveNode(node, bw, link);
          r := Ok(node);
      }
    }

    method FindMatching(p: Node<I> -> bool) returns (r: Option<Node<I>>)
      ensures r.None? ==> forall a | a in nodes :: !p(a)
      ensures r.Some? ==> r.value in nodes && p(r.value)
    {
      var rest := nodes;
      while rest != {}
        invariant rest <= nodes && forall a | a in nodes - rest :: !p(a)
        decreases |rest|
      {
        var node :| node in rest;
        if p(node) {
          return Some(node);
        }
        rest := rest - {node};
      }
      return None;
    }

    /** Removes a node and renumbers the rest. The matrix and the nodes then still fit together. */
    method RemoveNode(node: Node<I>, ghost bw: (I, I) -> nat, ghost link: I -> nat)
      requires Valid() && node in nodes
      modifies this
      ensures Valid() && nodes == ShiftedAll(old(nodes), node)
      ensures fresh(graph) && Removes(old(graph.View()), node.index, graph.View())
      ensures old(Closed(S(), graph.n)) ==> Closed(S(), graph.n)
      ensures old(Faithful(bw, link)) ==> Faithful(bw, link)
    {
      ghost var before := graph.View();
      NumberedShrink(nodes, graph.n, node);
      NumberedCount(ShiftedAll(nodes, node), graph.n - 1);
      var smaller := graph.RemoveId(node.index);
      var newNodes := ShiftedAll(nodes, node);
      if smaller.Size() != |newNodes| {
        assert false;
      }
      if Closed(S(), graph.n) {
        RemoveRowKeepsClosed(before, node.index, smaller.View());
      }
      if Faithful(bw, link) {
        RemoveRowKeepsFaithful(bw, before, smaller.View(), nodes, node);
      }
      graph := smaller;
      nodes := newNodes;
    }

    /** The test between two nodes may be recorded: both are known, distinct, and the speed is possible. */
    ghost predicate Measures(from: Node<I>, to: Node<I>, speed: nat, bw: (I, I) -> nat, link: I -> nat)
      reads this, graph
    {
      && Faithful(bw, link) && Metric(bw, link) && from in nodes && to in nodes && from != to
      && speed == bw(from.info, to.info)
    }

    /** Writes a test result. */
    method WriteTest(f: nat, t: nat, speed: nat) returns (useful: bool)
      requires Valid() && f < graph.n && t < graph.n
      modifies graph
      ensures Valid() && graph.n == old(graph.n) && graph.View() == old(graph.View()).Put(f, t, TestData(false, true, speed))
      ensures useful == (old(Cell(f, t)).speed < speed)
      ensures forall i, j | 0 <= i < graph.n && 0 <= j < graph.n :: S()(i, j) == WithEntry(old(S()), f, t, speed)(i, j)
    {
      ghost var before := graph.View();
      var cell := graph.Get(f, t);
      useful := cell.speed < speed;
      before.PutAt(f, t, TestData(false, true, speed));
      graph.Set(f, t, TestData(false, true, speed));
    }

    /** Writes a test result and runs the pass. */
    method RecordTest(from: Node<I>, to: Node<I>, speed: nat, ghost bw: (I, I) -> nat, ghost link: I -> nat)
      returns (useful: bool)
      requires Valid() && from.index < graph.n && to.index < graph.n
      modifies graph
      ensures Valid() && graph.n == old(graph.n)
      ensures useful == (old(Cell(from.index, to.index)).speed < speed)
      ensures FlagsFollow(Links(), old(graph.View()).Put(from.index, to.index, TestData(false, true, speed)), graph.View())
      ensures old(Raises(S(), graph.n, from.index, to.index, speed)) ==>
        && Closed(S(), graph.n)
        && forall i, j | 0 <= i < graph.n && 0 <= j < graph.n :: S()(i, j) == Raised(old(S()), from.index, to.index, speed)(i, j)
      ensures old(Measures(from, to, speed, bw, link)) ==> Faithful(bw, link)
    {
      ghost var before, f, t := graph.View(), from.index, to.index;
      useful := WriteTest(from.index, to.index, speed);
      ghost var raised := graph.View();
      UpdateSpeeds(Raises(SpeedsOf(before), before.n, f, t, speed), SpeedsOf(before), f, t, speed);
      if old(Measures(from, to, speed, bw, link)) {
        MeasuredKeepsFaithful(bw, link, nodes, before, raised, graph.View(), from, to);
      }
    }

    /** Records a direct test and extrapolates. */
    method AddLinkDirectTest(from: Node<I>, to: Node<I>, speed: nat, ghost bw: (I, I) -> nat, ghost link: I -> nat)
      returns (r: Result<bool>)
      requires Valid()
      modifies graph
      ensures Valid() && graph.n == old(graph.n)
      ensures r == if from.index >= graph.n || to.index >= graph.n then Err(NotFound)
                   else if speed > Min(from.speed, to.speed) then Err(InvalidData)
                   else Ok(old(Cell(from.index, to.index)).speed < speed)
      ensures r.Err? ==> graph.View() == old(graph.View())
      ensures r.Ok? ==> FlagsFollow(Links(), old(graph.View()).Put(from.index, to.index, TestData(false, true, speed)), graph.View())
      ensures r.Ok? && old(Raises(S(), graph.n, from.index, to.index, speed)) ==>
        && Closed(S(), graph.n)
        && forall i, j | 0 <= i < graph.n && 0 <= j < graph.n :: S()(i, j) == Raised(old(S()), from.index, to.index, speed)(i, j)
      ensures old(Measures(from, to, speed, bw, link)) ==> r.Ok? && Faithful(bw, link)
    {
      var error := CheckTest(from, to, speed, bw, link);
      if error.Some? {
        return Err(error.value);
      }
      var useful := RecordTest(from, to, speed, bw, link);
      return Ok(useful);
    }

    /** The errors of a test: an unknown node, or a speed above a node's own. A true measurement has none. */
    method CheckTest(from: Node<I>, to: Node<I>, speed: nat, ghost bw: (I, I) -> nat, ghost link: I -> nat) returns (error: Option<Error>)
      requires Valid()
      ensures error == if from.index >= graph.n || to.index >= graph.n then Some(NotFound)
                       else if speed > Min(from.speed, to.speed) then Some(InvalidData)
                       else None
      ensures Measures(from, to, speed, bw, link) ==> error.None?
    {
      IndexKnown(nodes, graph.n, from.index);
      IndexKnown(nodes, graph.n, to.index);
      if !(exists a | a in nodes :: a.index == from.index) || !(exists a | a in nodes :: a.index == to.index) {
        return Some(NotFound);
      }
      if Measures(from, to, speed, bw, link) {
        assert bw(from.info, to.info) == bw(to.info, from.info);
      }
      var minSpeed := Min(from.speed, to.speed);
      if speed > minSpeed {
        return Some(InvalidData);
      }
      return None;
    }

    /** A test between me and the node is still needed. */
    predicate Missing(me: Node<I>, to: Node<I>, sufficient: nat)
      requires graph.Valid() && me.index < graph.n && to.index < graph.n
      reads this, graph
      ensures Missing(me, to, sufficient) == MissingIn(graph.View(), me, to, sufficient)
    {
      var c := graph.Get(me.index, to.index);
      to.index != me.index && !c.tested && c.speed < sufficient && c.speed < Min(me.speed, to.speed)
    }

    /** Looks for a k whose sides tell the speed between me and the node: the loop over k. */
    method TriangleRule(me: Node<I>, to: Node<I>) returns (ignoreTest: bool, ghost k: nat)
      requires Valid() && me in nodes && to in nodes && me.index != to.index
      modifies graph
      ensures Valid() && graph.n == old(graph.n)
      ensures ignoreTest ==>
        && k < graph.n && k != me.index && k != to.index && Rule(old(graph.View()), me.index, k, to.index)
        && graph.View() == old(graph.View()).Put(me.index, to.index, Extrapolated(old(graph.View()), me.index, k, to.index))
      ensures !ignoreTest ==>
        && graph.View() == old(graph.View())
        && forall x | 0 <= x < graph.n && x != me.index && x != to.index :: !Rule(graph.View(), me.index, x, to.index)
    {
      ignoreTest, k := false, 0;
      var rest := nodes;
      while rest != {}
        invariant rest <= nodes && graph.View() == old(graph.View())
        invariant forall a | a in nodes - rest && a.index != me.index && a.index != to.index ::
          !Rule(graph.View(), me.index, a.index, to.index)
        decreases |rest|
      {
        var node :| node in rest;
        rest := rest - {node};
        if node.index == me.index || node.index == to.index {
          continue;
        }
        var fromK, kTo := graph.Get(me.index, node.index), graph.Get(node.index, to.index);
        if (!fromK.limited || fromK.tested) && (!kTo.limited || kTo.tested) {
          if fromK.speed == kTo.speed {
            continue;
          }
          var cell := graph.Get(me.index, to.index);
          if fromK.speed > kTo.speed {
            graph.Set(me.index, to.index, TestData(cell.limited, true, kTo.speed));
          } else {
            graph.Set(me.index, to.index, TestData(cell.limited, true, fromK.speed));
          }
          return true, node.index;
        }
      }
      forall x | 0 <= x < graph.n && x != me.index && x != to.index
        ensures !Rule(graph.View(), me.index, x, to.index)
      {
        var a := NodeOf(nodes, graph.n, x);
        assert a in nodes - rest;
      }
    }

    /** The fastest of a list of nodes. */
    method Fastest(missing: seq<Node<I>>) returns (best: Node<I>)
      requires |missing| > 0
      ensures best in missing && forall a | a in missing :: a.speed <= best.speed
    {
      best := missing[0];
      for i := 1 to |missing|
        invariant best in missing && forall j | 0 <= j < i :: missing[j].speed <= best.speed
      {
        if missing[i].speed >= best.speed {
          best := missing[i];
        }
      }
    }

    /** Decides whether one node needs a test; the rule may settle it. */
    method NeedsTest(me: Node<I>, to: Node<I>, sufficient: nat) returns (needed: bool)
      requires Valid() && me in nodes && to in nodes
      modifies graph
      ensures Valid() && graph.n == old(graph.n)
      ensures RowExtended(old(graph.View()), graph.View(), me.index)
      ensures OneCell(old(graph.View()), graph.View(), me.index, to.index)
      ensures needed <==> Missing(me, to, sufficient)
      ensures needed ==> Untold(old(graph.View()), me.index, to.index)
      ensures Cell(me.index, to.index) != old(Cell(me.index, to.index)) ==> MissingIn(old(graph.View()), me, to, sufficient)
    {
      ghost var before := graph.View();
      if me.index == to.index || !Missing(me, to, sufficient) {
        return false;
      }
      var ignoreTest, k := TriangleRule(me, to);
      if ignoreTest {
        RuleExtendsRow(before, before, me.index, k, to.index);
        before.PutAt(me.index, to.index, Extrapolated(before, me.index, k, to.index));
      }
      return !ignoreTest;
    }

    /** The nodes that still need a test: the loop over all nodes. */
    method MissingLinks(me: Node<I>, sufficient: nat) returns (missing: seq<Node<I>>)
      requires Valid() && me in nodes
      modifies graph
      ensures Valid() && graph.n == old(graph.n) && RowExtended(old(graph.View()), graph.View(), me.index)
      ensures forall a :: a in missing <==> a in nodes && MissingIn(graph.View(), me, a, sufficient)
      ensures OnlyMissingChanged(old(graph.View()), graph.View(), nodes, me, sufficient)
      ensures old(Closed(S(), graph.n)) ==> forall a | a in missing :: Untold(old(graph.View()), me.index, a.index)
    {
      ghost var before := graph.View();
      missing := [];
      var rest := nodes;
      while rest != {}
        invariant graph.Valid() && graph.n == before.n && rest <= nodes
        invariant LookedAt(before, graph.View(), nodes, rest, me, sufficient, missing)
        decreases |rest|
      {
        var to :| to in rest;
        ghost var m := graph.View();
        rest := rest - {to};
        var needed := NeedsTest(me, to, sufficient);
        LookAtOne(before, m, graph.View(), nodes, rest, me, to, sufficient, missing);
        if needed {
          missing := missing + [to];
        }
      }
    }

    /** The next node to test from me, or None when every speed from me is exact or sufficient. */
    method FindMissingFromMe(me: Node<I>, sufficient: nat) returns (r: Option<Node<I>>)
      requires Valid() && me in nodes
      modifies graph
      ensures Valid() && graph.n == old(graph.n) && RowExtended(old(graph.View()), graph.View(), me.index)
      ensures r.None? ==> forall to | to in nodes && to.index != me.index ::
        var c := graph.View().At(me.index, to.index);
        c.tested || c.speed >= sufficient || c.speed >= me.speed || c.speed >= to.speed
      ensures r.Some? ==> r.value in nodes && r.value.index != me.index
      ensures r.Some? ==>
        var c := graph.View().At(me.index, r.value.index);
        && !c.tested && c.speed < sufficient && c.speed < me.speed && c.speed < r.value.speed
        && forall to | to in nodes && MissingIn(graph.View(), me, to, sufficient) :: to.speed <= r.value.speed
      ensures r.Some? && old(Closed(S(), graph.n)) ==>
        forall k | 0 <= k < graph.n && k != me.index && k != r.value.index ::
          var a, b := old(graph.View()).At(me.index, k), old(graph.View()).At(k, r.value.index);
          (a.limited && !a.tested) || (b.limited && !b.tested) || a.speed == b.speed
      ensures forall to | to in nodes && graph.View().At(me.index, to.index) != old(graph.View()).At(me.index, to.index) ::
        var c := old(graph.View()).At(me.index, to.index);
        to.index != me.index && !c.tested && c.speed < sufficient && c.speed < me.speed && c.speed < to.speed
    {
      var missing := MissingLinks(me, sufficient);
      if |missing| > 0 {
        var node := Fastest(missing);
        ghost var before := old(graph.View());
        if old(Closed(S(), graph.n)) {
          assert Untold(before, me.index, node.index);
          UntoldSides(before, me.index, node.index);
        }
        return Some(node);
      }
      forall to | to in nodes
        ensures !MissingIn(graph.View(), me, to, sufficient)
      {
        assert to !in missing;
      }
      return None;
    }
  }

  lemma IndexKnown<I>(nodes: set<Node<I>>, n: nat, i: nat)
    requires Numbered(nodes, n)
    ensures i < n <==> exists a | a in nodes :: a.index == i
  {
    if i < n {
      assert HasIndex(nodes, i);
    }
  }

  lemma MeasuredKeepsFaithful<I(!new)>(bw: (I, I) -> nat, link: I -> nat, nodes: set<Node<I>>,
    before: Sym<TestData>, raised: Sym<TestData>, after: Sym<TestData>, from: Node<I>, to: Node<I>)
    requires Metric(bw, link) && before.Valid() && Numbered(nodes, before.n) && from in nodes && to in nodes && from != to
    requires forall a | a in nodes :: a.speed == link(a.info)
    requires Closed(SpeedsOf(before), before.n) && TableFaithful(before, TableOf(bw, nodes, before.n))
    requires raised == before.Put(from.index, to.index, TestData(false, true, bw(from.info, to.info)))
    requires FlagsFollow(LinkSpeeds(nodes, before.n), raised, after)
    requires Raises(SpeedsOf(before), before.n, from.index, to.index, bw(from.info, to.info)) ==>
      forall i, j | 0 <= i < after.n && 0 <= j < after.n ::
        SpeedsOf(after)(i, j) == Raised(SpeedsOf(before), from.index, to.index, bw(from.info, to.info))(i, j)
    ensures Closed(SpeedsOf(after), after.n) && TableFaithful(after, TableOf(bw, nodes, after.n))
  {
    var n, f, t, d := before.n, from.index, to.index, TableOf(bw, nodes, before.n);
    assert d(f, t) == bw(from.info, to.info) by {
      NodeOfUnique(nodes, n, from);
      NodeOfUnique(nodes, n, to);
    }
    TableClosed(bw, link, nodes, n);
    assert CellFaithful(before.At(f, t), d(f, t));
    assert Raises(SpeedsOf(before), n, f, t, d(f, t));
    forall i, j | 0 <= i < n && 0 <= j < n && i != j
      ensures d(i, j) <= Min(LinkSpeeds(nodes, n)[i], LinkSpeeds(nodes, n)[j])
    {
      TableWithinLinks(bw, link, nodes, n, i, j);
    }
    TestKeepsFaithful(LinkSpeeds(nodes, n), before, raised, after, d, f, t);
    RaisedClosed(SpeedsOf(before), n, f, t, d(f, t));
    SameTableClosed(SpeedsOf(after), Raised(SpeedsOf(before), f, t, d(f, t)), n);
  }

  lemma FlagsFollowSelf(links: seq<nat>, s: Sym<TestData>)
    requires s.Valid() && |links| == s.n
    ensures FlagsFollow(links, s, s)
  {
  }
}
