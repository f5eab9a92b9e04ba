/** Max-min closure of a table of speeds (cgraph/src/lib.rs, update_speeds), on values. */
module SpeedClosure {
  import opened Prelude

  /** Speeds between the nodes 0..n-1. */
  type Speeds = (nat, nat) -> nat

  /** usize::MAX on a 64-bit machine. */
  const MAX_SPEED: nat := 0xFFFF_FFFF_FFFF_FFFF

  /** The detour over k is no faster than the speed between i and j. */
  ghost predicate NoDetour(s: Speeds, i: nat, j: nat, k: nat) {
    s(i, j) >= Min(s(i, k), s(k, j))
  }

  ghost predicate Symmetric(s: Speeds, n: nat) {
    forall i, j | 0 <= i < n && 0 <= j < n :: s(i, j) == s(j, i)
  }

  /** No detour over a third node is faster, and a node reaches itself at full speed. */
  ghost predicate Closed(s: Speeds, n: nat) {
    && Symmetric(s, n)
    && (forall i | 0 <= i < n :: s(i, i) == MAX_SPEED)
    && (forall i, j | 0 <= i < n && 0 <= j < n :: s(i, j) <= MAX_SPEED)
    && (forall i, j, k | 0 <= i < n && 0 <= j < n && 0 <= k < n :: NoDetour(s, i, j, k))
  }

  ghost predicate AtMost(s: Speeds, t: Speeds, n: nat) {
    forall i, j | 0 <= i < n && 0 <= j < n :: s(i, j) <= t(i, j)
  }

  /** In a closed table the two smallest sides of a triangle are equal: when two sides differ, the third
      is the smaller of them. */
  lemma Isosceles(s: Speeds, n: nat, f: nat, k: nat, t: nat)
    requires Closed(s, n) && f < n && k < n && t < n
    requires s(f, k) != s(k, t)
    ensures s(f, t) == Min(s(f, k), s(k, t))
  {
    assert NoDetour(s, f, t, k) && NoDetour(s, k, t, f) && NoDetour(s, f, k, t);
  }

  // ----- Raising one entry -----

  /** The speed between i and j once the link between f and t is known to carry v. */
  ghost function Raised(s: Speeds, f: nat, t: nat, v: nat): Speeds {
    (i, j) => Max(s(i, j), Max(Min(s(i, f), Min(v, s(t, j))), Min(s(i, t), Min(v, s(f, j)))))
  }

  ghost predicate Raises(s: Speeds, n: nat, f: nat, t: nat, v: nat) {
    Closed(s, n) && f < n && t < n && f != t && s(f, t) <= v <= MAX_SPEED
  }

  /** s with the speed of one pair of nodes set to v. */
  ghost function WithEntry(s: Speeds, f: nat, t: nat, v: nat): Speeds {
    (i, j) => if (i == f && j == t) || (i == t && j == f) then v else s(i, j)
  }

  /** What it takes for the raised speed to reach w: one of three routes. */
  lemma RaisedReaches(s: Speeds, f: nat, t: nat, v: nat, i: nat, j: nat, w: nat)
    ensures Raised(s, f, t, v)(i, j) >= w <==>
      s(i, j) >= w || (v >= w && s(i, f) >= w && s(t, j) >= w) || (v >= w && s(i, t) >= w && s(f, j) >= w)
  {
  }

  lemma Via(s: Speeds, n: nat, i: nat, j: nat, k: nat, w: nat)
    requires Closed(s, n) && i < n && j < n && k < n
    ensures s(i, k) >= w && s(k, j) >= w ==> s(i, j) >= w
  {
    assert NoDetour(s, i, j, k);
  }

  lemma RaisedNoDetour(s: Speeds, n: nat, f: nat, t: nat, v: nat, i: nat, j: nat, k: nat)
    requires Closed(s, n) && f < n && t < n && i < n && j < n && k < n
    ensures NoDetour(Raised(s, f, t, v), i, j, k)
  {
    var r := Raised(s, f, t, v);
    var w := Min(r(i, k), r(k, j));
    RaisedReaches(s, f, t, v, i, k, w);
    RaisedReaches(s, f, t, v, k, j, w);
    RaisedReaches(s, f, t, v, i, j, w);
    Via(s, n, i, j, k, w);
    Via(s, n, i, f, k, w);
    Via(s, n, i, t, k, w);
    Via(s, n, f, j, k, w);
    Via(s, n, t, j, k, w);
    Via(s, n, i, j, f, w);
    Via(s, n, i, j, t, w);
  }

  lemma RaisedSymmetric(s: Speeds, n: nat, f: nat, t: nat, v: nat)
    requires Symmetric(s, n) && f < n && t < n
    ensures Symmetric(Raised(s, f, t, v), n)
  {
    var r := Raised(s, f, t, v);
    forall i, j | 0 <= i < n && 0 <= j < n
      ensures r(i, j) == r(j, i)
    {
      RaisedReaches(s, f, t, v, i, j, r(j, i));
      RaisedReaches(s, f, t, v, j, i, r(j, i));
      RaisedReaches(s, f, t, v, i, j, r(i, j));
      RaisedReaches(s, f, t, v, j, i, r(i, j));
      assert s(i, j) == s(j, i) && s(i, f) == s(f, i) && s(i, t) == s(t, i) && s(j, f) == s(f, j) && s(j, t) == s(t, j);
    }
  }

  lemma RaisedClosed(s: Speeds, n: nat, f: nat, t: nat, v: nat)
    requires Raises(s, n, f, t, v)
    ensures Closed(Raised(s, f, t, v), n)
  {
    RaisedSymmetric(s, n, f, t, v);
    forall i, j, k | 0 <= i < n && 0 <= j < n && 0 <= k < n
      ensures NoDetour(Raised(s, f, t, v), i, j, k)
    {
      RaisedNoDetour(s, n, f, t, v, i, j, k);
    }
  }

  lemma EntryBelowRaised(s: Speeds, n: nat, f: nat, t: nat, v: nat)
    requires Raises(s, n, f, t, v)
    ensures AtMost(WithEntry(s, f, t, v), Raised(s, f, t, v), n)
    ensures Raised(s, f, t, v)(f, t) == v
  {
    assert s(t, f) == s(f, t);
  }

  lemma RaisedBelowClosed(s: Speeds, n: nat, f: nat, t: nat, v: nat, d: Speeds, i: nat, j: nat)
    requires Raises(s, n, f, t, v) && Closed(d, n) && AtMost(s, d, n) && v <= d(f, t) && i < n && j < n
    ensures Raised(s, f, t, v)(i, j) <= d(i, j)
  {
    var w := Raised(s, f, t, v)(i, j);
    RaisedReaches(s, f, t, v, i, j, w);
    assert d(t, f) == d(f, t);
    assert s(i, j) <= d(i, j) && s(i, f) <= d(i, f) && s(i, t) <= d(i, t) && s(f, j) <= d(f, j) && s(t, j) <= d(t, j);
    Via(d, n, i, t, f, w);
    Via(d, n, i, j, t, w);
    Via(d, n, i, f, t, w);
    Via(d, n, i, j, f, w);
  }

  /** The raised table is the max-min closure of s with one entry raised: it is closed, it is above that
      table, and every closed table above it is above the closure. */
  lemma RaisedIsClosure(s: Speeds, n: nat, f: nat, t: nat, v: nat)
    requires Raises(s, n, f, t, v)
    ensures Closed(Raised(s, f, t, v), n)
    ensures AtMost(WithEntry(s, f, t, v), Raised(s, f, t, v), n)
    ensures forall d | Closed(d, n) && AtMost(WithEntry(s, f, t, v), d, n) :: AtMost(Raised(s, f, t, v), d, n)
  {
    RaisedClosed(s, n, f, t, v);
    EntryBelowRaised(s, n, f, t, v);
    forall d | Closed(d, n) && AtMost(WithEntry(s, f, t, v), d, n)
      ensures AtMost(Raised(s, f, t, v), d, n)
    {
      RaisedIsLeast(s, n, f, t, v, d);
    }
  }

  lemma RaisedIsLeast(s: Speeds, n: nat, f: nat, t: nat, v: nat, d: Speeds)
    requires Raises(s, n, f, t, v) && Closed(d, n) && AtMost(WithEntry(s, f, t, v), d, n)
    ensures AtMost(Raised(s, f, t, v), d, n)
  {
    EntryAbove(s, n, f, t, v, d);
    forall i, j | 0 <= i < n && 0 <= j < n
      ensures Raised(s, f, t, v)(i, j) <= d(i, j)
    {
      RaisedBelowClosed(s, n, f, t, v, d, i, j);
    }
  }

  lemma EntryAbove(s: Speeds, n: nat, f: nat, t: nat, v: nat, d: Speeds)
    requires Raises(s, n, f, t, v) && AtMost(WithEntry(s, f, t, v), d, n)
    ensures AtMost(s, d, n) && v <= d(f, t)
  {
    var e := WithEntry(s, f, t, v);
    assert e(f, t) <= d(f, t);
    forall i, j | 0 <= i < n && 0 <= j < n
      ensures s(i, j) <= d(i, j)
    {
      assert e(i, j) <= d(i, j) && s(t, f) == s(f, t);
    }
  }

  // ----- One cell of the pass -----

  /** The best of the speed between i and j and the detours over the first k nodes. */
  ghost function Best(m: Speeds, i: nat, j: nat, k: nat): nat {
    if k == 0 then m(i, j) else Max(Best(m, i, j, k - 1), Min(m(i, k - 1), m(k - 1, j)))
  }

  lemma {:induction false} BestAtLeast(m: Speeds, i: nat, j: nat, k: nat)
    ensures Best(m, i, j, k) >= m(i, j)
  {
    if k > 0 {
      BestAtLeast(m, i, j, k - 1);
    }
  }

  lemma {:induction false} BestCovers(m: Speeds, i: nat, j: nat, k: nat, x: nat)
    requires x < k
    ensures Best(m, i, j, k) >= Min(m(i, x), m(x, j))
    decreases k
  {
    if x < k - 1 {
      BestCovers(m, i, j, k - 1, x);
    }
  }

  lemma {:induction false} BestBelowClosed(m: Speeds, c: Speeds, n: nat, i: nat, j: nat, k: nat)
    requires Closed(c, n) && AtMost(m, c, n) && i < n && j < n && k <= n
    ensures Best(m, i, j, k) <= c(i, j)
  {
    if k > 0 {
      BestBelowClosed(m, c, n, i, j, k - 1);
      assert NoDetour(c, i, j, k - 1);
    }
  }

  /** `after` is `before` with the best speed in one cell. */
  ghost predicate Relaxed(before: Speeds, after: Speeds, n: nat, i: nat, j: nat) {
    && Symmetric(after, n)
    && after(i, j) == Best(before, i, j, n)
    && forall a, b | 0 <= a < n && 0 <= b < n && !((a == i && b == j) || (a == j && b == i)) :: after(a, b) == before(a, b)
  }

  // ----- The whole pass -----

  /** Cell (a, b) comes before (i, j) in the order of the pass. */
  ghost predicate Passed(a: nat, b: nat, i: nat, j: nat) { a < i || (a == i && b < j) }

  /** The cells that have their final speed once they have been passed: those below the diagonal and
      those in the columns of the raised entry. */
  ghost predicate Final(c: Speeds, m: Speeds, n: nat, f: nat, t: nat, i: nat, j: nat) {
    forall a, b | 0 <= a < n && 0 <= b < n && Passed(a, b, i, j) && (b < a || b == f || b == t) :: m(a, b) == c(a, b)
  }

  /** Progress of the pass when it is about to relax cell (i, j): s had its entry at f, t raised to v. */
  ghost predicate Progress(s: Speeds, m: Speeds, n: nat, f: nat, t: nat, v: nat, i: nat, j: nat) {
    && Raises(s, n, f, t, v) && Symmetric(m, n) && m(f, t) == v
    && AtMost(s, m, n) && AtMost(m, Raised(s, f, t, v), n)
    && Final(Raised(s, f, t, v), m, n, f, t, i, j)
  }

  lemma ProgressStarts(s: Speeds, m: Speeds, n: nat, f: nat, t: nat, v: nat)
    requires Raises(s, n, f, t, v)
    requires forall i, j | 0 <= i < n && 0 <= j < n :: m(i, j) == WithEntry(s, f, t, v)(i, j)
    ensures Progress(s, m, n, f, t, v, 0, 0)
  {
    EntryBelowRaised(s, n, f, t, v);
    var c := Raised(s, f, t, v);
    forall i, j | 0 <= i < n && 0 <= j < n
      ensures s(i, j) <= m(i, j) <= c(i, j) && m(i, j) == m(j, i)
    {
      assert WithEntry(s, f, t, v)(i, j) <= c(i, j) && s(f, t) == s(t, f) && s(i, j) == s(j, i);
    }
  }

  /** The far end of a new detour, from f to row j, is already final. */
  lemma FirstEndIsFinal(s: Speeds, m: Speeds, n: nat, f: nat, t: nat, v: nat, i: nat, j: nat, w: nat)
    requires Progress(s, m, n, f, t, v, i, j) && i < n && j < n && (j < i || j == f || j == t)
    ensures v >= w && s(t, j) >= w && j != f ==> m(f, j) >= w
  {
    assert m(f, j) == m(j, f) && s(t, j) == s(j, t);
    if j < i {
      assert Passed(j, f, i, j);
      RaisedReaches(s, f, t, v, j, f, w);
      assert s(f, f) == MAX_SPEED;
    }
  }

  lemma SecondEndIsFinal(s: Speeds, m: Speeds, n: nat, f: nat, t: nat, v: nat, i: nat, j: nat, w: nat)
    requires Progress(s, m, n, f, t, v, i, j) && i < n && j < n && (j < i || j == f || j == t)
    ensures v >= w && s(f, j) >= w && j != t ==> m(t, j) >= w
  {
    assert m(t, j) == m(j, t) && s(f, j) == s(j, f) && m(t, f) == m(f, t);
    if j < i {
      assert Passed(j, t, i, j);
      RaisedReaches(s, f, t, v, j, t, w);
      assert s(t, t) == MAX_SPEED;
    }
  }

  /** A cell below the diagonal, or in column f or t, gets its final speed: row j is done when j < i, so
      one end of every new detour is already final. */
  lemma BestReachesRaised(s: Speeds, m: Speeds, n: nat, f: nat, t: nat, v: nat, i: nat, j: nat)
    requires Progress(s, m, n, f, t, v, i, j) && i < n && j < n && (j < i || j == f || j == t)
    ensures Best(m, i, j, n) >= Raised(s, f, t, v)(i, j)
  {
    var c := Raised(s, f, t, v);
    var w := c(i, j);
    RaisedReaches(s, f, t, v, i, j, w);
    BestAtLeast(m, i, j, n);
    BestCovers(m, i, j, n, f);
    BestCovers(m, i, j, n, t);
    assert s(i, j) <= m(i, j) && s(i, f) <= m(i, f) && s(i, t) <= m(i, t);
    FirstEndIsFinal(s, m, n, f, t, v, i, j, w);
    SecondEndIsFinal(s, m, n, f, t, v, i, j, w);
  }

  lemma FinalStep(c: Speeds, m: Speeds, m': Speeds, n: nat, f: nat, t: nat, i: nat, j: nat)
    requires Final(c, m, n, f, t, i, j) && AtMost(m, m', n) && AtMost(m', c, n)
    requires i < n && j < n && (j < i || j == f || j == t ==> m'(i, j) >= c(i, j))
    ensures Final(c, m', n, f, t, i, j + 1)
  {
    forall a, b | 0 <= a < n && 0 <= b < n && Passed(a, b, i, j + 1) && (b < a || b == f || b == t)
      ensures m'(a, b) == c(a, b)
    {
      assert m(a, b) <= m'(a, b) <= c(a, b);
      if Passed(a, b, i, j) {
        assert m(a, b) == c(a, b);
      }
    }
  }

  lemma BoundsStep(m: Speeds, m': Speeds, c: Speeds, n: nat, i: nat, j: nat)
    requires Symmetric(m, n) && Symmetric(c, n) && AtMost(m, c, n) && Relaxed(m, m', n, i, j) && i < n && j < n
    requires m(i, j) <= m'(i, j) <= c(i, j)
    ensures AtMost(m, m', n) && AtMost(m', c, n)
  {
    forall a, b | 0 <= a < n && 0 <= b < n
      ensures m(a, b) <= m'(a, b) <= c(a, b)
    {
      assert m(a, b) <= c(a, b);
      if a == j && b == i {
        assert m'(a, b) == m'(i, j) && m(a, b) == m(i, j) && c(a, b) == c(i, j);
      }
    }
  }

  lemma AtMostTransitive(a: Speeds, b: Speeds, c: Speeds, n: nat)
    requires AtMost(a, b, n) && AtMost(b, c, n)
    ensures AtMost(a, c, n)
  {
    forall i, j | 0 <= i < n && 0 <= j < n
      ensures a(i, j) <= c(i, j)
    {
      assert a(i, j) <= b(i, j) <= c(i, j);
    }
  }

  lemma ProgressStep(s: Speeds, m: Speeds, m': Speeds, n: nat, f: nat, t: nat, v: nat, i: nat, j: nat)
    requires Progress(s, m, n, f, t, v, i, j) && i < n && j < n
    requires Relaxed(m, m', n, i, j)
    ensures Progress(s, m', n, f, t, v, i, j + 1)
  {
    var c := Raised(s, f, t, v);
    RaisedClosed(s, n, f, t, v);
    EntryBelowRaised(s, n, f, t, v);
    BestBelowClosed(m, c, n, i, j, n);
    BestAtLeast(m, i, j, n);
    BoundsStep(m, m', c, n, i, j);
    AtMostTransitive(s, m, m', n);
    if j < i || j == f || j == t {
      BestReachesRaised(s, m, n, f, t, v, i, j);
    }
    FinalStep(c, m, m', n, f, t, i, j);
    assert m(f, t) <= m'(f, t) <= c(f, t);
  }

  lemma ProgressRow(s: Speeds, m: Speeds, n: nat, f: nat, t: nat, v: nat, i: nat)
    requires Progress(s, m, n, f, t, v, i, n) && i < n
    ensures Progress(s, m, n, f, t, v, i + 1, 0)
  {
    forall a, b | 0 <= a < n && 0 <= b < n && Passed(a, b, i + 1, 0)
      ensures Passed(a, b, i, n)
    {
    }
  }

  /** One pass in the order i, j, k yields exactly the closure of the raised table. */
  lemma PassYieldsClosure(s: Speeds, m: Speeds, n: nat, f: nat, t: nat, v: nat, i: nat, j: nat)
    requires Progress(s, m, n, f, t, v, n, 0) && i < n && j < n
    ensures m(i, j) == Raised(s, f, t, v)(i, j)
  {
    var c := Raised(s, f, t, v);
    if i == j {
      assert s(i, i) == MAX_SPEED;
      assert s(i, i) <= m(i, i) <= c(i, i);
    } else {
      RaisedSymmetric(s, n, f, t, v);
      assert m(i, j) == m(j, i) && c(i, j) == c(j, i);
      assert Passed(i, j, n, 0) && Passed(j, i, n, 0);
    }
  }

  lemma SameTableClosed(m: Speeds, c: Speeds, n: nat)
    requires Closed(c, n) && forall i, j | 0 <= i < n && 0 <= j < n :: m(i, j) == c(i, j)
    ensures Closed(m, n)
  {
    forall i, j, k | 0 <= i < n && 0 <= j < n && 0 <= k < n
      ensures NoDetour(m, i, j, k)
    {
      assert NoDetour(c, i, j, k);
    }
  }

  /** After the pass the table is the closure, and closed. */
  lemma PassCloses(s: Speeds, m: Speeds, n: nat, f: nat, t: nat, v: nat)
    requires Progress(s, m, n, f, t, v, n, 0)
    ensures forall i, j | 0 <= i < n && 0 <= j < n :: m(i, j) == Raised(s, f, t, v)(i, j)
    ensures Closed(m, n)
  {
    forall i, j | 0 <= i < n && 0 <= j < n
      ensures m(i, j) == Raised(s, f, t, v)(i, j)
    {
      PassYieldsClosure(s, m, n, f, t, v, i, j);
    }
    RaisedClosed(s, n, f, t, v);
    SameTableClosed(m, Raised(s, f, t, v), n);
  }
}
