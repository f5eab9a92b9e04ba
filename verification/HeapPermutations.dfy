/** The iterative Heap enumeration of emulation/src/orchestrator.rs: where every exchange leaves the
    vector, in closed form, and why no permutation is skipped. */
module HeapPermutations {

  ghost predicate IsPermutation(p: seq<nat>) {
    && (forall i | 0 <= i < |p| :: p[i] < |p|)
    && (forall i, j | 0 <= i < j < |p| :: p[i] != p[j])
  }

  function Swap<T>(s: seq<T>, i: nat, j: nat): (r: seq<T>)
    requires i < |s| && j < |s|
    ensures |r| == |s|
  {
    s[i := s[j]][j := s[i]]
  }

  lemma SwapKeepsPermutation(p: seq<nat>, i: nat, j: nat)
    requires IsPermutation(p) && i < |p| && j < |p|
    ensures IsPermutation(Swap(p, i, j))
  {
  }

  /** The position that level m exchanges with position m on its (c+1)-st exchange. */
  function ExchangePosition(m: nat, c: nat): nat { if m % 2 == 0 then 0 else c }

  // ----- Closed forms -----

  // For even m, level m moves every element one step along one cycle of the positions 0..m:
  // 0, m-1, m-2, 1, 2, ..., m-3, m. OnCycle and FromCycle translate positions to cycle steps and back.

  function OnCycle(m: nat, j: nat): (i: nat)
    requires m >= 2 && j <= m
    ensures i <= m && FromCycle(m, i) == j
  {
    if j == m then m else if j == 0 then 0 else if j == m - 1 then 1 else if j == m - 2 then 2 else j + 2
  }

  function FromCycle(m: nat, i: nat): (j: nat)
    requires m >= 2 && i <= m
    ensures j <= m
  {
    if i == m then m else if i == 0 then 0 else if i == 1 then m - 1 else if i == 2 then m - 2 else i - 2
  }

  /** Which element of the block's start vector is at position j <= m when level m has made t exchanges. */
  function RoundSource(m: nat, t: nat, j: nat): (s: nat)
    requires 1 <= m && t <= m && j <= m
    ensures s <= m
  {
    if m % 2 == 0 then
      var i := OnCycle(m, j);
      FromCycle(m, if i >= t then i - t else i + m + 1 - t)
    else if t == 0 then j
    else if m == 1 then 1 - j
    else if t == m then
      if j == 0 then m else if j == 1 then m - 1 else if j == m then 0 else j - 1
    else if j == m then
      if t == 1 then m - 1 else t - 1
    else if j == 0 then
      if t % 2 == 1 then m else 0
    else if j == m - 1 then
      if t % 2 == 1 then 0 else m
    else if t >= 2 && j == 1 then m - 1
    else if j < t then j - 1
    else j
  }

  /** The vector at the start of sub-block t of the block of positions 0..m that starts at b. */
  function Round(m: nat, b: seq<nat>, t: nat): (r: seq<nat>)
    requires 1 <= m < |b| && t <= m
    ensures |r| == |b|
  {
    seq(|b|, j requires 0 <= j < |b| => if j <= m then b[RoundSource(m, t, j)] else b[j])
  }

  function EndSource(m: nat, j: nat): (s: nat)
    requires 1 <= m && j < m
    ensures s < m
  {
    if m % 2 == 1 then
      if j == 0 then m - 1 else if j == m - 1 then 0 else j
    else if m == 2 then 1 - j
    else if j == 0 then m - 3
    else if j == 1 then m - 2
    else if j == m - 2 then m - 1
    else if j == m - 1 then 0
    else j - 1
  }

  /** The vector when all arrangements of positions 0..m-1 have been made, starting from b. */
  function End(m: nat, b: seq<nat>): (r: seq<nat>)
    requires 1 <= m <= |b|
    ensures |r| == |b|
  {
    seq(|b|, j requires 0 <= j < |b| => if j < m then b[EndSource(m, j)] else b[j])
  }

  lemma EndOfOne(b: seq<nat>)
    requires |b| >= 1
    ensures End(1, b) == b
  {
  }

  lemma RoundZero(m: nat, b: seq<nat>)
    requires 1 <= m < |b|
    ensures Round(m, b, 0) == b
  {
  }

  /** Where the element at position j <= m was before the exchange of level m at count t. */
  function Exchanged(m: nat, t: nat, j: nat): nat {
    if j == m then ExchangePosition(m, t) else if j == ExchangePosition(m, t) then m else j
  }

  function EndOrTop(m: nat, j: nat): (s: nat)
    requires 1 <= m && j <= m
    ensures s <= m
  {
    if j == m then m else EndSource(m, j)
  }

  lemma ExchangeIndexEven(m: nat, t: nat, j: nat)
    requires 2 <= m && m % 2 == 0 && t < m && j <= m
    ensures RoundSource(m, t, EndOrTop(m, Exchanged(m, t, j))) == RoundSource(m, t + 1, j)
  {
    var x := EndOrTop(m, Exchanged(m, t, j));
    assert OnCycle(m, x) == if OnCycle(m, j) == 0 then m else OnCycle(m, j) - 1;
  }

  lemma ExchangeIndexOdd(m: nat, t: nat, j: nat)
    requires 1 <= m && m % 2 == 1 && t < m && j <= m
    ensures RoundSource(m, t, EndOrTop(m, Exchanged(m, t, j))) == RoundSource(m, t + 1, j)
  {
  }

  /** One exchange takes the end of one sub-block to the start of the next. */
  lemma ExchangeStartsNextRound(m: nat, b: seq<nat>, t: nat)
    requires 1 <= m < |b| && t < m
    ensures Swap(End(m, Round(m, b, t)), ExchangePosition(m, t), m) == Round(m, b, t + 1)
  {
    var e := End(m, Round(m, b, t));
    var s := Swap(e, ExchangePosition(m, t), m);
    var r := Round(m, b, t + 1);
    forall j | 0 <= j < |b|
      ensures s[j] == r[j]
    {
      if j <= m {
        if m % 2 == 0 {
          ExchangeIndexEven(m, t, j);
        } else {
          ExchangeIndexOdd(m, t, j);
        }
        assert s[j] == e[Exchanged(m, t, j)];
      }
    }
  }

  /** The last sub-block of level m ends where the block of positions 0..m ends. */
  lemma LastRoundEndsBlock(m: nat, b: seq<nat>)
    requires 1 <= m < |b|
    ensures End(m, Round(m, b, m)) == End(m + 1, b)
  {
    var e := End(m, Round(m, b, m));
    var r := End(m + 1, b);
    forall j | 0 <= j < |b|
      ensures e[j] == r[j]
    {
    }
  }

  /** Over its m+1 sub-blocks, level m puts every element of the block at position m. */
  lemma EveryElementReachesTop(m: nat, j: nat) returns (t: nat)
    requires 1 <= m && j <= m
    ensures t <= m && RoundSource(m, t, m) == j
  {
    if m % 2 == 0 {
      t := m - OnCycle(m, j);
    } else if j == m {
      t := 0;
    } else if j == 0 {
      t := m;
    } else if j == m - 1 {
      t := 1;
    } else {
      t := j + 1;
    }
  }

  // ----- Termination: the counters are the digits of a number in the factorial base -----

  ghost function Factorial(n: nat): (f: nat)
    ensures f >= 1
  {
    if n == 0 then 1 else n * Factorial(n - 1)
  }

  ghost function Digits(counter: seq<nat>, i: nat): nat
    requires i <= |counter|
    decreases |counter| - i
  {
    if i == |counter| then 0 else counter[i] * Factorial(i) + Digits(counter, i + 1)
  }

  /** The checks made when the loop is at level `index`. */
  ghost function ChecksMade(counter: seq<nat>, index: nat): nat
    requires index <= |counter|
  {
    Digits(counter, index) + Factorial(index)
  }

  lemma {:induction false} ChecksBounded(counter: seq<nat>, index: nat)
    requires index <= |counter| && forall m | index <= m < |counter| :: counter[m] <= m
    ensures ChecksMade(counter, index) <= Factorial(|counter|)
    decreases |counter| - index
  {
    if index < |counter| {
      ChecksBounded(counter, index + 1);
      assert counter[index] * Factorial(index) <= index * Factorial(index) by {
        MulMono(counter[index], index, Factorial(index));
      }
      assert Factorial(index + 1) == index * Factorial(index) + Factorial(index);
    }
  }

  lemma MulMono(a: nat, b: nat, c: nat)
    requires a <= b
    ensures a * c <= b * c
  {
  }

  lemma {:induction false} DigitsAbove(c: seq<nat>, d: seq<nat>, i: nat)
    requires |c| == |d| && i <= |c| && forall m | i <= m < |c| :: c[m] == d[m]
    ensures Digits(c, i) == Digits(d, i)
    decreases |c| - i
  {
    if i < |c| {
      DigitsAbove(c, d, i + 1);
    }
  }

  lemma {:induction false} DigitsZero(c: seq<nat>, i: nat, k: nat)
    requires k <= i <= |c| && forall m | k <= m < i :: c[m] == 0
    ensures Digits(c, k) == Digits(c, i)
    decreases i - k
  {
    if k < i {
      DigitsZero(c, i, k + 1);
    }
  }

  lemma ExchangeAddsOneCheck(c: seq<nat>, i: nat)
    requires 1 <= i < |c| && forall m | 1 <= m < i :: c[m] == 0
    ensures ChecksMade(c[i := c[i] + 1], 1) == ChecksMade(c, i) + 1
  {
    var d := c[i := c[i] + 1];
    DigitsZero(d, i, 1);
    DigitsAbove(c, d, i + 1);
    OneMore(c[i], Factorial(i));
    OneMore(0, Factorial(0));
  }

  lemma OneMore(a: nat, f: nat)
    ensures (a + 1) * f == a * f + f
  {
  }

  lemma CarryKeepsChecks(c: seq<nat>, i: nat)
    requires 1 <= i < |c| && c[i] == i
    ensures ChecksMade(c[i := 0], i + 1) == ChecksMade(c, i)
  {
    DigitsAbove(c, c[i := 0], i + 1);
    OneMore(i, Factorial(i));
  }

  // ----- The loop as a machine -----

  /** The vector 0..n-1. */
  function Identity(n: nat): (p: seq<nat>)
    ensures |p| == n && IsPermutation(p) && forall i | 0 <= i < n :: p[i] == i
  {
    seq(n, i => i)
  }

  /** The variables of the loop: exchange counters, level, and the current vector. */
  datatype Heap = Heap(counter: seq<nat>, index: nat, current: seq<nat>) {
    ghost predicate Shape(n: nat) {
      && |counter| == |current| == n && 1 <= index <= n && IsPermutation(current)
      && (forall m | 1 <= m < n :: counter[m] <= m)
      && (forall m | 1 <= m < index :: counter[m] == 0)
    }

    /** One pass of the loop body. */
    ghost function Step(): (h: Heap)
      requires Shape(|current|) && index < |current|
      ensures h.Shape(|current|)
    {
      if counter[index] < index then
        var x := ExchangePosition(index, counter[index]);
        SwapKeepsPermutation(current, x, index);
        Heap(counter[index := counter[index] + 1], 1, Swap(current, x, index))
      else
        Heap(counter[index := 0], index + 1, current)
    }

    /** How many permutations have been checked. */
    ghost function Checks(): nat
      requires index <= |counter|
    {
      ChecksMade(counter, index)
    }
  }

  /** The state after t passes of the loop over n entries. */
  ghost function Run(n: nat, t: nat): (h: Heap)
    requires n >= 1
    ensures h.Shape(n)
  {
    if t == 0 then Heap(seq(n, _ => 0), 1, Identity(n))
    else
      var h := Run(n, t - 1);
      if h.index < n then h.Step() else h
  }

  lemma RunStarts(n: nat)
    requires n >= 1
    ensures Run(n, 0) == Heap(seq(n, _ => 0), 1, Identity(n)) && Run(n, 0).Checks() == 1
  {
    DigitsZero(Run(n, 0).counter, n, 1);
  }

  /** The two branches of the loop: an exchange adds one check and a carry adds none; n! checks are
      never exceeded. */
  lemma RunStep(n: nat, t: nat, c: seq<nat>, i: nat, p: seq<nat>)
    requires n >= 1 && Run(n, t) == Heap(c, i, p) && i < n
    ensures c[i] < i ==>
      && Run(n, t + 1) == Heap(c[i := c[i] + 1], 1, Swap(p, ExchangePosition(i, c[i]), i))
      && Run(n, t + 1).Checks() == Run(n, t).Checks() + 1
    ensures c[i] >= i ==>
      && Run(n, t + 1) == Heap(c[i := 0], i + 1, p)
      && Run(n, t + 1).Checks() == Run(n, t).Checks()
    ensures Run(n, t + 1).Checks() <= Factorial(n)
  {
    if c[i] < i {
      ExchangeAddsOneCheck(c, i);
    } else {
      CarryKeepsChecks(c, i);
    }
    var h := Run(n, t + 1);
    ChecksBounded(h.counter, h.index);
  }

  // ----- Completeness -----

  ghost function Range(n: nat): (s: set<nat>)
    ensures |s| == n
    ensures forall i :: i in s <==> 0 <= i < n
  {
    if n == 0 then {} else Range(n - 1) + {n - 1}
  }

  ghost function Elements(p: seq<nat>): (s: set<nat>)
    ensures forall x :: x in s <==> x in p
    ensures (forall i, j | 0 <= i < j < |p| :: p[i] != p[j]) ==> |s| == |p|
  {
    if p == [] then {} else
      var q := p[..|p| - 1];
      assert p == q + [p[|p| - 1]];
      Elements(q) + {p[|p| - 1]}
  }

  lemma SubsetOfSameSize<T>(a: set<T>, b: set<T>)
    requires a <= b && |a| == |b|
    ensures a == b
  {
    if x :| x in b && x !in a {
      assert |b - {x}| == |b| - 1;
      SubsetSize(a, b - {x});
    }
  }

  lemma {:induction false} SubsetSize<T>(a: set<T>, b: set<T>)
    requires a <= b
    ensures |a| <= |b|
  {
    if x :| x in a {
      SubsetSize(a - {x}, b - {x});
    }
  }

  /** A permutation of n entries takes every value below n. */
  lemma PermutationIsOnto(p: seq<nat>, v: nat) returns (i: nat)
    requires IsPermutation(p) && v < |p|
    ensures i < |p| && p[i] == v
  {
    assert Elements(p) <= Range(|p|);
    SubsetOfSameSize(Elements(p), Range(|p|));
    assert v in Elements(p);
    i :| 0 <= i < |p| && p[i] == v;
  }

  ghost predicate AgreeFrom(p: seq<nat>, q: seq<nat>, k: nat) {
    |p| == |q| && forall j | k <= j < |q| :: p[j] == q[j]
  }

  /** Permutations that agree above position i take at position i a value from the same block. */
  lemma TopComesFromBlock(p: seq<nat>, b: seq<nat>, i: nat) returns (j: nat)
    requires IsPermutation(p) && IsPermutation(b) && AgreeFrom(p, b, i + 1) && i < |p|
    ensures j <= i && p[i] == b[j]
  {
    j := PermutationIsOnto(b, p[i]);
  }

  ghost predicate BlockRejected(ok: seq<nat> -> bool, b: seq<nat>, k: nat) {
    forall p | IsPermutation(p) && AgreeFrom(p, b, k) :: !ok(p)
  }

  /** p is in sub-block t of the block of positions 0..m that starts at b. */
  ghost predicate InSubBlock(p: seq<nat>, b: seq<nat>, m: nat, t: nat)
    requires 1 <= m < |b| && t <= m
  {
    AgreeFrom(p, b, m + 1) && p[m] == b[RoundSource(m, t, m)]
  }

  ghost predicate SubBlocksRejected(ok: seq<nat> -> bool, b: seq<nat>, m: nat, count: nat)
    requires 1 <= m < |b| && count <= m
  {
    forall p, t: nat | t < count && IsPermutation(p) && InSubBlock(p, b, m, t) :: !ok(p)
  }

  /** A state of the loop with its history: the vector at which the block of each level started. */
  datatype Search = Search(heap: Heap, start: seq<seq<nat>>) {
    ghost predicate Shape() {
      && heap.Shape(|heap.current|) && |start| == |heap.current| + 1
      && forall m | 1 <= m < |start| :: |start[m]| == |heap.current| && IsPermutation(start[m])
    }

    ghost predicate Linked()
      requires Shape()
    {
      heap.current == End(heap.index, start[heap.index]) && forall m | heap.index <= m < |heap.current| :: LinkedAt(m)
    }

    /** Level m's current sub-block started where its exchanges lead from its block's start. */
    ghost predicate LinkedAt(m: nat)
      requires Shape() && 1 <= m < |heap.current|
    {
      start[m] == Round(m, start[m + 1], heap.counter[m])
    }

    ghost predicate Rejected(ok: seq<nat> -> bool)
      requires Shape()
    {
      BlockRejected(ok, start[heap.index], heap.index) && forall m | heap.index <= m < |heap.current| :: RejectedAt(ok, m)
    }

    ghost predicate RejectedAt(ok: seq<nat> -> bool, m: nat)
      requires Shape() && 1 <= m < |heap.current|
    {
      SubBlocksRejected(ok, start[m + 1], m, heap.counter[m])
    }

    ghost predicate Valid(ok: seq<nat> -> bool) {
      Shape() && Linked() && Rejected(ok)
    }
  }

  lemma RoundTail(m: nat, b: seq<nat>, t: nat)
    requires 1 <= m < |b| && t <= m
    ensures AgreeFrom(Round(m, b, t), b, m + 1) && Round(m, b, t)[m] == b[RoundSource(m, t, m)]
  {
  }

  lemma OnlyItself(ok: seq<nat> -> bool, a: seq<nat>)
    requires IsPermutation(a) && |a| >= 1 && !ok(a)
    ensures BlockRejected(ok, a, 1)
  {
    forall p | IsPermutation(p) && AgreeFrom(p, a, 1)
      ensures !ok(p)
    {
      var j := TopComesFromBlock(p, a, 0);
      assert p == a;
    }
  }

  /** Rejecting the current sub-block extends the rejected sub-blocks of its level. */
  lemma SubBlockDone(ok: seq<nat> -> bool, b: seq<nat>, m: nat, t: nat)
    requires 1 <= m < |b| && t <= m
    requires BlockRejected(ok, Round(m, b, t), m)
    ensures forall p | IsPermutation(p) && InSubBlock(p, b, m, t) :: !ok(p)
  {
    RoundTail(m, b, t);
    forall p | IsPermutation(p) && InSubBlock(p, b, m, t)
      ensures !ok(p)
    {
      assert AgreeFrom(p, Round(m, b, t), m);
    }
  }

  lemma SearchStart(ok: seq<nat> -> bool, s: Search)
    requires s.Shape() && s.heap == Run(|s.heap.current|, 0) && !ok(s.heap.current)
    requires s.start == seq(|s.heap.current| + 1, _ => s.heap.current)
    ensures s.Valid(ok)
  {
    EndOfOne(s.heap.current);
    OnlyItself(ok, s.heap.current);
    forall m | 1 <= m < |s.heap.current|
      ensures s.LinkedAt(m)
    {
      RoundZero(m, s.heap.current);
    }
  }

  /** s' is s after an exchange: levels up to the exchanging one start anew. */
  ghost predicate Exchanges(s: Search, s': Search) {
    && s.Shape() && s'.Shape() && s.heap.index < |s.heap.current| && s.heap.counter[s.heap.index] < s.heap.index
    && s.heap.current == End(s.heap.index, s.start[s.heap.index])
    && s'.heap == s.heap.Step()
    && forall m | 1 <= m < |s.start| :: s'.start[m] == if m <= s.heap.index then s'.heap.current else s.start[m]
  }

  lemma ExchangeLinkedBelow(s: Search, s': Search, m: nat)
    requires Exchanges(s, s') && 1 <= m < s.heap.index
    ensures s'.LinkedAt(m)
  {
    RoundZero(m, s'.heap.current);
    assert s'.start[m] == s'.heap.current && s'.start[m + 1] == s'.heap.current && s'.heap.counter[m] == 0;
  }

  lemma ExchangedIsNextRound(m: nat, b: seq<nat>, t: nat, start: seq<nat>, current: seq<nat>, next: seq<nat>, count: nat)
    requires 1 <= m < |b| && t < m && start == Round(m, b, t) && current == End(m, start)
    requires next == Swap(current, ExchangePosition(m, t), m) && count == t + 1
    ensures next == Round(m, b, count)
  {
    ExchangeStartsNextRound(m, b, t);
  }

  /** What an exchange does at its own level. */
  lemma ExchangeEffect(s: Search, s': Search)
    requires Exchanges(s, s')
    ensures var i := s.heap.index;
      && s'.start[i] == s'.heap.current && s'.start[i + 1] == s.start[i + 1]
      && s'.heap.counter[i] == s.heap.counter[i] + 1
      && s'.heap.current == Swap(s.heap.current, ExchangePosition(i, s.heap.counter[i]), i)
  {
  }

  lemma ExchangeLinkedAtLevel(s: Search, s': Search)
    requires Exchanges(s, s') && s.LinkedAt(s.heap.index)
    ensures s'.LinkedAt(s.heap.index)
  {
    var i := s.heap.index;
    ExchangeEffect(s, s');
    ExchangedIsNextRound(i, s.start[i + 1], s.heap.counter[i], s.start[i], s.heap.current, s'.start[i], s'.heap.counter[i]);
  }

  lemma ExchangeLinkedAbove(s: Search, s': Search, m: nat)
    requires Exchanges(s, s') && s.Linked() && s.heap.index < m < |s.heap.current|
    ensures s'.LinkedAt(m)
  {
    assert s.LinkedAt(m);
    assert s'.start[m] == s.start[m] && s'.start[m + 1] == s.start[m + 1] && s'.heap.counter[m] == s.heap.counter[m];
  }

  lemma ExchangeLinked(s: Search, s': Search)
    requires Exchanges(s, s') && s.Linked()
    ensures s'.Linked()
  {
    EndOfOne(s'.heap.current);
    forall m | 1 <= m < |s.heap.current|
      ensures s'.LinkedAt(m)
    {
      if m < s.heap.index {
        ExchangeLinkedBelow(s, s', m);
      } else if m == s.heap.index {
        assert s.LinkedAt(m);
        ExchangeLinkedAtLevel(s, s');
      } else {
        ExchangeLinkedAbove(s, s', m);
      }
    }
  }

  lemma OneMoreSubBlock(ok: seq<nat> -> bool, b: seq<nat>, m: nat, t: nat)
    requires 1 <= m < |b| && t < m
    requires SubBlocksRejected(ok, b, m, t) && BlockRejected(ok, Round(m, b, t), m)
    ensures SubBlocksRejected(ok, b, m, t + 1)
  {
    SubBlockDone(ok, b, m, t);
  }

  lemma ExchangeRejectedAt(ok: seq<nat> -> bool, s: Search, s': Search, m: nat)
    requires Exchanges(s, s') && s.Valid(ok) && 1 <= m < |s.heap.current|
    ensures s'.RejectedAt(ok, m)
  {
    if m < s.heap.index {
      assert s'.heap.counter[m] == 0;
    } else if m == s.heap.index {
      assert s.LinkedAt(m) && s.RejectedAt(ok, m);
      ExchangeRejectedAtLevel(ok, s, s');
    } else {
      assert s'.start[m + 1] == s.start[m + 1] && s'.heap.counter[m] == s.heap.counter[m] && s.RejectedAt(ok, m);
    }
  }

  lemma ExchangeRejectedAtLevel(ok: seq<nat> -> bool, s: Search, s': Search)
    requires Exchanges(s, s') && s.LinkedAt(s.heap.index) && s.RejectedAt(ok, s.heap.index)
    requires BlockRejected(ok, s.start[s.heap.index], s.heap.index)
    ensures s'.RejectedAt(ok, s.heap.index)
  {
    var m := s.heap.index;
    ExchangeEffect(s, s');
    OneMoreSubBlock(ok, s.start[m + 1], m, s.heap.counter[m]);
  }

  /** The branch that exchanges two entries: once the new vector is rejected too, the state is valid. */
  lemma SearchExchange(ok: seq<nat> -> bool, s: Search, s': Search)
    requires Exchanges(s, s') && s.Valid(ok) && !ok(s'.heap.current)
    ensures s'.Valid(ok)
  {
    ExchangeLinked(s, s');
    OnlyItself(ok, s'.heap.current);
    forall m | 1 <= m < |s.heap.current|
      ensures s'.RejectedAt(ok, m)
    {
      ExchangeRejectedAt(ok, s, s', m);
    }
  }

  /** A level that has made all its exchanges has rejected its whole block. */
  lemma BlockDone(ok: seq<nat> -> bool, b: seq<nat>, m: nat)
    requires 1 <= m < |b| && IsPermutation(b)
    requires BlockRejected(ok, Round(m, b, m), m) && SubBlocksRejected(ok, b, m, m)
    ensures BlockRejected(ok, b, m + 1)
  {
    SubBlockDone(ok, b, m, m);
    forall p | IsPermutation(p) && AgreeFrom(p, b, m + 1)
      ensures !ok(p)
    {
      var j := TopComesFromBlock(p, b, m);
      var t := EveryElementReachesTop(m, j);
      assert InSubBlock(p, b, m, t);
    }
  }

  /** The branch that resets a counter and goes one level up. */
  lemma SearchCarry(ok: seq<nat> -> bool, s: Search, s': Search)
    requires s.Valid(ok) && s.heap.index < |s.heap.current| && s.heap.counter[s.heap.index] >= s.heap.index
    requires s' == Search(s.heap.Step(), s.start)
    ensures s'.Valid(ok)
  {
    var i := s.heap.index;
    assert s.LinkedAt(i) && s.RejectedAt(ok, i);
    LastRoundEndsBlock(i, s.start[i + 1]);
    BlockDone(ok, s.start[i + 1], i);
    forall m | i + 1 <= m < |s.heap.current|
      ensures s'.LinkedAt(m) && s'.RejectedAt(ok, m)
    {
      assert s.LinkedAt(m) && s.RejectedAt(ok, m);
    }
  }

  /** Everything a run has been at in its first t passes is rejected. */
  ghost predicate RunRejected(ok: seq<nat> -> bool, n: nat, t: nat)
    requires n >= 1
  {
    !ok(Run(n, t).current) && (t > 0 ==> RunRejected(ok, n, t - 1))
  }

  /** The variables of the loop after t passes, all of which have been rejected, with the number of checks made. */
  ghost predicate Enumerating(ok: seq<nat> -> bool, n: nat, t: nat, c: seq<nat>, i: nat, p: seq<nat>, checks: nat) {
    n >= 1 && Run(n, t) == Heap(c, i, p) && RunRejected(ok, n, t) && checks == ChecksMade(c, i) && checks <= Factorial(n)
  }

  lemma EnumerationStarts(ok: seq<nat> -> bool, n: nat)
    requires n >= 1 && !ok(Identity(n))
    ensures Enumerating(ok, n, 0, seq(n, _ => 0), 1, Identity(n), 1)
  {
    RunStarts(n);
    ChecksBounded(seq(n, _ => 0), 1);
  }

  /** A pass that exchanges and rejects. */
  lemma ExchangePass(ok: seq<nat> -> bool, n: nat, t: nat, c: seq<nat>, i: nat, p: seq<nat>, checks: nat)
    requires Enumerating(ok, n, t, c, i, p, checks) && i < n && c[i] < i
    requires !ok(Swap(p, ExchangePosition(i, c[i]), i))
    ensures Enumerating(ok, n, t + 1, c[i := c[i] + 1], 1, Swap(p, ExchangePosition(i, c[i]), i), checks + 1)
  {
    RunStep(n, t, c, i, p);
  }

  /** A pass that carries. */
  lemma CarryPass(ok: seq<nat> -> bool, n: nat, t: nat, c: seq<nat>, i: nat, p: seq<nat>, checks: nat)
    requires Enumerating(ok, n, t, c, i, p, checks) && i < n && c[i] >= i
    ensures Enumerating(ok, n, t + 1, c[i := 0], i + 1, p, checks)
  {
    RunStep(n, t, c, i, p);
  }

  lemma HistoryAfterExchange(ok: seq<nat> -> bool, before: Search, next: Heap) returns (s: Search)
    requires before.Valid(ok) && before.heap.index < |before.heap.current|
    requires before.heap.counter[before.heap.index] < before.heap.index
    requires next == before.heap.Step() && !ok(next.current)
    ensures s.heap == next && s.Valid(ok)
  {
    var n, i := |before.heap.current|, before.heap.index;
    s := Search(next, seq(n + 1, m requires 0 <= m <= n => if m <= i then next.current else before.start[m]));
    SearchExchange(ok, before, s);
  }

  /** Every state of a run has a history that rejects all blocks the run has left. */
  lemma {:induction false} RunHasHistory(ok: seq<nat> -> bool, n: nat, t: nat) returns (s: Search)
    requires n >= 1 && RunRejected(ok, n, t)
    ensures s.heap == Run(n, t) && s.Valid(ok)
  {
    if t == 0 {
      s := Search(Run(n, 0), seq(n + 1, _ => Run(n, 0).current));
      SearchStart(ok, s);
    } else {
      var before := RunHasHistory(ok, n, t - 1);
      var h := before.heap;
      if h.index == n {
        s := before;
      } else if h.counter[h.index] < h.index {
        s := HistoryAfterExchange(ok, before, Run(n, t));
      } else {
        s := Search(h.Step(), before.start);
        SearchCarry(ok, before, s);
      }
    }
  }

  /** If everything an ended run was at is rejected, every permutation is. */
  lemma EndedRunRejectsAll(ok: seq<nat> -> bool, n: nat, t: nat)
    requires n >= 1 && RunRejected(ok, n, t) && Run(n, t).index == n
    ensures forall p | |p| == n && IsPermutation(p) :: !ok(p)
  {
    var s := RunHasHistory(ok, n, t);
    forall p | |p| == n && IsPermutation(p)
      ensures !ok(p)
    {
      assert AgreeFrom(p, s.start[n], n);
    }
  }

  /** A run was at the permutation after t passes, and at nothing accepted before. */
  ghost predicate FirstAcceptedAt(ok: seq<nat> -> bool, n: nat, p: seq<nat>, t: nat)
    requires n >= 1
  {
    Run(n, t).current == p && (t > 0 ==> RunRejected(ok, n, t - 1))
  }

  /** The accepted permutation that the enumeration is at first. */
  ghost predicate FirstAccepted(ok: seq<nat> -> bool, n: nat, p: seq<nat>) {
    ok(p) && if n == 0 then p == [] else exists t :: FirstAcceptedAt(ok, n, p, t)
  }

  lemma IdentityFirst(ok: seq<nat> -> bool, n: nat)
    requires ok(Identity(n))
    ensures FirstAccepted(ok, n, Identity(n))
  {
    if n > 0 {
      assert FirstAcceptedAt(ok, n, Identity(n), 0);
    }
  }

  lemma {:induction false} RunRejectedEarlier(ok: seq<nat> -> bool, n: nat, t: nat, j: nat)
    requires n >= 1 && RunRejected(ok, n, t) && j <= t
    ensures !ok(Run(n, j).current)
  {
    if j < t {
      RunRejectedEarlier(ok, n, t - 1, j);
    }
  }

  lemma FirstAcceptedIsUnique(ok: seq<nat> -> bool, n: nat, p: seq<nat>, q: seq<nat>)
    requires FirstAccepted(ok, n, p) && FirstAccepted(ok, n, q)
    ensures p == q
  {
    if n > 0 {
      var t :| FirstAcceptedAt(ok, n, p, t);
      var u :| FirstAcceptedAt(ok, n, q, u);
      NotAcceptedBefore(ok, n, p, t, q, u);
      NotAcceptedBefore(ok, n, q, u, p, t);
    }
  }

  lemma NotAcceptedBefore(ok: seq<nat> -> bool, n: nat, p: seq<nat>, t: nat, q: seq<nat>, u: nat)
    requires n >= 1 && ok(p) && FirstAcceptedAt(ok, n, p, t) && FirstAcceptedAt(ok, n, q, u)
    ensures t >= u
  {
    if t < u {
      RunRejectedEarlier(ok, n, u - 1, t);
    }
  }

  lemma {:induction false} NeverAt(n: nat, t: nat, p: seq<nat>)
    requires n >= 1 && forall j: nat | j <= t :: Run(n, j).current != p
    ensures RunRejected(q => q == p, n, t)
  {
    assert Run(n, t).current != p;
    if t > 0 {
      NeverAt(n, t - 1, p);
    }
  }

  /** Heap's enumeration is complete: a run that has ended was at every permutation. */
  lemma EnumerationComplete(n: nat, t: nat, p: seq<nat>) returns (j: nat)
    requires n >= 1 && Run(n, t).index == n
    requires |p| == n && IsPermutation(p)
    ensures j <= t && Run(n, j).current == p
  {
    if k: nat :| k <= t && Run(n, k).current == p {
      j := k;
    } else {
      NeverAt(n, t, p);
      EndedRunRejectsAll(q => q == p, n, t);
    }
  }
}
