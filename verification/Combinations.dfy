/** next_comb of emulation/src/orchestrator.rs: strictly increasing sequences in lexicographic order. */
module Combinations {
  import opened Prelude

  /** A k-combination of 0..n, both ends included. */
  ghost predicate IsCombination(c: seq<nat>, k: nat, n: nat) {
    && |c| == k
    && (forall i | 0 <= i < k :: c[i] <= n)
    && (forall i, j | 0 <= i < j < k :: c[i] < c[j])
  }

  ghost predicate LessAt(a: seq<nat>, b: seq<nat>, i: nat) {
    |a| == |b| && i < |a| && a[i] < b[i] && forall j | 0 <= j < i :: a[j] == b[j]
  }

  /** Lexicographic order. */
  ghost predicate Less(a: seq<nat>, b: seq<nat>) {
    exists i: nat :: LessAt(a, b, i)
  }

  lemma LessIsTotal(a: seq<nat>, b: seq<nat>)
    requires |a| == |b|
    ensures Less(a, b) || a == b || Less(b, a)
  {
    var i := 0;
    while i < |a| && a[i] == b[i]
      invariant i <= |a| && forall j | 0 <= j < i :: a[j] == b[j]
    {
      i := i + 1;
    }
    if i < |a| {
      assert LessAt(a, b, i) || LessAt(b, a, i);
    }
  }

  lemma {:induction false} EntriesSpread(c: seq<nat>, k: nat, n: nat, i: nat, j: nat)
    requires IsCombination(c, k, n) && i <= j < k
    ensures c[j] >= c[i] + (j - i)
    decreases j
  {
    if i < j {
      EntriesSpread(c, k, n, i, j - 1);
    }
  }

  /** The last k-1-i entries are still to come, so entry i is at most n - (k-1-i). */
  lemma EntryBounds(c: seq<nat>, k: nat, n: nat, i: nat)
    requires IsCombination(c, k, n) && i < k
    ensures i <= c[i] && c[i] + (k - 1 - i) <= n
  {
    EntriesSpread(c, k, n, 0, i);
    EntriesSpread(c, k, n, i, k - 1);
  }

  function First(k: nat): (c: seq<nat>) { seq(k, i => i) }

  lemma FirstIsLeast(k: nat, n: nat, d: seq<nat>)
    requires IsCombination(d, k, n)
    ensures !Less(d, First(k))
  {
    forall i: nat
      ensures !LessAt(d, First(k), i)
    {
      if i < k {
        EntryBounds(d, k, n, i);
      }
    }
  }

  /** c is at its maximum after position i, and s raises position i and restarts from there. */
  ghost predicate Raises(c: seq<nat>, i: nat, s: seq<nat>, k: nat, n: nat) {
    && IsCombination(c, k, n) && i < k && |s| == k
    && (forall j | 0 <= j < i :: s[j] == c[j])
    && (forall j | i <= j < k :: s[j] == c[i] + 1 + (j - i))
    && (forall j | i < j < k :: c[j] == n - (k - 1 - j))
  }

  lemma RaisedIsNext(c: seq<nat>, i: nat, s: seq<nat>, d: seq<nat>, k: nat, n: nat)
    requires Raises(c, i, s, k, n) && IsCombination(d, k, n)
    ensures Less(c, s) && !(Less(c, d) && Less(d, s))
  {
    assert LessAt(c, s, i);
    if Less(c, d) {
      var p: nat :| LessAt(c, d, p);
      EntryBounds(d, k, n, p);
      forall q: nat
        ensures !LessAt(d, s, q)
      {
        if i <= q < k {
          EntriesSpread(d, k, n, i, q);
        }
      }
    }
  }

  /** The next combination whose first entry is at most n - k, or None. */
  method NextComb(previous: seq<nat>, k: nat, n: nat) returns (r: Option<seq<nat>>)
    requires 1 <= k <= n
    requires IsCombination(previous, k, n) && previous[0] <= n - k
    ensures r.Some? ==>
      && IsCombination(r.value, k, n) && r.value[0] <= n - k
      && Less(previous, r.value)
      && forall d | IsCombination(d, k, n) :: !(Less(previous, d) && Less(d, r.value))
    ensures r.None? ==> forall d | IsCombination(d, k, n) && Less(previous, d) :: d[0] > n - k
  {
    var a := previous;
    var i := k - 1;
    a := a[i := a[i] + 1];
    while a[i] > n - k + 1 + i
      invariant 0 <= i < k && |a| == k
      invariant (forall j | 0 <= j < i :: a[j] == previous[j]) && a[i] == previous[i] + 1
      invariant forall j | i < j < k :: previous[j] == n - (k - 1 - j)
      decreases i
    {
      EntryBounds(previous, k, n, i);
      assert i > 0;
      i := i - 1;
      a := a[i := a[i] + 1];
    }
    if a[0] > n - k {
      forall d | IsCombination(d, k, n) && Less(previous, d)
        ensures d[0] > n - k
      {
        var p: nat :| LessAt(previous, d, p);
        EntryBounds(d, k, n, p);
      }
      return None;
    }
    EntryBounds(previous, k, n, i);
    for v := i + 1 to k
      invariant |a| == k && (forall j | 0 <= j < i :: a[j] == previous[j])
      invariant forall j | i <= j < v :: a[j] == previous[i] + 1 + (j - i)
    {
      a := a[v := a[v - 1] + 1];
    }
    RaisedIsCombination(previous, i, a, k, n);
    forall d | IsCombination(d, k, n)
      ensures Less(previous, a) && !(Less(previous, d) && Less(d, a))
    {
      RaisedIsNext(previous, i, a, d, k, n);
    }
    return Some(a);
  }

  lemma RaisedIsCombination(c: seq<nat>, i: nat, s: seq<nat>, k: nat, n: nat)
    requires Raises(c, i, s, k, n) && c[i] < n - (k - 1 - i)
    ensures IsCombination(s, k, n)
    ensures Less(c, s)
  {
    assert LessAt(c, s, i);
  }

  // ----- A measure that every step of the enumeration raises -----

  ghost function Power(b: nat, e: nat): nat { if e == 0 then 1 else b * Power(b, e - 1) }

  /** The sequence read as a number in base n+1. */
  ghost function Rank(c: seq<nat>, n: nat): nat {
    if c == [] then 0 else c[0] * Power(n + 1, |c| - 1) + Rank(c[1..], n)
  }

  lemma {:induction false} RankBound(c: seq<nat>, n: nat)
    requires forall i | 0 <= i < |c| :: c[i] <= n
    ensures Rank(c, n) < Power(n + 1, |c|)
  {
    if c != [] {
      RankBound(c[1..], n);
      LeadingDigit(c[0], n + 1, Power(n + 1, |c| - 1), Rank(c[1..], n));
    }
  }

  lemma LeadingDigit(a: nat, b: nat, w: nat, r: nat)
    requires a < b && r < w
    ensures a * w + r < b * w
  {
    assert (a + 1) * w == a * w + w;
    if a + 1 < b {
      LeadingDigit(a, b - 1, w, r);
      assert b * w == (b - 1) * w + w;
    }
  }

  lemma {:induction false} RankGrows(a: seq<nat>, b: seq<nat>, n: nat, i: nat)
    requires LessAt(a, b, i)
    requires forall j | 0 <= j < |a| :: a[j] <= n && b[j] <= n
    ensures Rank(a, n) < Rank(b, n)
    decreases i
  {
    var w := Power(n + 1, |a| - 1);
    if i == 0 {
      RankBound(a[1..], n);
      LeadingDigit(a[0], b[0], w, Rank(a[1..], n));
    } else {
      RankGrows(a[1..], b[1..], n, i - 1);
    }
  }

  /** When the range has exactly k values there is one combination. */
  lemma OnlyCombination(c: seq<nat>, k: nat, n: nat)
    requires IsCombination(c, k, n) && k == n + 1
    ensures c == First(k)
  {
    forall i | 0 <= i < k
      ensures c[i] == i
    {
      EntryBounds(c, k, n, i);
    }
  }
}
