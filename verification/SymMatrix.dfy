/** The symmetric matrix of matrix/src/lib.rs: the upper triangle, row by row, in one vector. */
module SymMatrices {

  /** Number of cells stored before row `row` of an n x n triangle: n + (n-1) + ... */
  ghost function RowStart(row: nat, n: nat): nat
    requires row <= n
  {
    if row == 0 then 0 else RowStart(row - 1, n) + (n - (row - 1))
  }

  /** Number of cells of the triangle. */
  ghost function Cells(n: nat): nat { RowStart(n, n) }

  /** The sum of the arithmetic sequence n + (n-1) + ..., computed as the source does, in
      floating point (here in reals) and then truncated. */
  function SeriesSum(terms: nat, first: nat, last: nat): nat {
    (terms as real * ((first as real + last as real) / 2.0)).Floor
  }

  lemma {:induction false} RowStartClosedForm(row: nat, n: nat)
    requires row <= n
    ensures 2 * RowStart(row, n) == row * (2 * n - row + 1)
  {
    if row != 0 {
      RowStartClosedForm(row - 1, n);
      calc {
        2 * RowStart(row, n);
        (row - 1) * (2 * n - (row - 1) + 1) + 2 * (n - (row - 1));
        row * (2 * n - row + 1);
      }
    }
  }

  lemma RealProduct(a: nat, b: nat)
    ensures a as real * (b as real / 2.0) == (a * b) as real / 2.0
  {
  }

  lemma SeriesSumIsRowStart(row: nat, n: nat)
    requires 0 < row <= n
    ensures SeriesSum(row, n, n - (row - 1)) == RowStart(row, n)
  {
    RowStartClosedForm(row, n);
    RealProduct(row, n + (n - (row - 1)));
    assert row * (n + (n - (row - 1))) == 2 * RowStart(row, n);
  }

  /** The position of cell (row, col), in either order, in the vector. */
  ghost function Pack(row: nat, col: nat, n: nat): (i: nat)
    requires row < n && col < n
    ensures i < Cells(n)
  {
    var lo, hi := if row <= col then row else col, if row <= col then col else row;
    RowStartGrows(lo + 1, n, n);
    RowStart(lo, n) + (hi - lo)
  }

  /** out_to_in_index: the same position, from the arithmetic series. */
  function OutToInIndex(row: nat, col: nat, n: nat): (i: nat)
    requires row < n && col < n
    ensures i == Pack(row, col, n)
  {
    var (row, col) := if row > col then (col, row) else (row, col);
    var rowOffset := if row > 0 then SeriesSum(row, n, n - (row - 1)) else 0;
    if row > 0 then
      SeriesSumIsRowStart(row, n);
      rowOffset + (col - row)
    else
      rowOffset + (col - row)
  }

  lemma {:induction false} RowStartGrows(r: nat, s: nat, n: nat)
    requires r <= s <= n
    ensures RowStart(r, n) <= RowStart(s, n)
  {
    if r < s {
      RowStartGrows(r, s - 1, n);
    }
  }

  /** No two unordered pairs share a cell. */
  lemma PackInjective(r1: nat, c1: nat, r2: nat, c2: nat, n: nat)
    requires r1 < n && c1 < n && r2 < n && c2 < n
    requires Pack(r1, c1, n) == Pack(r2, c2, n)
    ensures (r1 == r2 && c1 == c2) || (r1 == c2 && c1 == r2)
  {
    var a1, b1 := if r1 <= c1 then r1 else c1, if r1 <= c1 then c1 else r1;
    var a2, b2 := if r2 <= c2 then r2 else c2, if r2 <= c2 then c2 else r2;
    if a1 < a2 {
      RowStartGrows(a1 + 1, a2, n);
    } else if a2 < a1 {
      RowStartGrows(a2 + 1, a1, n);
    }
  }

  /** in_to_out_index: the cell stored at position i, found by walking over the rows. */
  method InToOutIndex(i: nat, n: nat) returns (row: nat, col: nat)
    requires i < Cells(n)
    ensures row <= col < n && Pack(row, col, n) == i
  {
    var nextRow := 0;
    var currentRowIndex := 0;
    while true
      invariant nextRow < n
      invariant RowStart(nextRow, n) <= i
      decreases n - nextRow
    {
      var nextRowAdj := nextRow + 1;
      var u := n - (nextRowAdj - 1);
      var nextRowIndex := SeriesSum(nextRowAdj, n, u);
      SeriesSumIsRowStart(nextRowAdj, n);
      currentRowIndex := nextRowIndex - u;
      nextRow := nextRow + 1;
      if i < nextRowIndex && i >= currentRowIndex {
        break;
      }
    }
    row := nextRow - 1;
    var offset := i - currentRowIndex;
    col := offset + row;
  }

  /** The packed triangle as a value: what a SymMatrix object holds at one moment. */
  datatype Sym<T> = Sym(n: nat, data: seq<T>) {
    ghost predicate Valid() { |data| == Cells(n) }

    ghost function At(row: nat, col: nat): T
      requires Valid() && row < n && col < n
    {
      data[Pack(row, col, n)]
    }

    function Read(row: nat, col: nat): (value: T)
      requires Valid() && row < n && col < n
      ensures value == At(row, col)
    {
      data[OutToInIndex(row, col, n)]
    }

    ghost function Put(row: nat, col: nat, value: T): (s: Sym<T>)
      requires Valid() && row < n && col < n
      ensures s.Valid() && s.n == n
    {
      Sym(n, data[Pack(row, col, n) := value])
    }

    /** A write changes one unordered pair and nothing else. */
    lemma PutAt(row: nat, col: nat, value: T)
      requires Valid() && row < n && col < n
      ensures var s := Put(row, col, value);
        forall r, c | 0 <= r < n && 0 <= c < n ::
          s.At(r, c) == if (r == row && c == col) || (r == col && c == row) then value else At(r, c)
    {
      var s := Put(row, col, value);
      forall r, c | 0 <= r < n && 0 <= c < n
        ensures s.At(r, c) == if (r == row && c == col) || (r == col && c == row) then value else At(r, c)
      {
        if Pack(r, c, n) == Pack(row, col, n) {
          PackInjective(r, c, row, col, n);
        }
      }
    }
  }

  lemma AtSymmetric<T>(s: Sym<T>, row: nat, col: nat)
    requires s.Valid() && row < s.n && col < s.n
    ensures s.At(row, col) == s.At(col, row)
  {
  }

  /** Two triangles that agree on every cell are equal: the vector holds nothing else. */
  lemma Extensional<T>(s: Sym<T>, t: Sym<T>)
    requires s.Valid() && t.Valid() && s.n == t.n
    requires forall r, c | 0 <= r <= c < s.n :: s.At(r, c) == t.At(r, c)
    ensures s == t
  {
    forall i | 0 <= i < Cells(s.n)
      ensures s.data[i] == t.data[i]
    {
      var r, c := CellOf(i, s.n);
      assert s.At(r, c) == t.At(r, c);
    }
  }

  /** Every position of the vector is the cell of some pair. */
  lemma CellOf(i: nat, n: nat) returns (row: nat, col: nat)
    requires i < Cells(n)
    ensures row <= col < n && Pack(row, col, n) == i
  {
    row := 0;
    while RowStart(row + 1, n) <= i
      invariant row < n && RowStart(row, n) <= i
      decreases n - row
    {
      row := row + 1;
    }
    col := row + (i - RowStart(row, n));
  }

  /** The row and column numbers that survive the removal of `id`. */
  function Skip(i: nat, id: nat): nat { if i >= id then i + 1 else i }

  class SymMatrix<T> {
    var n: nat
    var data: seq<T>

    ghost predicate Valid()
      reads this
    {
      |data| == Cells(n)
    }

    ghost function View(): (s: Sym<T>)
      reads this
      ensures Valid() ==> s.Valid()
    {
      Sym(n, data)
    }

    constructor NewFn(size: nat, f: (nat, nat) --> T)
      requires forall r, c | 0 <= r <= c < size :: f.requires(r, c)
      ensures Valid() && n == size
      ensures forall r, c | 0 <= r <= c < size :: View().At(r, c) == f(r, c)
    {
      var sizeVec := SeriesSum(size, size, 1);
      if size > 0 {
        SeriesSumIsRowStart(size, size);
      }
      var d: seq<T> := [];
      var i := 0;
      while i < sizeVec
        invariant i <= sizeVec == Cells(size)
        invariant |d| == i
        invariant forall r, c | 0 <= r <= c < size && Pack(r, c, size) < i :: d[Pack(r, c, size)] == f(r, c)
      {
        var row, col := InToOutIndex(i, size);
        d := d + [f(row, col)];
        forall r, c | 0 <= r <= c < size && Pack(r, c, size) < i + 1
          ensures d[Pack(r, c, size)] == f(r, c)
        {
          if Pack(r, c, size) == i {
            PackInjective(r, c, row, col, size);
          }
        }
        i := i + 1;
      }
      n := size;
      data := d;
    }

    function Size(): nat
      reads this
    {
      n
    }

    function Get(row: nat, col: nat): (value: T)
      requires Valid() && row < n && col < n
      reads this
      ensures value == View().At(row, col)
    {
      data[OutToInIndex(row, col, n)]
    }

    method Set(row: nat, col: nat, value: T)
      requires Valid() && row < n && col < n
      modifies this
      ensures Valid() && View() == old(View()).Put(row, col, value)
    {
      data := data[OutToInIndex(row, col, n) := value];
    }

    method Clone() returns (m: SymMatrix<T>)
      requires Valid()
      ensures fresh(m) && m.Valid() && m.View() == View()
    {
      var d, size := data, n;
      m := new SymMatrix<T>.NewFn(size, (r: nat, c: nat) requires r < size && c < size && |d| == Cells(size) => d[OutToInIndex(r, c, size)]);
      Extensional(m.View(), View());
    }

    /** A larger matrix: the old cells are copied, the new ones come from f. */
    method GrowFn(extra: nat, f: (nat, nat) --> T) returns (m: SymMatrix<T>)
      requires Valid()
      requires forall r, c | 0 <= r <= c < n + extra && n <= c :: f.requires(r, c)
      ensures fresh(m) && m.Valid() && m.n == n + extra
      ensures Keeps(View(), m.View())
      ensures forall r, c | 0 <= r <= c < m.n && n <= c :: m.View().At(r, c) == f(r, c)
    {
      var d, size := data, n;
      m := new SymMatrix<T>.NewFn(size + extra,
        (r: nat, c: nat) requires |d| == Cells(size) && r <= c < size + extra && (size <= c ==> f.requires(r, c)) =>
          if r >= size || c >= size then f(r, c) else d[OutToInIndex(r, c, size)]);
      forall r, c | 0 <= r < n && 0 <= c < n
        ensures m.View().At(r, c) == View().At(r, c)
      {
        var lo, hi := if r <= c then r else c, if r <= c then c else r;
        assert m.View().At(r, c) == m.View().At(lo, hi);
        assert m.View().At(lo, hi) == d[OutToInIndex(lo, hi, size)];
      }
    }

    /** Deletes row and column `id`. */
    method RemoveId(id: nat) returns (m: SymMatrix<T>)
      requires Valid() && id < n
      ensures fresh(m) && m.Valid() && Removes(View(), id, m.View())
    {
      var d, size := data, n;
      m := new SymMatrix<T>.NewFn(size - 1,
        (r: nat, c: nat) requires |d| == Cells(size) && r < size - 1 && c < size - 1 =>
          d[OutToInIndex(Skip(r, id), Skip(c, id), size)]);
      forall r, c | 0 <= r < n - 1 && 0 <= c < n - 1
        ensures m.View().At(r, c) == View().At(Skip(r, id), Skip(c, id))
      {
        var lo, hi := if r <= c then r else c, if r <= c then c else r;
        assert m.View().At(r, c) == m.View().At(lo, hi);
      }
    }
  }

  /** `after` is `before` with more rows and columns at the end. */
  ghost predicate Keeps<T>(before: Sym<T>, after: Sym<T>) {
    && before.Valid() && after.Valid() && before.n <= after.n
    && forall r, c | 0 <= r < before.n && 0 <= c < before.n :: after.At(r, c) == before.At(r, c)
  }

  /** `after` is `before` without row and column `id`. */
  ghost predicate Removes<T>(before: Sym<T>, id: nat, after: Sym<T>) {
    && before.Valid() && after.Valid() && id < before.n == after.n + 1
    && forall r, c | 0 <= r < after.n && 0 <= c < after.n :: after.At(r, c) == before.At(Skip(r, id), Skip(c, id))
  }

  /** A vector with given cells. */
  ghost function FromCells<T>(n: nat, f: (nat, nat) -> T): (s: Sym<T>)
    ensures s.n == n && s.Valid()
    ensures forall r, c | 0 <= r <= c < n :: s.At(r, c) == f(r, c)
  {
    var s := Sym(n, seq(Cells(n), i requires 0 <= i < Cells(n) => var rc := CellFor(i, n); f(rc.0, rc.1)));
    assert forall r, c | 0 <= r <= c < n :: s.At(r, c) == f(r, c) by {
      forall r, c | 0 <= r <= c < n
        ensures s.At(r, c) == f(r, c)
      {
        var rc := CellFor(Pack(r, c, n), n);
        PackInjective(r, c, rc.0, rc.1, n);
      }
    }
    s
  }

  ghost function CellFor(i: nat, n: nat): (rc: (nat, nat))
    requires i < Cells(n)
    ensures rc.0 <= rc.1 < n && Pack(rc.0, rc.1, n) == i
  {
    CellExists(i, n);
    var r: nat, c: nat :| r <= c < n && Pack(r, c, n) == i;
    (r, c)
  }

  lemma CellExists(i: nat, n: nat)
    requires i < Cells(n)
    ensures exists r: nat, c: nat :: r <= c < n && Pack(r, c, n) == i
  {
    var r, c := CellOf(i, n);
  }

  /** The matrix without row and column `id`. */
  ghost function WithoutRow<T>(s: Sym<T>, id: nat): (t: Sym<T>)
    requires s.Valid() && id < s.n
    ensures Removes(s, id, t)
  {
    var t := FromCells(s.n - 1, (r: nat, c: nat) => if r < s.n - 1 && c < s.n - 1 then s.At(Skip(r, id), Skip(c, id)) else s.At(0, 0));
    assert forall r, c | 0 <= r < t.n && 0 <= c < t.n :: t.At(r, c) == s.At(Skip(r, id), Skip(c, id)) by {
      forall r, c | 0 <= r < t.n && 0 <= c < t.n
        ensures t.At(r, c) == s.At(Skip(r, id), Skip(c, id))
      {
        var lo, hi := if r <= c then r else c, if r <= c then c else r;
        assert t.At(r, c) == t.At(lo, hi);
      }
    }
    t
  }

  /** Removing the last id after growing by one gives back the original vector. */
  lemma GrowThenRemoveLast<T>(m: Sym<T>, grown: Sym<T>, back: Sym<T>)
    requires Keeps(m, grown) && grown.n == m.n + 1
    requires Removes(grown, m.n, back)
    ensures back == m
  {
    forall r, c | 0 <= r <= c < m.n
      ensures back.At(r, c) == m.At(r, c)
    {
      assert back.At(r, c) == grown.At(Skip(r, m.n), Skip(c, m.n));
    }
    Extensional(back, m);
  }
}
