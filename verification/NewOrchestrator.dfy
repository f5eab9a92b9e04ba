/** An orchestrator for a cluster graph: speeds of cgraph/src/lib.rs, and the constructor that takes them over. */
module NewOrchestrators {
  import opened Prelude
  import opened SymMatrices
  import opened SpeedClosure
  import opened CGraphs
  import opened Bookkeeping
  import opened Orchestrators

  /** The cast from usize, which cuts off the upper bits. */
  function AsU32(x: nat): nat { x % 0x1_0000_0000 }

  /** The matrix of a graph's speeds as u32, and the nodes in the order of its rows. In a closed graph the entry of a host
      with itself is usize::MAX, and becomes u32::MAX. */
  method Speeds(cgraph: CGraph<ClusterNodeInfo>) returns (matrix: SymMatrix<nat>, infos: seq<ClusterNodeInfo>)
    requires cgraph.Valid() && Closed(cgraph.S(), cgraph.graph.n)
    ensures fresh(matrix) && matrix.Valid() && matrix.n == |infos| == cgraph.graph.n
    ensures forall r, c | 0 <= r <= c < matrix.n :: matrix.View().At(r, c) == AsU32(cgraph.S()(r, c))
    ensures forall r, c | 0 <= r <= c < matrix.n && cgraph.S()(r, c) <= MAX_BANDWIDTH :: matrix.View().At(r, c) == cgraph.S()(r, c)
    ensures forall i | 0 <= i < |infos| :: infos[i] == NodeOf(cgraph.nodes, cgraph.graph.n, i).info
    ensures IsSpeeds(matrix.View())
  {
    var size := cgraph.graph.Size();
    var d := cgraph.graph.data;
    matrix := new SymMatrix<nat>.NewFn(size,
      (row: nat, col: nat) requires |d| == Cells(size) && row < size && col < size => AsU32(d[OutToInIndex(row, col, size)].speed));
    infos := [];
    for i := 0 to size
      invariant |infos| == i && size == cgraph.graph.n && cgraph.Valid()
      invariant forall k | 0 <= k < i :: infos[k] == NodeOf(cgraph.nodes, size, k).info
    {
      ghost var known := NodeOf(cgraph.nodes, size, i);
      var node :| node in cgraph.nodes && node.index == i;
      assert node == known;
      infos := infos + [node.info];
    }
    SpeedsAreSpeeds(cgraph.graph.View(), matrix.View());
  }

  lemma SpeedsAreSpeeds(s: Sym<TestData>, m: Sym<nat>)
    requires s.Valid() && Closed(SpeedsOf(s), s.n) && m.Valid() && m.n == s.n
    requires forall r, c | 0 <= r <= c < m.n :: m.At(r, c) == AsU32(SpeedsOf(s)(r, c))
    ensures IsSpeeds(m)
  {
    forall h, o | 0 <= h < m.n && 0 <= o < m.n
      ensures m.At(h, o) <= MAX_BANDWIDTH && (h == o ==> m.At(h, o) == MAX_BANDWIDTH)
    {
      AtSymmetric(m, h, o);
      assert m.At(if h <= o then h else o, if h <= o then o else h) == AsU32(SpeedsOf(s)(if h <= o then h else o, if h <= o then o else h));
    }
  }

  /** Orchestrator::new: whatever the cluster graph, the books are empty and the ledger is balanced. */
  method Build(cgraph: CGraph<ClusterNodeInfo>, emanagersPort: nat, maxLoad: nat) returns (o: Orchestrator)
    requires cgraph.Valid() && Closed(cgraph.S(), cgraph.graph.n)
    requires forall a, b | a in cgraph.nodes && b in cgraph.nodes && a.info.ip == b.info.ip :: a == b
    ensures fresh(o) && fresh(o.residual) && o.Valid() && o.Ledger() && o.emulations == map[] && o.currentLoad == map[]
    ensures forall a | a in cgraph.nodes :: a.index < |o.hostMapping| && o.hostMapping[a.index] == a.info.(port := emanagersPort)
    ensures o.residual.n == cgraph.graph.n && IsSpeeds(o.residual.View())
    ensures forall r, c | 0 <= r <= c < o.residual.n && cgraph.S()(r, c) <= MAX_BANDWIDTH :: o.residual.View().At(r, c) == cgraph.S()(r, c)
    ensures |o.hostMapping| == |cgraph.nodes| && o.maxLoad == maxLoad && o.port == emanagersPort
  {
    var matrix, infos := Speeds(cgraph);
    NumberedCount(cgraph.nodes, cgraph.graph.n);
    o := new Orchestrator(matrix, infos, emanagersPort, maxLoad);
    forall a | a in cgraph.nodes
      ensures infos[a.index] == a.info
    {
      NodeOfUnique(cgraph.nodes, cgraph.graph.n, a);
    }
  }
}
