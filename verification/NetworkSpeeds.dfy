/** What the cluster graph assumes of real bandwidths holds of every network whose routes are widest paths. */
module NetworkSpeeds {
  import opened Prelude
  import opened Routing
  import opened Networks
  import opened SpeedClosure
  import opened CGraphs

  /** The bandwidth between two vertices: the width that widest_path reports, and nothing where there is no path. */
  ghost function WidthBetween<T>(net: Net<T>, x: T, y: T): nat
    requires net.Valid()
  {
    net.TopologyValid();
    if net.Knows(x, y) && Width(net.Topology(), net.mapper[x], net.mapper[y]).Some?
    then Width(net.Topology(), net.mapper[x], net.mapper[y]).value
    else 0
  }

  lemma WidthBetweenSymmetric<T>(net: Net<T>, x: T, y: T)
    requires net.Valid()
    ensures WidthBetween(net, x, y) == WidthBetween(net, y, x)
  {
    net.TopologyValid();
    if net.Knows(x, y) {
      WidthSymmetric(net.Topology(), net.mapper[x], net.mapper[y]);
    }
  }

  lemma WidthBetweenTriangle<T>(net: Net<T>, x: T, y: T, z: T)
    requires net.Valid()
    ensures WidthBetween(net, x, y) >= Min(WidthBetween(net, x, z), WidthBetween(net, z, y))
  {
    net.TopologyValid();
    if net.Knows(x, z) && net.Knows(z, y) {
      WidthTriangle(net.Topology(), net.mapper[x], net.mapper[y], net.mapper[z]);
    }
  }

  /** Symmetric, within the speeds of the nodes, and no wider than the wider detour: the measurements of such a
      network are what the exactness results about cluster graphs ask for. */
  lemma WidthsAreMetric<T(!new)>(net: Net<T>, link: T -> nat)
    requires net.Valid()
    requires forall x, y | x != y :: WidthBetween(net, x, y) <= link(x)
    requires forall x :: link(x) <= MAX_SPEED
    ensures Metric((x: T, y: T) => WidthBetween(net, x, y), link)
  {
    var bw := (x: T, y: T) => WidthBetween(net, x, y);
    forall x, y
      ensures bw(x, y) == bw(y, x)
    {
      WidthBetweenSymmetric(net, x, y);
    }
    forall x, y, z
      ensures Ultra(bw, x, y, z)
    {
      WidthBetweenTriangle(net, x, y, z);
    }
  }
}
