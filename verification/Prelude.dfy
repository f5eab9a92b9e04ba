/** Shared datatypes and arithmetic. */
module Prelude {
  datatype Option<+T> = None | Some(value: T)

  /** Where a node of the cluster is reached. */
  datatype ClusterNodeInfo = ClusterNodeInfo(ip: nat, port: nat)

  /** u32::MAX. */
  const MAX_BANDWIDTH: nat := 0xFFFF_FFFF

  function Min(a: nat, b: nat): nat { if a <= b then a else b }

  function Max(a: nat, b: nat): nat { if a >= b then a else b }
}
