/** The flow events of emulation/src/emulcore.rs: how flow_loop builds the flow that it hands to bwsync, and what it
    keeps from event to event. */
module FlowLoop {
  import opened Prelude
  import opened Routing
  import opened Walks
  import opened Networks
  import opened WaterFilling
  import opened StrictestWins
  import opened BwSync

  datatype Outcome = Done | NotConnected | Underflow

  /** The flow of an event: it may use what the path of the topology carries, and no more. */
  function BuildFlow(maxBandwidth: nat, throughput: Option<nat>): (f: Flow)
    ensures f.used <= f.max == maxBandwidth
  {
    Flow(0, if throughput.None? then 0 else Min(throughput.value, maxBandwidth), maxBandwidth, false)
  }

  /** What is left of a network of shortest paths still connects what the network connects. */
  lemma LeftConnects<T>(net: Net<T>, bw: Net<T>, flows: map<Key<T>, Flow>, done: set<Key<T>>, from: T, to: T)
    requires net.Valid() && Left(net, bw, flows, done) && net.strategy.ShortestPath? && net.Knows(from, to)
    ensures bw.Between(from, to).Some? <==> net.Between(from, to).Some?
  {
    var g, h := net.Topology(), bw.Topology();
    net.TopologyValid();
    bw.TopologyValid();
    forall i, j | 0 <= i < g.n && 0 <= j < g.n
      ensures g.Adjacent(i, j) == h.Adjacent(i, j)
    {
      assert CellDeducted(net, bw, flows, done, i, j);
    }
    ShortestPathsFollowLinks(g, h, net.mapper[from]);
  }

  lemma KnownAfter<T>(net: Net<T>, active: map<Key<T>, Flow>, k: Key<T>, after: map<Key<T>, Flow>)
    requires AllKnown(net, active) && net.Knows(k.source, k.destination) && after.Keys <= active.Keys + {k}
    ensures AllKnown(net, after)
  {
  }

  /** The links on the path of the flow carry no more than they can. */
  ghost predicate Fits<T>(net: Net<T>, flows: map<Key<T>, Flow>, k: Key<T>) {
    forall l | l in PathOfKey(net, k) :: Load(net, flows, l) <= l.bandwidth
  }

  /** Known flows within their maximum, and no other than k has come or gone. */
  ghost predicate OnlyOneMoves<T(!new)>(net: Net<T>, before: map<Key<T>, Flow>, after: map<Key<T>, Flow>, k: Key<T>) {
    AllKnown(net, after) && WithinMax(after) && forall j | j != k :: j in after <==> j in before
  }

  ghost predicate Connected<T>(net: Net<T>, k: Key<T>) {
    net.Valid() && net.Knows(k.source, k.destination) && k.source != k.destination && net.Between(k.source, k.destination).Some?
  }

  lemma AfterRemoval<T(!new)>(net: Net<T>, active: map<Key<T>, Flow>, k: Key<T>, f: Flow, after: map<Key<T>, Flow>)
    requires net.Valid() && AllKnown(net, active) && net.Knows(k.source, k.destination)
    requires WithinMax(active) && f.used == 0 && Served(net, active - {k}, k, f, after)
    ensures OnlyOneMoves(net, active, after, k) && k !in after && Fits(net, after, k)
  {
    RemoveGuarantees(net, active, k, f, after);
    KnownAfter(net, active, k, after);
  }

  /** The bandwidth graph is what the flows leave, and cannot be had exactly when some link is overloaded. */
  ghost predicate Drained<T>(net: Net<T>, flows: map<Key<T>, Flow>, ok: bool, now: Net<T>) {
    && (ok ==> Left(net, now, flows, flows.Keys))
    && (net.strategy.ShortestPath? ==> (ok <==> !Overloaded(net, flows)))
  }

  /** On a network of shortest paths an event for a connected flow is always served. */
  lemma AfterEvent<T(!new)>(net: Net<T>, left: Net<T>, active: map<Key<T>, Flow>, k: Key<T>, f: Flow, after: map<Key<T>, Flow>,
    ok: bool, now: Net<T>)
    requires AllKnown(net, active) && WithinMax(active) && Left(net, left, active, active.Keys) && Connected(net, k) && 0 < f.used <= f.max
    requires if left.Between(k.source, k.destination).Some?
      then Served(net, active, k, f, after) && Drained(net, after, ok, now)
      else after == active && ok && now == left
    ensures OnlyOneMoves(net, active, after, k) && Drained(net, after, ok, now)
    ensures net.strategy.ShortestPath? ==> k in after && Fits(net, after, k) && Served(net, active, k, f, after)
  {
    if net.strategy.ShortestPath? {
      LeftConnects(net, left, active, active.Keys, k.source, k.destination);
    }
    if left.Between(k.source, k.destination).Some? {
      UpdateGuarantees(net, active, k, f, after);
      ConnectedHasLinks(net, k.source, k.destination);
      KnownAfter(net, active, k, after);
    } else {
      LeftEnds(net, left, active, active.Keys);
    }
  }

  /** The flows after an event for a flow. */
  ghost predicate Handled<T(!new)>(net: Net<T>, before: map<Key<T>, Flow>, k: Key<T>, f: Flow, after: map<Key<T>, Flow>) {
    if f.used != 0 then Served(net, before, k, Remembered(before, k, f), after)
    else if k in before then Served(net, before - {k}, k, f, after)
    else after == before
  }

  /** What the flow of an event has afterwards. */
  lemma HandledFlow<T(!new)>(net: Net<T>, before: map<Key<T>, Flow>, k: Key<T>, f: Flow, after: map<Key<T>, Flow>)
    requires Connected(net, k) && WithinMax(before) && 0 < f.used <= f.max && !f.hungry && Handled(net, before, k, f, after)
    ensures k in after && after[k].max == f.max
    ensures (k in before && before[k].hungry) || after[k].used <= f.used
    ensures HasRoom(net, before, k, f.used) ==> after[k].used == f.used
  {
    ConnectedHasLinks(net, k.source, k.destination);
    UpdatedFlow(net, before, k, Remembered(before, k, f), after);
    if HasRoom(net, before, k, f.used) {
      NotReducedBefore(net, before, k, f.used);
    }
  }

  lemma NotReducedBefore<T>(net: Net<T>, active: map<Key<T>, Flow>, k: Key<T>, asked: nat)
    requires PathOfKey(net, k) != [] && HasRoom(net, active, k, asked)
    ensures k in active ==> !active[k].hungry
  {
    var path := PathOfKey(net, k);
    assert path[0] in path && OnPath(path, path[0]) && HasRoomOn(net, active, k, asked, path[0]);
    if k in active {
      assert k in Users(net, active.Keys, path[0]);
    }
  }

  /** The state of the loop. */
  class EmulCore<T(==, !new)> {
    const graph: Network<T>
    var activeFlows: map<Key<T>, Flow>
    var bwGraph: Network<T>

    /** Known flows within their maximum; on a network of shortest paths no link is overloaded, and the bandwidth graph
        holds exactly what the flows leave. */
    ghost predicate Valid()
      reads this, graph, graph.links, bwGraph, bwGraph.links
    {
      && graph.Valid() && bwGraph.links.Valid()
      && AllKnown(graph.View(), activeFlows) && WithinMax(activeFlows)
      && Left(graph.View(), bwGraph.View(), activeFlows, activeFlows.Keys)
    }

    constructor (graph: Network<T>)
      requires graph.Valid()
      ensures Valid() && this.graph == graph && activeFlows == map[]
    {
      var left := graph.Clone();
      this.graph := graph;
      activeFlows := map[];
      bwGraph := left;
      new;
      LeftStarts(graph.View(), activeFlows);
      assert activeFlows.Keys - activeFlows.Keys == activeFlows.Keys;
    }

    /** The arm for FlowUpdate. */
    method FlowUpdate(source: T, destination: T, throughput: Option<nat>) returns (r: Outcome)
      requires Valid()
      modifies this
      ensures r == NotConnected <==> !Connected(graph.View(), Key(source, destination))
      ensures r == NotConnected ==> activeFlows == old(activeFlows) && bwGraph == old(bwGraph)
      ensures r == Done ==> Valid()
      ensures r != NotConnected ==>
        var k, net := Key(source, destination), graph.View();
        var most := net.Between(source, destination).value;
        var asked := if throughput.None? then 0 else Min(throughput.value, most);
        && OnlyOneMoves(net, old(activeFlows), activeFlows, k)
        && (asked == 0 ==> k !in activeFlows)
        && (net.strategy.ShortestPath? ==>
              && (r == Underflow <==> Overloaded(net, activeFlows))
              && (asked != 0 || k in old(activeFlows) ==> Fits(net, activeFlows, k))
              && (asked != 0 ==>
                    && k in activeFlows && activeFlows[k].max == most
                    && ((k in old(activeFlows) && old(activeFlows)[k].hungry) || activeFlows[k].used <= asked)
                    && (HasRoom(net, old(activeFlows), k, asked) ==> activeFlows[k].used == asked))
              && if asked != 0 then
                   Served(net, old(activeFlows), k, Flow(0, asked, most, k in old(activeFlows) && old(activeFlows)[k].hungry), activeFlows)
                 else if k in old(activeFlows) then Served(net, old(activeFlows) - {k}, k, Flow(0, 0, most, false), activeFlows)
                 else activeFlows == old(activeFlows))
    {
      var maxBandwidth := graph.PropertiesBetween(source, destination);
      if maxBandwidth.None? {
        return NotConnected;
      }
      var k := Key(source, destination);
      var newFlow := BuildFlow(maxBandwidth.value, throughput);
      ghost var before := activeFlows;
      r := Apply(k, newFlow);
      if graph.strategy.ShortestPath? && newFlow.used != 0 {
        HandledFlow(graph.View(), before, k, newFlow, activeFlows);
      }
    }

    /** What is done with the flow of an event. */
    method Apply(k: Key<T>, f: Flow) returns (r: Outcome)
      requires Valid() && Connected(graph.View(), k) && f.used <= f.max
      modifies this
      ensures r == Done || r == Underflow
      ensures OnlyOneMoves(graph.View(), old(activeFlows), activeFlows, k) && (f.used == 0 ==> k !in activeFlows)
      ensures r == Done ==> Valid()
      ensures graph.strategy.ShortestPath? ==> Handled(graph.View(), old(activeFlows), k, f, activeFlows)
      ensures graph.strategy.ShortestPath? && (f.used != 0 || k in old(activeFlows)) ==> Fits(graph.View(), activeFlows, k)
      ensures graph.strategy.ShortestPath? ==> (r == Underflow <==> Overloaded(graph.View(), activeFlows))
    {
      if f.used != 0 {
        r := Activate(k, f);
      } else if k in activeFlows {
        r := Deactivate(k, f);
      } else {
        LeftEnds(graph.View(), bwGraph.View(), activeFlows, activeFlows.Keys);
        r := Done;
      }
    }

    /** A flow that uses nothing any more is removed. */
    method Deactivate(k: Key<T>, f: Flow) returns (r: Outcome)
      requires Valid() && graph.Known(k.source, k.destination) && f.used == 0
      modifies this
      ensures r == Done || r == Underflow
      ensures OnlyOneMoves(graph.View(), old(activeFlows), activeFlows, k) && k !in activeFlows
      ensures Fits(graph.View(), activeFlows, k) && Served(graph.View(), old(activeFlows) - {k}, k, f, activeFlows)
      ensures r == Done ==> Valid()
      ensures graph.strategy.ShortestPath? ==> (r == Underflow <==> Overloaded(graph.View(), activeFlows))
    {
      var after, ok, bw := RemoveFlow(activeFlows, k, f, graph);
      AfterRemoval(graph.View(), activeFlows, k, f, after);
      activeFlows, bwGraph := after, bw;
      r := if ok then Done else Underflow;
    }

    /** A flow that uses something is added or updated. */
    method Activate(k: Key<T>, f: Flow) returns (r: Outcome)
      requires Valid() && Connected(graph.View(), k) && 0 < f.used <= f.max
      modifies this
      ensures r == Done || r == Underflow
      ensures OnlyOneMoves(graph.View(), old(activeFlows), activeFlows, k)
      ensures r == Done ==> Valid()
      ensures graph.strategy.ShortestPath? ==>
        Fits(graph.View(), activeFlows, k) && Served(graph.View(), old(activeFlows), k, Remembered(old(activeFlows), k, f), activeFlows)
      ensures graph.strategy.ShortestPath? ==> (r == Underflow <==> Overloaded(graph.View(), activeFlows))
    {
      ghost var net := graph.View();
      var after, ok, bw := Update(k, f);
      activeFlows, bwGraph := after, bw;
      r := if ok then Done else Underflow;
      assert graph.View() == net;
    }

    /** The flows and the bandwidth graph after it. */
    method Update(k: Key<T>, f: Flow) returns (after: map<Key<T>, Flow>, ok: bool, bw: Network<T>)
      requires Valid() && Connected(graph.View(), k) && 0 < f.used <= f.max
      ensures OnlyOneMoves(graph.View(), activeFlows, after, k)
      ensures ok ==> bw.links.Valid() && Left(graph.View(), bw.View(), after, after.Keys)
      ensures graph.strategy.ShortestPath? ==> Fits(graph.View(), after, k) && (ok <==> !Overloaded(graph.View(), after))
      ensures graph.strategy.ShortestPath? ==> Served(graph.View(), activeFlows, k, Remembered(activeFlows, k, f), after)
    {
      after, ok, bw := UpdateFlows(activeFlows, k, f, graph, bwGraph);
      ghost var left := bwGraph.View();
      AfterEvent(graph.View(), left, activeFlows, k, Remembered(activeFlows, k, f), after, ok, if ok then bw.View() else left);
    }
  }
}
