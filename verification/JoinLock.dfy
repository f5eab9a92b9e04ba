/** The join lock of cmanager/src/controller.rs: one leader, any number of nodes that want to join, requests and
    answers over a network that loses, repeats and reorders them. */
module JoinLock {
  import opened Prelude

  // ----- The leader -----

  datatype Reply = Accept | Wait

  /** What the leader knows of its cluster. */
  datatype LeaderState = LeaderState(adding: bool, nodes: set<ClusterNodeInfo>)

  function OnRequest(l: LeaderState): (LeaderState, Reply) {
    if l.adding then (l, Wait) else (l.(adding := true), Accept)
  }

  function OnUpdate(l: LeaderState, graph: set<ClusterNodeInfo>): LeaderState { LeaderState(false, graph) }

  function OnAbort(l: LeaderState): LeaderState { l.(adding := false) }

  /** A node has missed too many heartbeats. */
  function OnFailure(l: LeaderState, info: ClusterNodeInfo): LeaderState { l.(nodes := l.nodes - {info}) }

  /** The part of the controller that the leader's event loop changes when nodes join or fail. */
  class Controller {
    var addingNewNode: bool
    var cgraph: set<ClusterNodeInfo>

    ghost function View(): LeaderState
      reads this
    {
      LeaderState(addingNewNode, cgraph)
    }

    /** create_cluster. */
    constructor (me: ClusterNodeInfo)
      ensures View() == LeaderState(false, {me})
    {
      addingNewNode, cgraph := false, {me};
    }

    /** Grants a join exactly when the lock is free; either way the lock is taken afterwards. */
    method CJQRequest() returns (reply: Reply)
      modifies this
      ensures reply == Accept <==> !old(addingNewNode)
      ensures addingNewNode && cgraph == old(cgraph)
    {
      if addingNewNode {
        reply := Wait;
      } else {
        reply := Accept;
        addingNewNode := true;
      }
    }

    method CGraphUpdate(graph: set<ClusterNodeInfo>)
      modifies this
      ensures View() == OnUpdate(old(View()), graph) && !addingNewNode && cgraph == graph
    {
      addingNewNode := false;
      cgraph := graph;
    }

    method CJQAbort()
      modifies this
      ensures View() == OnAbort(old(View())) && !addingNewNode && cgraph == old(cgraph)
    {
      addingNewNode := false;
    }

    method NodeFailure(info: ClusterNodeInfo)
      modifies this
      ensures View() == OnFailure(old(View()), info) && addingNewNode == old(addingNewNode)
      ensures forall x :: x in cgraph <==> x in old(cgraph) && x != info
    {
      cgraph := cgraph - {info};
    }

    /** The arms of the event loop, for the leader of a cluster: a grant is given only when no other join is open and
        nobody holds one, and every arm keeps what holds of the cluster. */
    method Serve(ghost s: Cluster, e: Event) returns (reply: Option<Reply>)
      requires Inv(s) && Enabled(s, e) && s.leader == View() && (e.TakesRequest? || e.TakesOutcome? || e.Loses?)
      modifies this
      ensures View() == Apply(s, e).leader && Inv(Apply(s, e))
      ensures reply == Some(Accept) ==> s.granted == s.ended && s.outcomes == {} && forall j :: !Holds(s, j)
      ensures reply == Some(Accept) ==> e.TakesRequest? && Answer(e.q.id, Accept) in Apply(s, e).answers && addingNewNode
      ensures reply != Some(Accept) ==> Apply(s, e).granted == s.granted
      ensures e.TakesRequest? ==> reply.Some? && (reply == Some(Accept) <==> !old(addingNewNode)) && cgraph == old(cgraph)
      ensures e.TakesOutcome? ==> reply == None && !addingNewNode && cgraph == if e.o.Update? then e.o.graph else old(cgraph)
      ensures e.Loses? ==> reply == None && addingNewNode == old(addingNewNode) && forall x :: x in cgraph <==> x in old(cgraph) && x != e.info
    {
      StepKeeps(s, e);
      reply := None;
      match e {
        case TakesRequest(_) =>
          var answer := CJQRequest();
          reply := Some(answer);
        case TakesOutcome(Update(_, graph)) => CGraphUpdate(graph);
        case TakesOutcome(Abort(_)) => CJQAbort();
        case Loses(info) => NodeFailure(info);
        case _ =>
      }
    }
  }

  // ----- The cluster -----

  /** A node that wants to join: doing nothing, waiting for the answer to a request, accepted, or testing with a copy
      of the leader's graph. */
  datatype Joiner = Idle | Waiting(request: nat) | Accepted | Testing(graph: set<ClusterNodeInfo>)

  datatype Request = Request(id: nat, sender: ClusterNodeInfo)

  datatype Answer = Answer(request: nat, reply: Reply)

  /** How a join ends, over a reliable connection. */
  datatype Outcome = Update(joiner: ClusterNodeInfo, graph: set<ClusterNodeInfo>) | Abort(joiner: ClusterNodeInfo)

  /** Requests and answers once sent may arrive any number of times, so they are never taken away. `granted` and
      `ended` count what the leader has accepted and seen the end of; `failed` are the nodes that the leader lost
      since the last copy of its graph was taken. */
  datatype Cluster = Cluster(
    leader: LeaderState, joiners: map<ClusterNodeInfo, Joiner>,
    requests: set<Request>, nextRequest: nat, answers: set<Answer>, outcomes: set<Outcome>,
    granted: nat, ended: nat, failed: set<ClusterNodeInfo>)

  datatype Event =
    | Asks(j: ClusterNodeInfo)
    | TakesRequest(q: Request)
    | TakesAnswer(j: ClusterNodeInfo, a: Answer)
    | TimesOut(j: ClusterNodeInfo)
    | Downloads(j: ClusterNodeInfo)
    | Completes(j: ClusterNodeInfo)
    | GivesUp(j: ClusterNodeInfo)
    | Dies(j: ClusterNodeInfo)
    | TakesOutcome(o: Outcome)
    | Loses(info: ClusterNodeInfo)

  ghost predicate Enabled(s: Cluster, e: Event) {
    match e
    case Asks(j) => j in s.joiners && s.joiners[j] == Idle
    case TakesRequest(q) => q in s.requests
    case TakesAnswer(j, a) => j in s.joiners && s.joiners[j] == Waiting(a.request) && a in s.answers
    case TimesOut(j) => j in s.joiners && s.joiners[j].Waiting?
    case Downloads(j) => j in s.joiners && s.joiners[j].Accepted?
    case Completes(j) => j in s.joiners && s.joiners[j].Testing?
    case GivesUp(j) => j in s.joiners && (s.joiners[j].Accepted? || s.joiners[j].Testing?)
    case Dies(j) => j in s.joiners
    case TakesOutcome(o) => o in s.outcomes
    case Loses(info) => info in s.leader.nodes
  }

  ghost function Apply(s: Cluster, e: Event): Cluster
    requires Enabled(s, e)
  {
    match e
    case Asks(j) =>
      s.(joiners := s.joiners[j := Waiting(s.nextRequest)], requests := s.requests + {Request(s.nextRequest, j)}, nextRequest := s.nextRequest + 1)
    case TakesRequest(q) =>
      var (leader, reply) := OnRequest(s.leader);
      s.(leader := leader, answers := s.answers + {Answer(q.id, reply)}, granted := s.granted + if reply == Accept then 1 else 0)
    case TakesAnswer(j, a) => s.(joiners := s.joiners[j := if a.reply == Accept then Accepted else Idle])
    case TimesOut(j) => s.(joiners := s.joiners[j := Idle])
    case Downloads(j) => s.(joiners := s.joiners[j := Testing(s.leader.nodes)], failed := {})
    case Completes(j) => s.(joiners := s.joiners[j := Idle], outcomes := s.outcomes + {Update(j, s.joiners[j].graph + {j})})
    case GivesUp(j) => s.(joiners := s.joiners[j := Idle], outcomes := s.outcomes + {Abort(j)})
    case Dies(j) => s.(joiners := s.joiners[j := Idle])
    case TakesOutcome(o) =>
      s.(leader := if o.Update? then OnUpdate(s.leader, o.graph) else OnAbort(s.leader), outcomes := s.outcomes - {o}, ended := s.ended + 1)
    case Loses(info) => s.(leader := OnFailure(s.leader, info), failed := s.failed + {info})
  }

  ghost predicate Init(s: Cluster) {
    && !s.leader.adding && (forall j | j in s.joiners :: s.joiners[j] == Idle)
    && s.requests == {} && s.answers == {} && s.outcomes == {} && s.granted == s.ended == 0
  }

  // ----- What every step keeps -----

  ghost predicate HasAccept(s: Cluster, request: nat) { Answer(request, Accept) in s.answers }

  /** The node has been accepted, or will be by an answer that is on its way. */
  ghost predicate Holds(s: Cluster, j: ClusterNodeInfo) {
    j in s.joiners && match s.joiners[j] {
      case Idle => false
      case Waiting(request) => HasAccept(s, request)
      case _ => true
    }
  }

  ghost predicate RequestsOk(s: Cluster) {
    && (forall q | q in s.requests :: q.id < s.nextRequest)
    && (forall p, q | p in s.requests && q in s.requests && p.id == q.id :: p == q)
    && (forall a | a in s.answers :: a.request < s.nextRequest)
    && (forall j | j in s.joiners && s.joiners[j].Waiting? :: Request(s.joiners[j].request, j) in s.requests)
  }

  /** The lock: a join that may still end one way or the other has one holder, and then the lock is taken. */
  ghost predicate LockOk(s: Cluster) {
    && (forall i, j | Holds(s, i) && Holds(s, j) :: i == j)
    && (forall o, j | o in s.outcomes && Holds(s, j) :: false)
    && (forall o, p | o in s.outcomes && p in s.outcomes :: o == p)
    && (!s.leader.adding ==> s.outcomes == {} && forall j :: !Holds(s, j))
    && s.granted == s.ended + if s.leader.adding then 1 else 0
  }

  /** The copies of the graph: the leader's nodes with those it has lost since, and with the node that joins. */
  ghost predicate CopiesOk(s: Cluster) {
    && (forall j | j in s.joiners && s.joiners[j].Testing? :: s.joiners[j].graph == s.leader.nodes + s.failed)
    && (forall o | o in s.outcomes && o.Update? :: o.graph == s.leader.nodes + s.failed + {o.joiner})
  }

  ghost predicate Inv(s: Cluster) { RequestsOk(s) && LockOk(s) && CopiesOk(s) }

  lemma InitOk(s: Cluster)
    requires Init(s)
    ensures Inv(s)
  {
  }

  lemma RequestsKept(s: Cluster, e: Event)
    requires Inv(s) && Enabled(s, e)
    ensures RequestsOk(Apply(s, e))
  {
  }

  /** Only an accepted request makes its sender a holder. */
  lemma HoldersAfter(s: Cluster, e: Event, j: ClusterNodeInfo)
    requires Inv(s) && Enabled(s, e)
    ensures Holds(Apply(s, e), j) ==> Holds(s, j) || (e.TakesRequest? && !s.leader.adding && j == e.q.sender)
    ensures e.Completes? || e.GivesUp? ==> Holds(s, e.j) && !Holds(Apply(s, e), e.j)
  {
    if e.Asks? && j == e.j {
      assert HasAccept(s, s.nextRequest) ==> Answer(s.nextRequest, Accept).request < s.nextRequest;
    } else if e.TakesRequest? && Holds(Apply(s, e), j) && s.joiners[j].Waiting? {
      assert Request(s.joiners[j].request, j) in s.requests;
    } else if e.TakesAnswer? && j == e.j {
      assert e.a.reply == Accept ==> HasAccept(s, e.a.request);
    }
  }

  lemma LockKept(s: Cluster, e: Event)
    requires Inv(s) && Enabled(s, e)
    ensures LockOk(Apply(s, e))
  {
    var next := Apply(s, e);
    forall j
      ensures Holds(next, j) ==> Holds(s, j) || (e.TakesRequest? && !s.leader.adding && j == e.q.sender)
      ensures e.Completes? || e.GivesUp? ==> Holds(s, e.j) && !Holds(next, e.j)
    {
      HoldersAfter(s, e, j);
    }
    if e.TakesOutcome? {
      assert s.leader.adding;
      assert next.outcomes == {};
    } else if e.Completes? || e.GivesUp? {
      HoldersAfter(s, e, e.j);
      assert s.leader.adding;
      assert s.outcomes == {};
    } else {
      assert next.outcomes == s.outcomes;
    }
  }

  lemma CopyKept(s: Cluster, e: Event, j: ClusterNodeInfo)
    requires Inv(s) && Enabled(s, e) && j in Apply(s, e).joiners && Apply(s, e).joiners[j].Testing?
    ensures Apply(s, e).joiners[j].graph == Apply(s, e).leader.nodes + Apply(s, e).failed
  {
    if e.Downloads? {
      assert Holds(s, e.j) && (e.j != j ==> Holds(s, j));
    } else {
      assert Holds(s, j);
    }
  }

  lemma OutcomeKept(s: Cluster, e: Event, o: Outcome)
    requires Inv(s) && Enabled(s, e) && o in Apply(s, e).outcomes && o.Update?
    ensures o.graph == Apply(s, e).leader.nodes + Apply(s, e).failed + {o.joiner}
  {
    if e.Downloads? {
      assert Holds(s, e.j);
    }
  }

  lemma StepKeeps(s: Cluster, e: Event)
    requires Inv(s) && Enabled(s, e)
    ensures Inv(Apply(s, e))
  {
    var next := Apply(s, e);
    RequestsKept(s, e);
    LockKept(s, e);
    forall j | j in next.joiners && next.joiners[j].Testing?
      ensures next.joiners[j].graph == next.leader.nodes + next.failed
    {
      CopyKept(s, e, j);
    }
    forall o | o in next.outcomes && o.Update?
      ensures o.graph == next.leader.nodes + next.failed + {o.joiner}
    {
      OutcomeKept(s, e, o);
    }
  }

  ghost predicate IsRun(run: seq<Cluster>, events: seq<Event>) {
    && |run| == |events| + 1 && Init(run[0])
    && forall k | 0 <= k < |events| :: Enabled(run[k], events[k]) && run[k + 1] == Apply(run[k], events[k])
  }

  lemma {:induction false} RunKeeps(run: seq<Cluster>, events: seq<Event>, k: nat)
    requires IsRun(run, events) && k < |run|
    ensures Inv(run[k])
  {
    if k == 0 {
      InitOk(run[0]);
    } else {
      RunKeeps(run, events, k - 1);
      StepKeeps(run[k - 1], events[k - 1]);
    }
  }

  // ----- Results -----

  /** Over any run: at most one granted join has not ended, and while there is one the lock is taken; the nodes that
      can still make use of a grant, and the outcomes under way, are one at most. */
  lemma OneGrant(run: seq<Cluster>, events: seq<Event>, k: nat)
    requires IsRun(run, events) && k < |run|
    ensures run[k].granted == run[k].ended + if run[k].leader.adding then 1 else 0
    ensures forall i, j | Holds(run[k], i) && Holds(run[k], j) :: i == j && run[k].leader.adding && run[k].outcomes == {}
    ensures |run[k].outcomes| <= 1 && (run[k].outcomes != {} ==> run[k].leader.adding)
  {
    RunKeeps(run, events, k);
    var s := run[k];
    if s.outcomes != {} {
      var o :| o in s.outcomes;
      assert s.outcomes == {o};
    }
  }

  /** A graph that the leader adopts has all the leader's nodes, the node that joins, and no other than those the
      leader has lost since the copy was taken: they come back. */
  lemma AdoptedGraph(run: seq<Cluster>, events: seq<Event>, k: nat)
    requires IsRun(run, events) && k < |events| && events[k].TakesOutcome? && events[k].o.Update?
    ensures run[k + 1].leader.nodes == run[k].leader.nodes + {events[k].o.joiner} + run[k].failed
    ensures run[k].leader.adding && !run[k + 1].leader.adding
  {
    RunKeeps(run, events, k);
  }

  lemma StepGrows(s: Cluster, e: Event)
    requires Inv(s) && Enabled(s, e) && s.failed == {} && !e.Loses?
    ensures var next := Apply(s, e);
      && next.failed == {} && s.leader.nodes <= next.leader.nodes
      && |next.leader.nodes - s.leader.nodes| <= 1
      && (e.TakesOutcome? && e.o.Update? ==> next.leader.nodes == s.leader.nodes + {e.o.joiner})
  {
    var next := Apply(s, e);
    if e.TakesOutcome? && e.o.Update? {
      assert next.leader.nodes == s.leader.nodes + {} + {e.o.joiner};
      SubsetCardinality(next.leader.nodes - s.leader.nodes, e.o.joiner);
    } else {
      assert next.leader.nodes - s.leader.nodes == {};
    }
  }

  /** Without node failures the leader's graph only ever grows, by the node that joins. */
  lemma {:induction false} NothingLost(run: seq<Cluster>, events: seq<Event>, k: nat)
    requires IsRun(run, events) && k < |run| && run[0].failed == {} && forall e | e in events :: !e.Loses?
    ensures run[k].failed == {}
    ensures k > 0 ==> run[k - 1].leader.nodes <= run[k].leader.nodes && |run[k].leader.nodes - run[k - 1].leader.nodes| <= 1
    ensures k > 0 && events[k - 1].TakesOutcome? && events[k - 1].o.Update? ==>
      run[k].leader.nodes == run[k - 1].leader.nodes + {events[k - 1].o.joiner}
  {
    if k > 0 {
      NothingLost(run, events, k - 1);
      RunKeeps(run, events, k - 1);
      StepGrows(run[k - 1], events[k - 1]);
    }
  }

  lemma SubsetCardinality(s: set<ClusterNodeInfo>, x: ClusterNodeInfo)
    requires s <= {x}
    ensures |s| <= 1
  {
    if s != {} {
      assert s == {x};
    }
  }

  // ----- A lost grant -----

  /** The answer that grants a join has no one to take it, and no outcome is under way. */
  ghost predicate Stuck(s: Cluster) {
    s.leader.adding && s.outcomes == {} && forall j :: !Holds(s, j)
  }

  /** When a grant is lost, nobody joins any more: no event ends it, and every later request is told to wait. */
  lemma StuckForever(s: Cluster, e: Event)
    requires Inv(s) && Stuck(s) && Enabled(s, e)
    ensures Stuck(Apply(s, e)) && Apply(s, e).granted == s.granted
  {
    forall j
      ensures !Holds(Apply(s, e), j)
    {
      HoldersAfter(s, e, j);
    }
    if e.Completes? || e.GivesUp? {
      HoldersAfter(s, e, e.j);
    }
  }

  /** Some events lead from s to t. */
  ghost predicate Leads(s: Cluster, events: seq<Event>, t: Cluster)
    decreases |events|
  {
    if events == [] then s == t else Enabled(s, events[0]) && Leads(Apply(s, events[0]), events[1..], t)
  }

  /** The lock is free after some events. */
  ghost predicate CanRelease(s: Cluster) {
    exists events: seq<Event>, t: Cluster :: Leads(s, events, t) && !t.leader.adding
  }

  lemma {:induction false} StuckStays(s: Cluster, events: seq<Event>, t: Cluster)
    requires Inv(s) && Stuck(s) && Leads(s, events, t)
    ensures Stuck(t)
    decreases |events|
  {
    if events != [] {
      StepKeeps(s, events[0]);
      StuckForever(s, events[0]);
      StuckStays(Apply(s, events[0]), events[1..], t);
    }
  }

  lemma LeadsOne(s: Cluster, e: Event, events: seq<Event>, t: Cluster)
    requires Enabled(s, e) && Leads(Apply(s, e), events, t)
    ensures Leads(s, [e] + events, t)
  {
    assert ([e] + events)[1..] == events;
  }

  /** An outcome under way releases the lock when the leader takes it. */
  lemma OutcomeReleases(s: Cluster, o: Outcome) returns (events: seq<Event>, t: Cluster)
    requires o in s.outcomes
    ensures Leads(s, events, t) && !t.leader.adding
  {
    t := Apply(s, TakesOutcome(o));
    LeadsOne(s, TakesOutcome(o), [], t);
    events := [TakesOutcome(o)] + [];
  }

  /** A node that has been accepted can give up. */
  lemma AcceptedReleases(s: Cluster, j: ClusterNodeInfo) returns (events: seq<Event>, t: Cluster)
    requires j in s.joiners && (s.joiners[j].Accepted? || s.joiners[j].Testing?)
    ensures Leads(s, events, t) && !t.leader.adding
  {
    var later: seq<Event>;
    later, t := OutcomeReleases(Apply(s, GivesUp(j)), Abort(j));
    LeadsOne(s, GivesUp(j), later, t);
    events := [GivesUp(j)] + later;
  }

  /** A node that waits can take the answer that accepts it, if there is one. */
  lemma HolderReleases(s: Cluster, j: ClusterNodeInfo) returns (events: seq<Event>, t: Cluster)
    requires Holds(s, j)
    ensures Leads(s, events, t) && !t.leader.adding
  {
    if s.joiners[j].Waiting? {
      var e := TakesAnswer(j, Answer(s.joiners[j].request, Accept));
      var later: seq<Event>;
      later, t := AcceptedReleases(Apply(s, e), j);
      LeadsOne(s, e, later, t);
      events := [e] + later;
    } else {
      events, t := AcceptedReleases(s, j);
    }
  }

  /** The exact condition: the lock can be freed unless it is taken, no outcome is under way and nobody holds the grant. */
  lemma LockReleasesIff(s: Cluster)
    requires Inv(s)
    ensures CanRelease(s) <==> !Stuck(s)
  {
    if Stuck(s) {
      forall events: seq<Event>, t: Cluster | Leads(s, events, t)
        ensures t.leader.adding
      {
        StuckStays(s, events, t);
      }
    } else if !s.leader.adding {
      assert Leads(s, [], s);
    } else if s.outcomes != {} {
      var o :| o in s.outcomes;
      var events, t := OutcomeReleases(s, o);
    } else {
      var j :| Holds(s, j);
      var events, t := HolderReleases(s, j);
    }
  }

  /** A run in which the one request there is times out before its grant arrives. */
  lemma GrantCanBeLost(s0: Cluster, j: ClusterNodeInfo) returns (run: seq<Cluster>, events: seq<Event>)
    requires Init(s0) && j in s0.joiners
    ensures IsRun(run, events) && run[0] == s0 && Stuck(run[|events|])
  {
    var q := Request(s0.nextRequest, j);
    var s1 := Apply(s0, Asks(j));
    var s2 := Apply(s1, TimesOut(j));
    var s3 := Apply(s2, TakesRequest(q));
    run, events := [s0, s1, s2, s3], [Asks(j), TimesOut(j), TakesRequest(q)];
    forall i
      ensures !Holds(s3, i)
    {
      assert i in s3.joiners ==> s3.joiners[i] == Idle;
    }
  }
}
