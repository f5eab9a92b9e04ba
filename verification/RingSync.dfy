/** The start synchronisation of emulation/src/emulcore.rs: a proposal of a begin time goes round a ring until there is
    time for a confirmation to go round too. Node 0 is the leader; all read one clock, counted in milliseconds. */
module RingSync {
  const SECOND: nat := 1000

  datatype Message = EmulStart(time: nat) | EmulStartOk

  /** The receive loop of a node: not entered, running, or left with success or failure at some time. */
  datatype Phase = Starting | Receiving | Accepted(at: nat) | Failed(at: nat)

  /** The variables of a node; `allowed` remembers until when the leader allowed a confirmation to go round. */
  datatype Member = Member(phase: Phase, time: nat, beginTime: nat, allowed: nat)

  // ----- One node -----

  /** Before the loop: the leader proposes. */
  function Enter(leader: bool, m: Member, clock: nat): (r: (Member, seq<Message>)) {
    if leader then
      (Member(Receiving, clock, clock + 5 * SECOND, m.allowed), [EmulStart(clock + 5 * SECOND)])
    else (Member(Receiving, m.time, clock, m.allowed), [])
  }

  function Elapsed(since: nat, clock: nat): nat { if clock >= since then clock - since else 0 }

  /** One message; the clock is read up to three times. */
  function React(leader: bool, m: Member, message: Message, first: nat, second: nat, third: nat): (r: (Member, seq<Message>)) {
    match message
    case EmulStart(begin) =>
      if !leader then (m.(beginTime := begin), [EmulStart(begin)])
      else
        var round := Elapsed(m.time, first);
        var nextRound := second + (round + SECOND);
        if begin > nextRound then (m.(allowed := nextRound), [EmulStartOk])
        else
          var proposed := third + (round * 2 + 2 * SECOND);
          (m.(time := third, beginTime := proposed), [EmulStart(proposed)])
    case EmulStartOk =>
      if m.beginTime > first then (m.(phase := Accepted(first)), if leader then [] else [EmulStartOk])
      else (m.(phase := Failed(first)), [])
  }

  /** synchronize, between the messages. */
  class Synchronizer {
    const isLeader: bool
    var phase: Phase
    var time: nat
    var beginTime: nat
    ghost var allowed: nat

    ghost function View(): Member
      reads this
    {
      Member(phase, time, beginTime, allowed)
    }

    constructor (leader: bool)
      ensures isLeader == leader && View() == Member(Starting, 0, 0, 0)
    {
      isLeader := leader;
      phase, time, beginTime, allowed := Starting, 0, 0, 0;
    }

    method Begin(clock: nat) returns (sent: seq<Message>)
      modifies this
      ensures (View(), sent) == Enter(isLeader, old(View()), clock)
    {
      sent := [];
      phase := Receiving;
      if isLeader {
        time := clock;
        beginTime := time + 5 * SECOND;
        sent := [EmulStart(beginTime)];
      } else {
        beginTime := clock;
      }
    }

    /** The body of the loop; the network hands in a message and takes what is sent on. */
    method Handle(message: Message, first: nat, second: nat, third: nat) returns (sent: seq<Message>)
      modifies this
      ensures (View(), sent) == React(isLeader, old(View()), message, first, second, third)
    {
      sent := [];
      match message
      case EmulStart(begin) =>
        if isLeader {
          var round := Elapsed(time, first);
          var nextRound := second + (round + SECOND);
          if begin > nextRound {
            allowed := nextRound;
            sent := [EmulStartOk];
          } else {
            time := third;
            beginTime := time + (round * 2 + 2 * SECOND);
            sent := [EmulStart(beginTime)];
          }
        } else {
          beginTime := begin;
          sent := [EmulStart(beginTime)];
        }
      case EmulStartOk =>
        if beginTime > first {
          if !isLeader {
            sent := [EmulStartOk];
          }
          phase := Accepted(first);
        } else {
          phase := Failed(first);
        }
    }

    /** A turn of node i in the ring: what it sends is the only message there is, and if it accepts it holds the
        leader's time, which has not come yet, and it is the leader only if all others have accepted. */
    method Turn(ghost s: Ring, ghost i: nat, message: Message, first: nat, second: nat, third: nat) returns (sent: seq<Message>)
      requires Inv(s) && Enabled(s, Receives(i, first, second, third))
      requires isLeader == (i == 0) && View() == s.nodes[i] && message == s.inbox[i][0]
      modifies this
      ensures var next := Apply(s, Receives(i, first, second, third));
        && Inv(next) && View() == next.nodes[i]
        && (if sent == [] then Empty(next) else Token(next, After(i, |s.nodes|), sent[0]) && |sent| == 1)
      ensures phase.Accepted? ==>
        && beginTime == s.nodes[0].beginTime && first < beginTime
        && (isLeader ==> forall j | 1 <= j < |s.nodes| :: s.nodes[j].phase.Accepted?)
      ensures phase.Failed? ==> beginTime == s.nodes[0].beginTime && s.nodes[0].allowed < beginTime <= first
    {
      ghost var e := Receives(i, first, second, third);
      ghost var next := Apply(s, e);
      StepKeeps(s, e);
      OnlyMessage(s, e);
      sent := Handle(message, first, second, third);
      if phase.Accepted? {
        Accepts(s, e);
      } else if phase.Failed? {
        Fails(s, e);
      }
    }
  }

  // ----- The ring -----

  /** inbox[i] holds what node i has still to receive, oldest first. */
  datatype Ring = Ring(now: nat, nodes: seq<Member>, inbox: seq<seq<Message>>)

  ghost predicate Shape(s: Ring) { |s.nodes| == |s.inbox| >= 2 }

  /** The next host of a node. */
  function After(i: nat, n: nat): (next: nat)
    requires i < n
    ensures next == if i + 1 == n then 0 else i + 1
  {
    (i + 1) % n
  }

  ghost predicate Init(s: Ring) {
    Shape(s) && forall i | 0 <= i < |s.nodes| :: s.nodes[i].phase == Starting && s.inbox[i] == []
  }

  /** Node i takes the place of its new state and hands what it sends to the next node. */
  ghost function Deliver(s: Ring, i: nat, rest: seq<Message>, result: (Member, seq<Message>), now: nat): Ring
    requires Shape(s) && i < |s.nodes|
  {
    var inbox := s.inbox[i := rest];
    var next := After(i, |s.nodes|);
    Ring(now, s.nodes[i := result.0], inbox[next := inbox[next] + result.1])
  }

  datatype Event = Enters(i: nat, clock: nat) | Receives(i: nat, first: nat, second: nat, third: nat)

  ghost predicate Enabled(s: Ring, e: Event) {
    && Shape(s) && e.i < |s.nodes|
    && match e {
         case Enters(i, clock) => s.nodes[i].phase == Starting && s.now <= clock
         case Receives(i, first, second, third) =>
           s.nodes[i].phase == Receiving && s.inbox[i] != [] && s.now <= first <= second <= third
       }
  }

  ghost function Apply(s: Ring, e: Event): Ring
    requires Enabled(s, e)
  {
    match e
    case Enters(i, clock) => Deliver(s, i, s.inbox[i], Enter(i == 0, s.nodes[i], clock), clock)
    case Receives(i, first, second, third) =>
      Deliver(s, i, s.inbox[i][1..], React(i == 0, s.nodes[i], s.inbox[i][0], first, second, third), third)
  }

  ghost predicate IsRun(run: seq<Ring>, events: seq<Event>) {
    && |run| == |events| + 1 && Init(run[0])
    && forall k | 0 <= k < |events| :: Enabled(run[k], events[k]) && run[k + 1] == Apply(run[k], events[k])
  }

  // ----- What every step keeps -----

  /** Where the protocol stands: the message that goes round is on its way to node p. */
  datatype Stage = Fresh | Proposing(p: nat) | Confirming(p: nat) | Over(p: nat)

  ghost predicate Empty(s: Ring)
    requires Shape(s)
  {
    forall q | 0 <= q < |s.inbox| :: s.inbox[q] == []
  }

  /** There is one message, on its way to node p. */
  ghost predicate Token(s: Ring, p: nat, m: Message)
    requires Shape(s)
  {
    p < |s.inbox| && s.inbox[p] == [m] && forall q | 0 <= q < |s.inbox| && q != p :: s.inbox[q] == []
  }

  /** The message has passed follower i when it is on its way to p. */
  predicate Passed(i: nat, p: nat) { i < p || p == 0 }

  /** Follower i knows the proposal once it has passed. */
  ghost predicate Proposed(s: Ring, p: nat, i: nat)
    requires Shape(s) && i < |s.nodes|
  {
    && (s.nodes[i].phase == Starting || s.nodes[i].phase == Receiving)
    && (Passed(i, p) ==> s.nodes[i].phase == Receiving && s.nodes[i].beginTime == s.nodes[0].beginTime)
  }

  predicate AcceptedInTime(m: Member) { m.phase.Accepted? && m.phase.at < m.beginTime }

  /** Follower i has accepted in time once the confirmation has passed, and waits for it before. */
  ghost predicate Confirmed(s: Ring, p: nat, i: nat)
    requires Shape(s) && i < |s.nodes|
  {
    && s.nodes[i].beginTime == s.nodes[0].beginTime
    && (if Passed(i, p) then AcceptedInTime(s.nodes[i]) else s.nodes[i].phase == Receiving)
  }

  ghost predicate StageOk(s: Ring, stage: Stage) {
    && Shape(s)
    && match stage {
         case Fresh =>
           && Empty(s) && s.nodes[0].phase == Starting
           && forall i | 1 <= i < |s.nodes| :: s.nodes[i].phase == Starting || s.nodes[i].phase == Receiving
         case Proposing(p) =>
           && s.nodes[0].phase == Receiving && Token(s, p, EmulStart(s.nodes[0].beginTime))
           && forall i | 1 <= i < |s.nodes| :: Proposed(s, p, i)
         case Confirming(p) =>
           && s.nodes[0].phase == Receiving && Token(s, p, EmulStartOk) && s.nodes[0].allowed < s.nodes[0].beginTime
           && forall i | 1 <= i < |s.nodes| :: Confirmed(s, p, i)
         case Over(p) =>
           && p < |s.nodes| && Empty(s) && s.nodes[0].allowed < s.nodes[0].beginTime
           && (if p == 0 then AcceptedInTime(s.nodes[0]) || FailedLate(s.nodes[0])
               else s.nodes[0].phase == Receiving && s.nodes[p].beginTime == s.nodes[0].beginTime && FailedLate(s.nodes[p]))
           && forall i | 1 <= i < |s.nodes| && i != p :: Confirmed(s, p, i)
       }
  }

  predicate FailedLate(m: Member) { m.phase.Failed? && m.phase.at >= m.beginTime }

  ghost predicate Inv(s: Ring) { exists stage :: StageOk(s, stage) }

  lemma InitOk(s: Ring)
    requires Init(s)
    ensures Inv(s)
  {
    assert StageOk(s, Fresh);
  }

  /** The stage after a step. */
  ghost function NextStage(s: Ring, stage: Stage, e: Event): Stage
    requires StageOk(s, stage) && Enabled(s, e)
  {
    var n := |s.nodes|;
    if e.Enters? then (if e.i == 0 then Proposing(1) else stage)
    else if stage.Proposing? then
      (if e.i != 0 then Proposing(After(stage.p, n))
       else if React(true, s.nodes[0], s.inbox[0][0], e.first, e.second, e.third).1 == [EmulStartOk] then Confirming(1)
       else Proposing(1))
    else if stage.Confirming? then
      (if e.i != 0 && s.nodes[e.i].beginTime > e.first then Confirming(After(stage.p, n)) else Over(e.i))
    else stage
  }

  /** Delivering the one message moves it on, or takes it off. */
  lemma TokenMoves(s: Ring, p: nat, m: Message, result: (Member, seq<Message>), now: nat)
    requires Shape(s) && Token(s, p, m) && |result.1| <= 1
    ensures var next := Deliver(s, p, s.inbox[p][1..], result, now);
      && Shape(next) && |next.nodes| == |s.nodes|
      && (result.1 == [] ==> Empty(next))
      && (result.1 != [] ==> Token(next, After(p, |s.nodes|), result.1[0]))
  {
  }

  lemma NothingSent(s: Ring, i: nat, m: Member, now: nat)
    requires Shape(s) && i < |s.nodes|
    ensures Deliver(s, i, s.inbox[i], (m, []), now) == Ring(now, s.nodes[i := m], s.inbox)
  {
    var next := After(i, |s.nodes|);
    assert s.inbox[i := s.inbox[i]] == s.inbox;
    assert s.inbox[next] + [] == s.inbox[next];
    assert s.inbox[next := s.inbox[next]] == s.inbox;
  }

  /** Once a confirmation is under way all have entered. */
  lemma AllEntered(s: Ring, stage: Stage, i: nat)
    requires StageOk(s, stage) && (stage.Confirming? || stage.Over?) && i < |s.nodes|
    ensures s.nodes[i].phase != Starting
  {
    if i != 0 && !(stage.Over? && i == stage.p) {
      assert Confirmed(s, stage.p, i);
    }
  }

  lemma EnterFresh(s: Ring, e: Event)
    requires StageOk(s, Fresh) && Enabled(s, e) && e.Enters?
    ensures StageOk(Apply(s, e), if e.i == 0 then Proposing(1) else Fresh)
  {
    if e.i != 0 {
      NothingSent(s, e.i, Enter(false, s.nodes[e.i], e.clock).0, e.clock);
    } else {
      assert After(0, |s.nodes|) == 1;
    }
  }

  lemma EnterLate(s: Ring, p: nat, e: Event)
    requires StageOk(s, Proposing(p)) && Enabled(s, e) && e.Enters?
    ensures StageOk(Apply(s, e), Proposing(p))
  {
    assert e.i != 0;
    NothingSent(s, e.i, Enter(false, s.nodes[e.i], e.clock).0, e.clock);
    forall i | 1 <= i < |s.nodes|
      ensures Proposed(Apply(s, e), p, i)
    {
      assert Proposed(s, p, i);
    }
  }

  lemma EnterKeeps(s: Ring, stage: Stage, e: Event)
    requires StageOk(s, stage) && Enabled(s, e) && e.Enters?
    ensures StageOk(Apply(s, e), NextStage(s, stage, e))
  {
    match stage
    case Fresh => EnterFresh(s, e);
    case Proposing(p) => EnterLate(s, p, e);
    case _ => AllEntered(s, stage, e.i);
  }

  lemma LeaderDecides(s: Ring, e: Event)
    requires StageOk(s, Proposing(0)) && Enabled(s, e) && e.Receives? && e.i == 0
    ensures StageOk(Apply(s, e), NextStage(s, Proposing(0), e))
  {
    var next := Apply(s, e);
    TokenMoves(s, 0, s.inbox[0][0], React(true, s.nodes[0], s.inbox[0][0], e.first, e.second, e.third), e.third);
    assert After(0, |s.nodes|) == 1;
    forall i | 1 <= i < |s.nodes|
      ensures Proposed(next, 1, i)
      ensures next.nodes[0].beginTime == s.nodes[0].beginTime ==> Confirmed(next, 1, i)
    {
      assert Proposed(s, 0, i);
    }
  }

  lemma FollowerForwards(s: Ring, p: nat, e: Event)
    requires StageOk(s, Proposing(p)) && Enabled(s, e) && e.Receives? && e.i == p != 0
    ensures StageOk(Apply(s, e), Proposing(After(p, |s.nodes|)))
  {
    var next := Apply(s, e);
    TokenMoves(s, p, s.inbox[p][0], React(false, s.nodes[p], s.inbox[p][0], e.first, e.second, e.third), e.third);
    forall i | 1 <= i < |s.nodes|
      ensures Proposed(next, After(p, |s.nodes|), i)
    {
      assert Proposed(s, p, i);
    }
  }

  lemma ProposingKeeps(s: Ring, stage: Stage, e: Event)
    requires StageOk(s, stage) && Enabled(s, e) && e.Receives? && stage.Proposing?
    ensures StageOk(Apply(s, e), NextStage(s, stage, e))
  {
    assert e.i == stage.p;
    if stage.p == 0 {
      LeaderDecides(s, e);
    } else {
      FollowerForwards(s, stage.p, e);
    }
  }

  lemma ConfirmingKeeps(s: Ring, stage: Stage, e: Event)
    requires StageOk(s, stage) && Enabled(s, e) && e.Receives? && stage.Confirming?
    ensures StageOk(Apply(s, e), NextStage(s, stage, e))
  {
    var next, p := Apply(s, e), stage.p;
    assert e.i == p;
    TokenMoves(s, p, EmulStartOk, React(p == 0, s.nodes[p], EmulStartOk, e.first, e.second, e.third), e.third);
    if p == 0 {
      LeaderHears(s, e, next);
    } else if s.nodes[p].beginTime > e.first {
      FollowerAccepts(s, p, e, next);
    } else {
      FollowerFails(s, p, e, next);
    }
  }

  lemma LeaderHears(s: Ring, e: Event, next: Ring)
    requires StageOk(s, Confirming(0)) && Enabled(s, e) && e.Receives? && e.i == 0 && next == Apply(s, e) && Empty(next)
    ensures StageOk(next, Over(0))
  {
    forall i | 1 <= i < |s.nodes|
      ensures Confirmed(next, 0, i)
    {
      assert Confirmed(s, 0, i);
    }
  }

  lemma FollowerAccepts(s: Ring, p: nat, e: Event, next: Ring)
    requires StageOk(s, Confirming(p)) && Enabled(s, e) && e.Receives? && e.i == p != 0 && next == Apply(s, e)
    requires s.nodes[p].beginTime > e.first && Token(next, After(p, |s.nodes|), EmulStartOk)
    ensures StageOk(next, Confirming(After(p, |s.nodes|)))
  {
    var p' := After(p, |s.nodes|);
    assert Confirmed(s, p, p);
    assert AcceptedInTime(next.nodes[p]);
    forall i | 1 <= i < |s.nodes|
      ensures Confirmed(next, p', i)
    {
      assert Confirmed(s, p, i);
      assert i != p ==> next.nodes[i] == s.nodes[i];
      assert Passed(i, p') <==> Passed(i, p) || i == p;
    }
  }

  lemma FollowerFails(s: Ring, p: nat, e: Event, next: Ring)
    requires StageOk(s, Confirming(p)) && Enabled(s, e) && e.Receives? && e.i == p != 0 && next == Apply(s, e)
    requires s.nodes[p].beginTime <= e.first && Empty(next)
    ensures StageOk(next, Over(p))
  {
    assert Confirmed(s, p, p);
    forall i | 1 <= i < |s.nodes| && i != p
      ensures Confirmed(next, p, i)
    {
      assert Confirmed(s, p, i);
    }
  }

  lemma StepKeeps(s: Ring, e: Event)
    requires Inv(s) && Enabled(s, e)
    ensures Inv(Apply(s, e))
  {
    var stage :| StageOk(s, stage);
    if e.Enters? {
      EnterKeeps(s, stage, e);
    } else if stage.Proposing? {
      ProposingKeeps(s, stage, e);
    } else if stage.Confirming? {
      ConfirmingKeeps(s, stage, e);
    }
  }

  lemma {:induction false} RunKeeps(run: seq<Ring>, events: seq<Event>, k: nat)
    requires IsRun(run, events) && k < |run|
    ensures Inv(run[k])
  {
    if k == 0 {
      InitOk(run[0]);
    } else {
      RunKeeps(run, events, k - 1);
      StepKeeps(run[k - 1], events[k - 1]);
    }
  }

  // ----- Agreement -----

  /** What a node that has left the loop says about the stage. */
  lemma StageTells(s: Ring, stage: Stage, i: nat)
    requires StageOk(s, stage) && i < |s.nodes|
    ensures s.nodes[i].phase.Accepted? ==> AcceptedInTime(s.nodes[i])
    ensures s.nodes[i].phase.Failed? ==> FailedLate(s.nodes[i])
    ensures s.nodes[i].phase.Accepted? || s.nodes[i].phase.Failed? ==>
      && (stage.Confirming? || stage.Over?) && s.nodes[i].beginTime == s.nodes[0].beginTime
      && s.nodes[0].allowed < s.nodes[0].beginTime && !s.nodes[0].phase.Starting?
  {
    if i != 0 && stage.Proposing? {
      assert Proposed(s, stage.p, i);
    } else if i != 0 && (stage.Confirming? || (stage.Over? && stage.p != i)) {
      assert Confirmed(s, stage.p, i);
    }
  }

  lemma OverIsOver(s: Ring, p: nat, i: nat)
    requires StageOk(s, Over(p)) && i < |s.nodes|
    ensures s.nodes[i].phase.Accepted? || s.nodes[p].phase.Failed?
  {
    if i != 0 && i != p {
      assert Confirmed(s, p, i);
    }
  }

  /** In every state there is at most one message in the whole ring. */
  lemma OneToken(s: Ring, i: nat, j: nat)
    requires Inv(s) && i < |s.inbox| && j < |s.inbox| && s.inbox[i] != [] && s.inbox[j] != []
    ensures i == j && |s.inbox[i]| == 1
  {
    var stage :| StageOk(s, stage);
  }

  /** Whoever has accepted holds the time that the leader proposed last, accepted before that time, and after a
      confirmation for which the leader had left time. */
  lemma AcceptedAgree(s: Ring, i: nat)
    requires Inv(s) && i < |s.nodes| && s.nodes[i].phase.Accepted?
    ensures s.nodes[i].beginTime == s.nodes[0].beginTime && s.nodes[i].phase.at < s.nodes[0].beginTime
    ensures s.nodes[0].allowed < s.nodes[0].beginTime
  {
    var stage :| StageOk(s, stage);
    StageTells(s, stage, i);
  }

  /** The leader accepts only after every other node has. */
  lemma LeaderIsLast(s: Ring, i: nat)
    requires Inv(s) && s.nodes[0].phase.Accepted? && i < |s.nodes|
    ensures s.nodes[i].phase.Accepted?
  {
    var stage :| StageOk(s, stage);
    if i != 0 {
      assert Confirmed(s, 0, i);
    }
  }

  /** Once a node has accepted, the leader's proposal does not change any more. */
  lemma ProposalIsFinal(s: Ring, e: Event, i: nat)
    requires Inv(s) && Enabled(s, e) && i < |s.nodes| && s.nodes[i].phase.Accepted?
    ensures var next := Apply(s, e);
      && next.nodes[0].beginTime == s.nodes[0].beginTime
      && next.nodes[i].phase == s.nodes[i].phase && next.nodes[i].beginTime == s.nodes[i].beginTime
  {
    var stage :| StageOk(s, stage);
    StageTells(s, stage, i);
  }

  lemma {:induction false} FinalInRun(run: seq<Ring>, events: seq<Event>, j: nat, k: nat, i: nat)
    requires IsRun(run, events) && j <= k < |run| && Shape(run[j]) && i < |run[j].nodes| && run[j].nodes[i].phase.Accepted?
    ensures Shape(run[k]) && |run[k].nodes| == |run[j].nodes|
    ensures run[k].nodes[i].phase == run[j].nodes[i].phase && run[k].nodes[i].beginTime == run[j].nodes[i].beginTime
  {
    if j < k {
      FinalInRun(run, events, j, k - 1, i);
      RunKeeps(run, events, k - 1);
      ProposalIsFinal(run[k - 1], events[k - 1], i);
    }
  }

  /** Over a whole run, however many proposals it takes: all who ever accept agree on one begin time, each before it. */
  lemma RunAgrees(run: seq<Ring>, events: seq<Event>, j: nat, i: nat, k: nat, l: nat)
    requires IsRun(run, events) && j <= k < |run| && Shape(run[j]) && Shape(run[k]) && i < |run[j].nodes| && l < |run[k].nodes|
    requires run[j].nodes[i].phase.Accepted? && run[k].nodes[l].phase.Accepted?
    ensures run[j].nodes[i].beginTime == run[k].nodes[l].beginTime
    ensures run[j].nodes[i].phase.at < run[k].nodes[l].beginTime
  {
    FinalInRun(run, events, j, k, i);
    RunKeeps(run, events, k);
    AcceptedAgree(run[k], i);
    AcceptedAgree(run[k], l);
  }

  /** A node fails only when the confirmation is late: not before the time that the leader had allowed for it. */
  lemma FailureIsLate(s: Ring, i: nat)
    requires Inv(s) && i < |s.nodes| && s.nodes[i].phase.Failed?
    ensures s.nodes[i].phase.at >= s.nodes[0].beginTime > s.nodes[0].allowed
  {
    var stage :| StageOk(s, stage);
    StageTells(s, stage, i);
  }

  /** The ring never stalls: unless all have accepted or one has failed, a node can enter the loop or has a message to take. */
  lemma NoStall(s: Ring) returns (e: Event)
    requires Inv(s)
    requires exists i :: 0 <= i < |s.nodes| && !s.nodes[i].phase.Accepted?
    requires forall i :: 0 <= i < |s.nodes| ==> !s.nodes[i].phase.Failed?
    ensures Enabled(s, e)
  {
    var stage :| StageOk(s, stage);
    match stage
    case Fresh => e := Enters(0, s.now);
    case Proposing(p) =>
      if p != 0 {
        assert Proposed(s, p, p);
      }
      e := if s.nodes[p].phase.Starting? then Enters(p, s.now) else Receives(p, s.now, s.now, s.now);
    case Confirming(p) =>
      if p != 0 {
        assert Confirmed(s, p, p);
      }
      e := Receives(p, s.now, s.now, s.now);
    case Over(p) =>
      var i :| 0 <= i < |s.nodes| && !s.nodes[i].phase.Accepted?;
      OverIsOver(s, p, i);
      assert false;
  }

  // ----- A node's turn -----

  /** A node that can take a message takes the only one, and sends on at most one. */
  lemma OnlyMessage(s: Ring, e: Event)
    requires Inv(s) && Enabled(s, e) && e.Receives?
    ensures var result := React(e.i == 0, s.nodes[e.i], s.inbox[e.i][0], e.first, e.second, e.third);
      if result.1 == [] then Empty(Apply(s, e)) else |result.1| == 1 && Token(Apply(s, e), After(e.i, |s.nodes|), result.1[0])
  {
    var stage :| StageOk(s, stage);
    TokenMoves(s, e.i, s.inbox[e.i][0], React(e.i == 0, s.nodes[e.i], s.inbox[e.i][0], e.first, e.second, e.third), e.third);
  }

  /** Accepting happens on a confirmation, at the leader's time, by the leader last. */
  lemma Accepts(s: Ring, e: Event)
    requires Inv(s) && Enabled(s, e) && e.Receives? && Apply(s, e).nodes[e.i].phase.Accepted?
    ensures s.nodes[e.i].beginTime == s.nodes[0].beginTime == Apply(s, e).nodes[e.i].beginTime && e.first < s.nodes[0].beginTime
    ensures e.i == 0 ==> forall j | 1 <= j < |s.nodes| :: s.nodes[j].phase.Accepted?
  {
    var stage :| StageOk(s, stage);
    assert stage.Confirming? && stage.p == e.i;
    if e.i != 0 {
      assert Confirmed(s, stage.p, e.i);
    } else {
      forall j | 1 <= j < |s.nodes|
        ensures s.nodes[j].phase.Accepted?
      {
        assert Confirmed(s, 0, j);
      }
    }
  }

  lemma Fails(s: Ring, e: Event)
    requires Inv(s) && Enabled(s, e) && e.Receives? && Apply(s, e).nodes[e.i].phase.Failed?
    ensures s.nodes[e.i].beginTime == s.nodes[0].beginTime == Apply(s, e).nodes[e.i].beginTime
    ensures s.nodes[0].allowed < s.nodes[0].beginTime <= e.first
  {
    var stage :| StageOk(s, stage);
    assert stage.Confirming? && stage.p == e.i;
    if e.i != 0 {
      assert Confirmed(s, stage.p, e.i);
    }
  }

  // ----- When proposals end -----

  /** What the leader reads from its clock when its proposal has come round. */
  datatype Reading = Reading(first: nat, second: nat, third: nat)

  predicate Ordered(r: Reading, since: nat) { since <= r.first <= r.second <= r.third }

  /** The leader after it has proposed again, when the round before took `round`. */
  predicate Reproposed(m: Member, round: nat) { m.beginTime == m.time + (round * 2 + 2 * SECOND) }

  /** The first proposal leaves as much time as one made after a round of a second and a half. */
  lemma FirstProposal(m: Member, clock: nat)
    ensures Reproposed(Enter(true, m, clock).0, SECOND + SECOND / 2)
  {
  }

  /** A proposal made after a round is confirmed exactly when twice the new round, with the delay between the two
      readings, stays under twice the round before and a second. */
  lemma ConfirmsIff(m: Member, round: nat, r: Reading)
    requires Reproposed(m, round) && Ordered(r, m.time)
    ensures var (after, sent) := React(true, m, EmulStart(m.beginTime), r.first, r.second, r.third);
      && (sent == [EmulStartOk] <==> 2 * (r.first - m.time) + (r.second - r.first) < 2 * round + SECOND)
      && (sent != [EmulStartOk] ==> sent == [EmulStart(after.beginTime)] && after.time == r.third && Reproposed(after, r.first - m.time))
  {
  }

  /** The leader proposes again on each of the readings. */
  ghost predicate AllRepropose(m: Member, rs: seq<Reading>)
    decreases |rs|
  {
    rs == [] ||
      (&& Ordered(rs[0], m.time)
       && var (after, sent) := React(true, m, EmulStart(m.beginTime), rs[0].first, rs[0].second, rs[0].third);
       sent != [EmulStartOk] && AllRepropose(after, rs[1..]))
  }

  /** The delays between the first two readings, together. */
  ghost function Delays(rs: seq<Reading>): nat {
    if rs == [] then 0 else (if rs[0].second >= rs[0].first then rs[0].second - rs[0].first else 0) + Delays(rs[1..])
  }

  /** The leader after all the readings, and the last round. */
  ghost function AfterAll(m: Member, round: nat, rs: seq<Reading>): (Member, nat)
    decreases |rs|
  {
    if rs == [] then (m, round)
    else AfterAll(React(true, m, EmulStart(m.beginTime), rs[0].first, rs[0].second, rs[0].third).0, Elapsed(m.time, rs[0].first), rs[1..])
  }

  /** Proposals go on only while rounds grow, by half a second each apart from the delays. */
  lemma {:induction false} ProposingTakesGrowingRounds(m: Member, round: nat, rs: seq<Reading>)
    requires Reproposed(m, round) && AllRepropose(m, rs)
    ensures 2 * AfterAll(m, round, rs).1 + Delays(rs) >= 2 * round + |rs| * SECOND
    decreases |rs|
  {
    if rs != [] {
      var r := rs[0];
      ConfirmsIff(m, round, r);
      var after := React(true, m, EmulStart(m.beginTime), r.first, r.second, r.third).0;
      ProposingTakesGrowingRounds(after, r.first - m.time, rs[1..]);
    }
  }

  /** When no round takes longer than a bound, proposals end: from the first one on there are fewer than the bound allows. */
  lemma BoundedRoundsEnd(m: Member, clock: nat, rs: seq<Reading>, bound: nat)
    requires var first := Enter(true, m, clock).0;
      AllRepropose(first, rs) && AfterAll(first, SECOND + SECOND / 2, rs).1 <= bound
    ensures |rs| * SECOND + 3 * SECOND <= 2 * bound + Delays(rs)
  {
    FirstProposal(m, clock);
    ProposingTakesGrowingRounds(Enter(true, m, clock).0, SECOND + SECOND / 2, rs);
  }
}
