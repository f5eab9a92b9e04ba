/** The books of the orchestrator on values: which host runs which applications, and what bandwidth the
    live emulations hold (emulation/src/orchestrator.rs). */
module Bookkeeping {
  import opened Prelude
  import opened SymMatrices
  import opened HeapPermutations
  import opened Placements
  import opened Sums

  datatype Uuid = Uuid(value: nat)

  /** What is kept of an emulation: the bandwidth its applications ask for, and their hosts. */
  datatype Emulation = Emulation(matrix: Sym<nat>, equivalence: seq<nat>)

  datatype Books = Books(
    hosts: seq<ClusterNodeInfo>,
    attributed: map<ClusterNodeInfo, set<Uuid>>,
    load: map<ClusterNodeInfo, map<Uuid, nat>>,
    emulations: map<Uuid, Emulation>,
    running: map<Uuid, set<nat>>)
  {
    /** The load entry of an emulation on a node, 0 when there is none. */
    ghost function Entry(node: ClusterNodeInfo, id: Uuid): nat {
      if node in load && id in load[node] then load[node][id] else 0
    }

    ghost function Total(node: ClusterNodeInfo): nat {
      if node in load then Sum(load[node]) else 0
    }

    ghost predicate Listed(node: ClusterNodeInfo, id: Uuid) {
      node in attributed && id in attributed[node]
    }

    /** Application i of the emulation runs on the node. */
    ghost predicate RunsAt(node: ClusterNodeInfo, id: Uuid, i: nat) {
      && id in emulations && id in running && i in running[id]
      && i < |emulations[id].equivalence| && emulations[id].equivalence[i] < |hosts|
      && hosts[emulations[id].equivalence[i]] == node
    }

    ghost function AppsAt(node: ClusterNodeInfo, id: Uuid): set<nat> {
      if id in running then set i | i in running[id] && RunsAt(node, id, i) else {}
    }

    ghost predicate EmulationOk(id: Uuid)
      requires id in emulations && id in running
    {
      var e := emulations[id];
      && e.matrix.Valid() && |e.equivalence| == e.matrix.n
      && (forall i | 0 <= i < |e.equivalence| :: e.equivalence[i] < |hosts|)
      && (forall i | i in running[id] :: i < |e.equivalence|)
      && (e.matrix.n > 0 ==> running[id] != {})
    }

    /** The load entry counts the running applications, and the node lists the emulation when it runs some. */
    ghost predicate EntryOk(node: ClusterNodeInfo, id: Uuid) {
      && Entry(node, id) == |AppsAt(node, id)|
      && (Listed(node, id) <==> Entry(node, id) > 0)
      && (node in load && id in load[node] ==> load[node][id] > 0)
    }

    ghost predicate Kept() {
      && emulations.Keys == running.Keys
      && (forall id | id in emulations :: EmulationOk(id))
      && (forall node, id :: EntryOk(node, id))
    }
  }

  /** An emulation with applications is on record exactly when some host lists it. */
  lemma RecordIffListed(b: Books, id: Uuid)
    requires b.Kept()
    ensures id in b.emulations && b.emulations[id].matrix.n > 0 <==> exists node :: b.Listed(node, id)
  {
    if id in b.emulations && b.emulations[id].matrix.n > 0 {
      assert b.EmulationOk(id);
      var i :| i in b.running[id];
      var node := b.hosts[b.emulations[id].equivalence[i]];
      assert i in b.AppsAt(node, id);
      assert b.EntryOk(node, id) && b.Listed(node, id);
    }
    if node :| b.Listed(node, id) {
      assert b.EntryOk(node, id);
      var i :| i in b.AppsAt(node, id);
      assert b.EmulationOk(id);
    }
  }

  /** The running applications of a node, as pairs of emulation and application. */
  ghost function Tagged(m: map<Uuid, set<nat>>): (s: set<(Uuid, nat)>)
    ensures forall id, i :: (id, i) in s <==> id in m && i in m[id]
  {
    set id, i | id in m && i in m[id] :: (id, i)
  }

  ghost function Sizes(m: map<Uuid, set<nat>>): map<Uuid, nat> { map id | id in m :: |m[id]| }

  ghost function Tag(k: Uuid, s: set<nat>): set<(Uuid, nat)> { set i | i in s :: (k, i) }

  lemma {:induction false} TagSize(k: Uuid, s: set<nat>)
    ensures |Tag(k, s)| == |s|
    decreases |s|
  {
    if s == {} {
      assert Tag(k, s) == {};
    } else {
      var j :| j in s;
      TagSize(k, s - {j});
      assert Tag(k, s) == Tag(k, s - {j}) + {(k, j)};
    }
  }

  lemma TaggedWithout(m: map<Uuid, set<nat>>, k: Uuid)
    requires k in m
    ensures |Tagged(m)| == |m[k]| + |Tagged(m - {k})|
  {
    TagSize(k, m[k]);
    assert Tagged(m) == Tag(k, m[k]) + Tagged(m - {k});
    assert Tag(k, m[k]) !! Tagged(m - {k});
  }

  lemma {:induction false} TaggedSize(m: map<Uuid, set<nat>>)
    ensures |Tagged(m)| == Sum(Sizes(m))
    decreases |m|
  {
    if m.Keys == {} {
      assert Tagged(m) == {};
    } else {
      var k :| k in m.Keys;
      TaggedWithout(m, k);
      TaggedSize(m - {k});
      SumPick(Sizes(m), k);
      assert Sizes(m) - {k} == Sizes(m - {k});
    }
  }

  /** A host's load is the number of applications that run on it. */
  lemma LoadIsRunningApps(b: Books, node: ClusterNodeInfo)
    requires b.Kept()
    ensures b.Total(node) == |Tagged(map id | id in b.emulations :: b.AppsAt(node, id))|
  {
    var apps := map id | id in b.emulations :: b.AppsAt(node, id);
    var sizes := Sizes(apps);
    TaggedSize(apps);
    var entries := if node in b.load then b.load[node] else map[];
    forall id
      ensures id in entries ==> id in sizes && sizes[id] == entries[id]
      ensures id in sizes && id !in entries ==> sizes[id] == 0
    {
      assert b.EntryOk(node, id);
    }
    SameSum(entries, sizes);
  }

  /** Entries of value zero do not count. */
  lemma {:induction false} SameSum(a: map<Uuid, nat>, b: map<Uuid, nat>)
    requires forall id | id in a :: id in b && b[id] == a[id]
    requires forall id | id in b && id !in a :: b[id] == 0
    ensures Sum(a) == Sum(b)
    decreases |a|
  {
    if a.Keys == {} {
      SumZero(b);
    } else {
      var k :| k in a.Keys;
      SumPick(a, k);
      SumPick(b, k);
      SameSum(a - {k}, b - {k});
    }
  }

  // ----- Counting the applications of a new emulation -----

  /** How many of the first n applications of a placement run on the node. */
  ghost function CountOn(hosts: seq<ClusterNodeInfo>, pl: seq<nat>, node: ClusterNodeInfo, n: nat): nat
    requires n <= |pl| && forall i | 0 <= i < |pl| :: pl[i] < |hosts|
  {
    if n == 0 then 0 else CountOn(hosts, pl, node, n - 1) + if hosts[pl[n - 1]] == node then 1 else 0
  }

  ghost predicate Distinct(hosts: seq<ClusterNodeInfo>) {
    forall i, j | 0 <= i < j < |hosts| :: hosts[i] != hosts[j]
  }

  lemma {:induction false} CountOnHost(hosts: seq<ClusterNodeInfo>, pl: seq<nat>, h: nat, n: nat)
    requires n <= |pl| && (forall i | 0 <= i < |pl| :: pl[i] < |hosts|) && h < |hosts| && Distinct(hosts)
    ensures CountOn(hosts, pl, hosts[h], n) == multiset(pl[..n])[h]
  {
    if n > 0 {
      CountOnHost(hosts, pl, h, n - 1);
      assert pl[..n] == pl[..n - 1] + [pl[n - 1]];
    }
  }

  lemma {:induction false} CountOnSet(hosts: seq<ClusterNodeInfo>, pl: seq<nat>, node: ClusterNodeInfo, n: nat)
    requires n <= |pl| && forall i | 0 <= i < |pl| :: pl[i] < |hosts|
    ensures |set i | 0 <= i < n && hosts[pl[i]] == node| == CountOn(hosts, pl, node, n)
  {
    var s := set i | 0 <= i < n && hosts[pl[i]] == node;
    if n == 0 {
      assert s == {};
    } else {
      CountOnSet(hosts, pl, node, n - 1);
      var t := set i | 0 <= i < n - 1 && hosts[pl[i]] == node;
      assert s == t + if hosts[pl[n - 1]] == node then {n - 1} else {};
    }
  }

  // ----- The operations on the books -----

  /** One more application of the emulation on the node. */
  function AddApp(b: Books, node: ClusterNodeInfo, id: Uuid): Books {
    var entries: map<Uuid, nat> := if node in b.load then b.load[node] else map[];
    var listed := if node in b.attributed then b.attributed[node] else {};
    b.(load := b.load[node := entries[id := if id in entries then entries[id] + 1 else 1]],
       attributed := b.attributed[node := listed + {id}])
  }

  /** b' is b after the first n applications of the new emulation id have been placed. */
  ghost predicate Placing(b: Books, b': Books, id: Uuid, pl: seq<nat>, n: nat)
    requires n <= |pl| && forall i | 0 <= i < |pl| :: pl[i] < |b.hosts|
  {
    && b'.hosts == b.hosts && b'.emulations == b.emulations && b'.running == b.running
    && (forall node, x :: b'.Entry(node, x) == if x == id then CountOn(b.hosts, pl, node, n) else b.Entry(node, x))
    && (forall node, x :: b'.Listed(node, x) <==> if x == id then CountOn(b.hosts, pl, node, n) > 0 else b.Listed(node, x))
    && (forall node, x | node in b'.load && x in b'.load[node] :: b'.load[node][x] > 0)
    && (forall node :: b'.Total(node) == b.Total(node) + CountOn(b.hosts, pl, node, n))
  }

  lemma PlacingStarts(b: Books, id: Uuid, pl: seq<nat>)
    requires b.Kept() && id !in b.emulations && forall i | 0 <= i < |pl| :: pl[i] < |b.hosts|
    ensures Placing(b, b, id, pl, 0)
  {
    forall node, x
      ensures x == id ==> b.Entry(node, x) == 0 && !b.Listed(node, x)
      ensures node in b.load && x in b.load[node] ==> b.load[node][x] > 0
    {
      assert b.EntryOk(node, x);
      if x == id {
        assert b.AppsAt(node, x) == {};
      }
    }
  }

  lemma AddAppEffect(b: Books, host: ClusterNodeInfo, id: Uuid)
    ensures var b' := AddApp(b, host, id);
      && (forall node, x :: b'.Entry(node, x) == b.Entry(node, x) + if node == host && x == id then 1 else 0)
      && (forall node, x :: b'.Listed(node, x) <==> b.Listed(node, x) || (node == host && x == id))
      && (forall node :: b'.Total(node) == b.Total(node) + if node == host then 1 else 0)
  {
    var entries: map<Uuid, nat> := if host in b.load then b.load[host] else map[];
    if id in entries {
      SumUpdate(entries, id, entries[id] + 1);
    } else {
      SumInsert(entries, id, 1);
    }
    assert host !in b.load ==> Sum(entries) == 0;
  }

  lemma PlacingStep(b: Books, b': Books, id: Uuid, pl: seq<nat>, n: nat)
    requires n < |pl| && forall i | 0 <= i < |pl| :: pl[i] < |b.hosts|
    requires Placing(b, b', id, pl, n)
    ensures Placing(b, AddApp(b', b.hosts[pl[n]], id), id, pl, n + 1)
  {
    var host := b.hosts[pl[n]];
    var b'' := AddApp(b', host, id);
    AddAppEffect(b', host, id);
    forall node
      ensures CountOn(b.hosts, pl, node, n + 1) == CountOn(b.hosts, pl, node, n) + if node == host then 1 else 0
    {
    }
    forall node, x | node in b''.load && x in b''.load[node]
      ensures b''.load[node][x] > 0
    {
      AddAppPositive(b', host, id, node, x);
    }
  }

  lemma AddAppPositive(b: Books, host: ClusterNodeInfo, id: Uuid, node: ClusterNodeInfo, x: Uuid)
    requires forall node, x | node in b.load && x in b.load[node] :: b.load[node][x] > 0
    requires node in AddApp(b, host, id).load && x in AddApp(b, host, id).load[node]
    ensures AddApp(b, host, id).load[node][x] > 0
  {
  }

  /** The books with the emulation on record and all its applications running. */
  ghost function Recorded(b: Books, id: Uuid, e: Emulation): Books {
    b.(emulations := b.emulations[id := e], running := b.running[id := Range(|e.equivalence|)])
  }

  /** b' is b after the emulation id has been placed. */
  ghost predicate Started(b: Books, b': Books, id: Uuid, e: Emulation)
    requires forall i | 0 <= i < |e.equivalence| :: e.equivalence[i] < |b.hosts|
  {
    exists placed :: Placing(b, placed, id, e.equivalence, |e.equivalence|) && b' == Recorded(placed, id, e)
  }

  lemma StartedEntryOk(b: Books, placed: Books, id: Uuid, e: Emulation, node: ClusterNodeInfo, x: Uuid)
    requires b.Kept() && id !in b.emulations
    requires forall i | 0 <= i < |e.equivalence| :: e.equivalence[i] < |b.hosts|
    requires Placing(b, placed, id, e.equivalence, |e.equivalence|)
    ensures Recorded(placed, id, e).EntryOk(node, x)
  {
    var b' := Recorded(placed, id, e);
    assert b'.Entry(node, x) == placed.Entry(node, x) && (b'.Listed(node, x) <==> placed.Listed(node, x));
    if x == id {
      StartedApps(b, placed, id, e, node);
    } else {
      assert b.EntryOk(node, x);
      assert b'.AppsAt(node, x) == b.AppsAt(node, x);
    }
  }

  lemma StartedApps(b: Books, placed: Books, id: Uuid, e: Emulation, node: ClusterNodeInfo)
    requires forall i | 0 <= i < |e.equivalence| :: e.equivalence[i] < |b.hosts|
    requires placed.hosts == b.hosts
    ensures |Recorded(placed, id, e).AppsAt(node, id)| == CountOn(b.hosts, e.equivalence, node, |e.equivalence|)
  {
    var n := |e.equivalence|;
    CountOnSet(b.hosts, e.equivalence, node, n);
    assert Recorded(placed, id, e).AppsAt(node, id) == set i | 0 <= i < n && b.hosts[e.equivalence[i]] == node;
  }

  lemma StartKeepsBooks(b: Books, b': Books, id: Uuid, e: Emulation)
    requires b.Kept() && id !in b.emulations
    requires e.matrix.Valid() && |e.equivalence| == e.matrix.n
    requires forall i | 0 <= i < |e.equivalence| :: e.equivalence[i] < |b.hosts|
    requires Started(b, b', id, e)
    ensures b'.Kept()
  {
    var n := |e.equivalence|;
    var placed :| Placing(b, placed, id, e.equivalence, n) && b' == Recorded(placed, id, e);
    forall x | x in b'.emulations
      ensures b'.EmulationOk(x)
    {
      if x != id {
        assert b.EmulationOk(x);
      } else if n > 0 {
        assert 0 in b'.running[id];
      }
    }
    forall node, x
      ensures b'.EntryOk(node, x)
    {
      StartedEntryOk(b, placed, id, e, node, x);
    }
  }

  /** The books without the emulation id. */
  function Stop(b: Books, id: Uuid): Books {
    Books(
      b.hosts,
      map node | node in b.attributed :: b.attributed[node] - {id},
      map node | node in b.load :: b.load[node] - {id},
      b.emulations - {id},
      b.running - {id})
  }

  lemma StopKeepsBooks(b: Books, id: Uuid)
    requires b.Kept()
    ensures Stop(b, id).Kept()
    ensures forall node :: Stop(b, id).Total(node) + b.Entry(node, id) == b.Total(node)
  {
    var b' := Stop(b, id);
    forall x | x in b'.emulations
      ensures b'.EmulationOk(x)
    {
      assert b.EmulationOk(x);
    }
    forall node, x
      ensures b'.EntryOk(node, x)
    {
      assert b.EntryOk(node, x);
      if x != id {
        assert b'.AppsAt(node, x) == b.AppsAt(node, x);
      }
    }
    forall node
      ensures b'.Total(node) + b.Entry(node, id) == b.Total(node)
    {
      StopTotal(b, id, node);
    }
  }

  lemma StopTotal(b: Books, id: Uuid, node: ClusterNodeInfo)
    ensures Stop(b, id).Total(node) + b.Entry(node, id) == b.Total(node)
  {
    if node in b.load {
      if id in b.load[node] {
        SumPick(b.load[node], id);
      } else {
        assert b.load[node] - {id} == b.load[node];
      }
    }
  }

  lemma StartedEntryGone(b: Books, placed: Books, id: Uuid, e: Emulation, node: ClusterNodeInfo, x: Uuid)
    requires b.Kept() && id !in b.emulations
    requires forall i | 0 <= i < |e.equivalence| :: e.equivalence[i] < |b.hosts|
    requires Placing(b, placed, id, e.equivalence, |e.equivalence|)
    ensures var after := Stop(Recorded(placed, id, e), id);
      after.Entry(node, x) == b.Entry(node, x) && (after.Listed(node, x) <==> b.Listed(node, x))
  {
    assert b.EntryOk(node, x);
    var b' := Recorded(placed, id, e);
    assert b'.Entry(node, x) == placed.Entry(node, x) && (b'.Listed(node, x) <==> placed.Listed(node, x));
    if x == id {
      assert b.AppsAt(node, x) == {};
    }
  }

  lemma PutThenRemove<V>(m: map<Uuid, V>, id: Uuid, v: V)
    requires id !in m
    ensures m[id := v] - {id} == m
  {
  }

  /** Starting and stopping gives back every entry, listing and record. */
  lemma StopUndoesStart(b: Books, b': Books, id: Uuid, e: Emulation)
    requires b.Kept() && id !in b.emulations
    requires forall i | 0 <= i < |e.equivalence| :: e.equivalence[i] < |b.hosts|
    requires Started(b, b', id, e)
    ensures var b'' := Stop(b', id);
      && b''.hosts == b.hosts && b''.emulations == b.emulations && b''.running == b.running
      && (forall node, x :: b''.Entry(node, x) == b.Entry(node, x))
      && (forall node, x :: b''.Listed(node, x) <==> b.Listed(node, x))
  {
    var b'' := Stop(b', id);
    var placed :| Placing(b, placed, id, e.equivalence, |e.equivalence|) && b' == Recorded(placed, id, e);
    PutThenRemove(b.emulations, id, e);
    PutThenRemove(b.running, id, Range(|e.equivalence|));
    forall node, x
      ensures b''.Entry(node, x) == b.Entry(node, x) && (b''.Listed(node, x) <==> b.Listed(node, x))
    {
      StartedEntryGone(b, placed, id, e, node, x);
    }
  }

  /** The books after application `app` of the emulation id has stopped on its own host. */
  function StopApp(b: Books, id: Uuid, node: ClusterNodeInfo, app: nat): Books
    requires id in b.running && node in b.load && id in b.load[node] && b.load[node][id] > 0 && node in b.attributed
  {
    var left := b.load[node][id] - 1;
    var attributed := if left == 0 then b.attributed[node := b.attributed[node] - {id}] else b.attributed;
    var gone := forall x | x in attributed :: id !in attributed[x];
    Books(
      b.hosts,
      attributed,
      b.load[node := if left == 0 then b.load[node] - {id} else b.load[node][id := left]],
      if gone then b.emulations - {id} else b.emulations,
      if gone then b.running - {id} else b.running[id := b.running[id] - {app}])
  }

  /** Each application may stop once, on its own host. */
  ghost predicate CanStopApp(b: Books, id: Uuid, node: ClusterNodeInfo, app: nat) {
    b.RunsAt(node, id, app)
  }

  lemma RunningAppHasLoad(b: Books, id: Uuid, node: ClusterNodeInfo, app: nat)
    requires b.Kept() && CanStopApp(b, id, node, app)
    ensures node in b.load && id in b.load[node] && b.load[node][id] > 0 && b.Listed(node, id)
  {
    assert app in b.AppsAt(node, id);
    assert b.EntryOk(node, id);
  }

  lemma StopAppEntries(b: Books, id: Uuid, node: ClusterNodeInfo, app: nat, x: ClusterNodeInfo, y: Uuid)
    requires b.Kept() && CanStopApp(b, id, node, app)
    requires node in b.load && id in b.load[node] && b.load[node][id] > 0 && b.Listed(node, id)
    ensures var b' := StopApp(b, id, node, app);
      && b'.Entry(x, y) == b.Entry(x, y) - (if x == node && y == id then 1 else 0)
      && (b'.Listed(x, y) <==> b'.Entry(x, y) > 0)
      && (x in b'.load && y in b'.load[x] ==> b'.load[x][y] > 0)
  {
    assert b.EntryOk(x, y);
  }

  lemma StopAppEntryOk(b: Books, id: Uuid, node: ClusterNodeInfo, app: nat, x: ClusterNodeInfo, y: Uuid)
    requires b.Kept() && CanStopApp(b, id, node, app)
    requires node in b.load && id in b.load[node] && b.load[node][id] > 0 && b.Listed(node, id)
    ensures StopApp(b, id, node, app).EntryOk(x, y)
  {
    var b' := StopApp(b, id, node, app);
    assert b.EntryOk(x, y);
    StopAppEntries(b, id, node, app, x, y);
    if y != id {
      assert b'.AppsAt(x, y) == b.AppsAt(x, y);
    } else {
      StopAppApps(b, id, node, app, x);
    }
  }

  lemma StopAppApps(b: Books, id: Uuid, node: ClusterNodeInfo, app: nat, x: ClusterNodeInfo)
    requires CanStopApp(b, id, node, app) && node in b.load && id in b.load[node] && b.load[node][id] > 0 && node in b.attributed
    ensures var b' := StopApp(b, id, node, app);
      if id in b'.emulations then
        b'.AppsAt(x, id) == b.AppsAt(x, id) - {app} && (app in b.AppsAt(x, id) <==> x == node)
      else !b'.Listed(x, id) && b'.AppsAt(x, id) == {}
  {
  }

  lemma StopAppKeepsBooks(b: Books, id: Uuid, node: ClusterNodeInfo, app: nat)
    requires b.Kept() && CanStopApp(b, id, node, app)
    requires node in b.load && id in b.load[node] && b.load[node][id] > 0 && b.Listed(node, id)
    ensures StopApp(b, id, node, app).Kept()
  {
    var b' := StopApp(b, id, node, app);
    forall x, y
      ensures b'.EntryOk(x, y)
    {
      StopAppEntryOk(b, id, node, app, x, y);
    }
    forall y | y in b'.emulations
      ensures b'.EmulationOk(y)
    {
      assert b.EmulationOk(y);
      if y == id {
        var x :| x in b'.attributed && id in b'.attributed[x];
        assert b'.EntryOk(x, id) && b'.Listed(x, id);
        var i :| i in b'.AppsAt(x, id);
        assert i in b'.running[id];
      }
    }
  }

  lemma StopAppTotals(b: Books, id: Uuid, node: ClusterNodeInfo, app: nat, x: ClusterNodeInfo)
    requires node in b.load && id in b.load[node] && b.load[node][id] > 0 && b.Listed(node, id)
    requires id in b.running
    ensures StopApp(b, id, node, app).Total(x) + (if x == node then 1 else 0) == b.Total(x)
  {
    if x == node {
      SumPick(b.load[node], id);
      if b.load[node][id] > 1 {
        SumUpdate(b.load[node], id, b.load[node][id] - 1);
      }
    }
  }

  /** The books without host number h. */
  function RemoveHost(b: Books, h: nat): Books
    requires h < |b.hosts|
  {
    Books(Without(b.hosts, h), b.attributed - {b.hosts[h]}, b.load, b.emulations, b.running)
  }

  lemma RemoveHostKeepsBooks(b: Books, h: nat)
    requires b.Kept() && h < |b.hosts|
    requires forall node, id :: !b.Listed(node, id)
    ensures RemoveHost(b, h).Kept()
  {
    var b' := RemoveHost(b, h);
    forall id | id in b'.emulations
      ensures b'.EmulationOk(id)
    {
      assert b.EmulationOk(id);
      RecordIffListed(b, id);
    }
    forall node, id
      ensures b'.EntryOk(node, id)
    {
      assert b.EntryOk(node, id) && !b.Listed(node, id);
      if id in b.emulations {
        assert b.EmulationOk(id);
        RecordIffListed(b, id);
      }
      assert b'.AppsAt(node, id) == {};
    }
  }

  lemma RemoveHostUnlists(b: Books, h: nat)
    requires h < |b.hosts| && forall node, id :: !b.Listed(node, id)
    ensures forall node, id :: !RemoveHost(b, h).Listed(node, id)
  {
    forall node, id
      ensures !RemoveHost(b, h).Listed(node, id)
    {
      assert !b.Listed(node, id);
    }
  }

  // ----- The bandwidth ledger -----

  ghost function ReservedBy(e: Emulation, h: nat, o: nat): nat {
    if e.matrix.Valid() && |e.equivalence| == e.matrix.n then Reserved(e.matrix, e.equivalence, h, o) else 0
  }

  ghost function Reservations(emulations: map<Uuid, Emulation>, h: nat, o: nat): map<Uuid, nat> {
    map id | id in emulations :: ReservedBy(emulations[id], h, o)
  }

  /** Bandwidth that the live emulations hold between two hosts. */
  ghost function LiveReserved(emulations: map<Uuid, Emulation>, h: nat, o: nat): nat {
    Sum(Reservations(emulations, h, o))
  }

  /** Between distinct hosts, what is left and what is reserved add up to the base speed. */
  ghost predicate Balanced(residual: Sym<nat>, emulations: map<Uuid, Emulation>, base: Sym<nat>) {
    && residual.Valid() && base.Valid() && residual.n == base.n
    && forall h, o | 0 <= h < base.n && 0 <= o < base.n && h != o ::
      residual.At(h, o) + LiveReserved(emulations, h, o) == base.At(h, o)
  }

  lemma StartReserves(emulations: map<Uuid, Emulation>, id: Uuid, e: Emulation, h: nat, o: nat)
    requires id !in emulations
    ensures LiveReserved(emulations[id := e], h, o) == LiveReserved(emulations, h, o) + ReservedBy(e, h, o)
  {
    SumInsert(Reservations(emulations, h, o), id, ReservedBy(e, h, o));
    assert Reservations(emulations[id := e], h, o) == Reservations(emulations, h, o)[id := ReservedBy(e, h, o)];
  }

  lemma StopReleases(emulations: map<Uuid, Emulation>, id: Uuid, h: nat, o: nat)
    requires id in emulations
    ensures LiveReserved(emulations, h, o) == LiveReserved(emulations - {id}, h, o) + ReservedBy(emulations[id], h, o)
  {
    SumPick(Reservations(emulations, h, o), id);
    assert Reservations(emulations, h, o) - {id} == Reservations(emulations - {id}, h, o);
  }

  lemma NothingReserved(emulations: map<Uuid, Emulation>, h: nat, o: nat)
    requires forall id | id in emulations :: emulations[id].matrix.n == 0
    ensures LiveReserved(emulations, h, o) == 0
  {
    SumZero(Reservations(emulations, h, o));
  }

  /** When nothing is reserved the ledger survives the removal of a host. */
  lemma RemoveHostKeepsBalance(residual: Sym<nat>, residual': Sym<nat>, emulations: map<Uuid, Emulation>, base: Sym<nat>, base': Sym<nat>, id: nat)
    requires Balanced(residual, emulations, base)
    requires forall x | x in emulations :: emulations[x].matrix.n == 0
    requires Removes(residual, id, residual') && Removes(base, id, base')
    ensures Balanced(residual', emulations, base')
  {
    forall h, o | 0 <= h < base'.n && 0 <= o < base'.n && h != o
      ensures residual'.At(h, o) + LiveReserved(emulations, h, o) == base'.At(h, o)
    {
      NothingReserved(emulations, h, o);
      NothingReserved(emulations, Skip(h, id), Skip(o, id));
      assert residual'.At(h, o) == residual.At(Skip(h, id), Skip(o, id));
    }
  }

  // ----- Writing reservations into the residual matrix -----

  /** `after` is `before` plus the bandwidth of the first i rows of pairs and of j pairs of the next. */
  ghost predicate Given(before: Sym<nat>, after: Sym<nat>, g: Sym<nat>, pl: seq<nat>, i: nat, j: nat)
    requires g.Valid() && |pl| == g.n && i <= g.n && (i < g.n ==> j <= i) && (i == g.n ==> j == 0)
  {
    && before.Valid() && after.Valid() && after.n == before.n
    && forall h, o | 0 <= h < before.n && 0 <= o < before.n ::
      after.At(h, o) == before.At(h, o) + Credit(g, pl, h, o, i) + if i < g.n then CreditRow(g, pl, h, o, i, j) else 0
  }

  /** `after` is `before` minus that bandwidth, between distinct hosts. */
  ghost predicate Taken(before: Sym<nat>, after: Sym<nat>, g: Sym<nat>, pl: seq<nat>, i: nat, j: nat)
    requires g.Valid() && |pl| == g.n && i <= g.n && (i < g.n ==> j <= i) && (i == g.n ==> j == 0)
  {
    && before.Valid() && after.Valid() && after.n == before.n
    && (forall h | 0 <= h < before.n :: after.At(h, h) == before.At(h, h))
    && forall h, o | 0 <= h < before.n && 0 <= o < before.n && h != o ::
      after.At(h, o) + Credit(g, pl, h, o, i) + (if i < g.n then CreditRow(g, pl, h, o, i, j) else 0) == before.At(h, o)
  }

  /** What a matrix of residual speeds always is: no entry is above u32::MAX, and the entry of a host with itself is
      u32::MAX. */
  ghost predicate IsSpeeds(s: Sym<nat>) {
    && s.Valid()
    && (forall h, o | 0 <= h < s.n && 0 <= o < s.n :: s.At(h, o) <= MAX_BANDWIDTH)
    && (forall h | 0 <= h < s.n :: s.At(h, h) == MAX_BANDWIDTH)
  }

  lemma RemoveKeepsSpeeds(s: Sym<nat>, id: nat, t: Sym<nat>)
    requires IsSpeeds(s) && Removes(s, id, t)
    ensures IsSpeeds(t)
  {
    forall h, o | 0 <= h < t.n && 0 <= o < t.n
      ensures t.At(h, o) == s.At(Skip(h, id), Skip(o, id))
    {
      AtSymmetric(t, h, o);
      AtSymmetric(s, Skip(h, id), Skip(o, id));
    }
  }

  /** Crediting all pairs brings an entry above u32::MAX. */
  ghost predicate Overflows(before: Sym<nat>, e: Emulation) {
    e.matrix.Valid() && |e.equivalence| == e.matrix.n && before.Valid()
    && exists h, o | 0 <= h < before.n && 0 <= o < before.n :: OverflowsAt(before, e, h, o)
  }

  ghost predicate OverflowsAt(before: Sym<nat>, e: Emulation, h: nat, o: nat)
    requires e.matrix.Valid() && |e.equivalence| == e.matrix.n && before.Valid() && h < before.n && o < before.n
  {
    before.At(h, o) + Reserved(e.matrix, e.equivalence, h, o) > MAX_BANDWIDTH
  }

  /** Two applications that ask each other for bandwidth share one of the first n hosts. */
  ghost predicate Colocated(e: Emulation, n: nat) {
    e.matrix.Valid() && |e.equivalence| == e.matrix.n && exists h | 0 <= h < n :: ColocatedOn(e, h)
  }

  ghost predicate ColocatedOn(e: Emulation, h: nat)
    requires e.matrix.Valid() && |e.equivalence| == e.matrix.n
  {
    Reserved(e.matrix, e.equivalence, h, h) > 0
  }

  /** One credit, when it does not overflow. */
  lemma GivenStep(before: Sym<nat>, after: Sym<nat>, g: Sym<nat>, pl: seq<nat>, i: nat, j: nat)
    requires g.Valid() && |pl| == g.n && j < i < g.n
    requires pl[i] < before.n && pl[j] < before.n
    requires Given(before, after, g, pl, i, j) && IsSpeeds(after) && after.At(pl[i], pl[j]) + g.At(i, j) <= MAX_BANDWIDTH
    ensures var next := after.Put(pl[i], pl[j], after.At(pl[i], pl[j]) + g.At(i, j));
      Given(before, next, g, pl, i, j + 1) && IsSpeeds(next)
  {
    after.PutAt(pl[i], pl[j], after.At(pl[i], pl[j]) + g.At(i, j));
  }

  /** One credit that overflows: all credits of its cell do. */
  lemma GivenTooMuch(before: Sym<nat>, after: Sym<nat>, e: Emulation, i: nat, j: nat)
    requires e.matrix.Valid() && |e.equivalence| == e.matrix.n && j < i < e.matrix.n
    requires e.equivalence[i] < before.n && e.equivalence[j] < before.n
    requires Given(before, after, e.matrix, e.equivalence, i, j)
    requires after.At(e.equivalence[i], e.equivalence[j]) + e.matrix.At(i, j) > MAX_BANDWIDTH
    ensures Overflows(before, e)
  {
    var h, o := e.equivalence[i], e.equivalence[j];
    PartialCredit(e.matrix, e.equivalence, h, o, i, j + 1);
    assert OverflowsAt(before, e, h, o);
  }

  lemma GivenAll(before: Sym<nat>, after: Sym<nat>, e: Emulation)
    requires e.matrix.Valid() && |e.equivalence| == e.matrix.n
    requires Given(before, after, e.matrix, e.equivalence, e.matrix.n, 0) && IsSpeeds(after)
    ensures !Overflows(before, e)
  {
    forall h, o | 0 <= h < before.n && 0 <= o < before.n
      ensures !OverflowsAt(before, e, h, o)
    {
      assert after.At(h, o) == before.At(h, o) + Credit(e.matrix, e.equivalence, h, o, e.matrix.n);
    }
  }

  /** While the ledger holds, a stop overflows exactly when two applications that ask each other for bandwidth share a
      host: starting skipped such a pair, and stopping credits it on top of u32::MAX. */
  lemma StopOverflowsIff(residual: Sym<nat>, emulations: map<Uuid, Emulation>, id: Uuid, base: Sym<nat>)
    requires Balanced(residual, emulations, base) && IsSpeeds(residual) && IsSpeeds(base)
    requires id in emulations && emulations[id].matrix.Valid() && |emulations[id].equivalence| == emulations[id].matrix.n
    ensures Overflows(residual, emulations[id]) <==> Colocated(emulations[id], residual.n)
  {
    var e := emulations[id];
    forall h, o | 0 <= h < residual.n && 0 <= o < residual.n
      ensures OverflowsAt(residual, e, h, o) <==> h == o && ColocatedOn(e, h)
    {
      if h != o {
        StopReleases(emulations, id, h, o);
      }
    }
    if Overflows(residual, e) {
      var h, o :| 0 <= h < residual.n && 0 <= o < residual.n && OverflowsAt(residual, e, h, o);
      assert ColocatedOn(e, h);
    }
    if Colocated(e, residual.n) {
      var h :| 0 <= h < residual.n && ColocatedOn(e, h);
      assert OverflowsAt(residual, e, h, h);
    }
  }

  lemma GivenRow(before: Sym<nat>, after: Sym<nat>, g: Sym<nat>, pl: seq<nat>, i: nat)
    requires g.Valid() && |pl| == g.n && i < g.n
    requires Given(before, after, g, pl, i, i)
    ensures Given(before, after, g, pl, i + 1, 0)
  {
  }

  lemma TakenStep(before: Sym<nat>, after: Sym<nat>, g: Sym<nat>, pl: seq<nat>, i: nat, j: nat)
    requires g.Valid() && |pl| == g.n && j < i < g.n
    requires pl[i] < before.n && pl[j] < before.n && pl[i] != pl[j]
    requires Taken(before, after, g, pl, i, j)
    requires Reserved(g, pl, pl[i], pl[j]) <= before.At(pl[i], pl[j])
    ensures g.At(i, j) <= after.At(pl[i], pl[j])
    ensures Taken(before, after.Put(pl[i], pl[j], after.At(pl[i], pl[j]) - g.At(i, j)), g, pl, i, j + 1)
  {
    PartialCredit(g, pl, pl[i], pl[j], i, j + 1);
    after.PutAt(pl[i], pl[j], after.At(pl[i], pl[j]) - g.At(i, j));
  }

  /** Pairs on one host are skipped. */
  lemma TakenSkip(before: Sym<nat>, after: Sym<nat>, g: Sym<nat>, pl: seq<nat>, i: nat, j: nat)
    requires g.Valid() && |pl| == g.n && j < i < g.n && pl[i] == pl[j]
    requires Taken(before, after, g, pl, i, j)
    ensures Taken(before, after, g, pl, i, j + 1)
  {
  }

  lemma TakenRow(before: Sym<nat>, after: Sym<nat>, g: Sym<nat>, pl: seq<nat>, i: nat)
    requires g.Valid() && |pl| == g.n && i < g.n
    requires Taken(before, after, g, pl, i, i)
    ensures Taken(before, after, g, pl, i + 1, 0)
  {
  }

  /** Taking keeps a matrix of speeds one. */
  lemma TakenKeepsSpeeds(before: Sym<nat>, after: Sym<nat>, g: Sym<nat>, pl: seq<nat>)
    requires IsSpeeds(before) && g.Valid() && |pl| == g.n && Taken(before, after, g, pl, g.n, 0)
    ensures IsSpeeds(after)
  {
    forall h, o | 0 <= h < after.n && 0 <= o < after.n
      ensures after.At(h, o) <= before.At(h, o)
    {
      if h != o {
        assert after.At(h, o) + Credit(g, pl, h, o, g.n) == before.At(h, o);
      }
    }
  }

  /** Starting keeps the ledger. */
  lemma StartKeepsBalance(before: Sym<nat>, after: Sym<nat>, emulations: map<Uuid, Emulation>, id: Uuid, e: Emulation, base: Sym<nat>)
    requires id !in emulations && e.matrix.Valid() && |e.equivalence| == e.matrix.n
    requires Taken(before, after, e.matrix, e.equivalence, e.matrix.n, 0)
    requires Balanced(before, emulations, base)
    ensures Balanced(after, emulations[id := e], base)
  {
    forall h, o | 0 <= h < base.n && 0 <= o < base.n && h != o
      ensures after.At(h, o) + LiveReserved(emulations[id := e], h, o) == base.At(h, o)
    {
      StartReserves(emulations, id, e, h, o);
    }
  }

  /** Stopping keeps the ledger. */
  lemma StopKeepsBalance(before: Sym<nat>, after: Sym<nat>, emulations: map<Uuid, Emulation>, id: Uuid, base: Sym<nat>)
    requires id in emulations && emulations[id].matrix.Valid() && |emulations[id].equivalence| == emulations[id].matrix.n
    requires Given(before, after, emulations[id].matrix, emulations[id].equivalence, emulations[id].matrix.n, 0)
    requires Balanced(before, emulations, base)
    ensures Balanced(after, emulations - {id}, base)
  {
    forall h, o | 0 <= h < base.n && 0 <= o < base.n && h != o
      ensures after.At(h, o) + LiveReserved(emulations - {id}, h, o) == base.At(h, o)
    {
      StopReleases(emulations, id, h, o);
    }
  }

  /** Starting and stopping gives back the whole matrix, when stopping does not overflow. */
  lemma StopUndoesReservation(before: Sym<nat>, during: Sym<nat>, after: Sym<nat>, e: Emulation)
    requires e.matrix.Valid() && |e.equivalence| == e.matrix.n && IsSpeeds(before)
    requires Taken(before, during, e.matrix, e.equivalence, e.matrix.n, 0)
    requires Given(during, after, e.matrix, e.equivalence, e.matrix.n, 0) && IsSpeeds(after)
    ensures after == before
  {
    forall h, o | 0 <= h <= o < before.n
      ensures after.At(h, o) == before.At(h, o)
    {
      if h != o {
        assert after.At(h, o) == during.At(h, o) + Credit(e.matrix, e.equivalence, h, o, e.matrix.n);
      }
    }
    Extensional(after, before);
  }

  /** `after` is `before` plus the bandwidth of application `app` to the first i others. */
  ghost predicate GivenByApp(before: Sym<nat>, after: Sym<nat>, g: Sym<nat>, pl: seq<nat>, app: nat, i: nat)
    requires g.Valid() && |pl| == g.n && app < g.n && i <= g.n
  {
    && before.Valid() && after.Valid() && after.n == before.n
    && forall h, o | 0 <= h < before.n && 0 <= o < before.n ::
      after.At(h, o) == before.At(h, o) + AppCredit(g, pl, h, o, app, i)
  }

  lemma GivenByAppStep(before: Sym<nat>, after: Sym<nat>, g: Sym<nat>, pl: seq<nat>, app: nat, i: nat)
    requires g.Valid() && |pl| == g.n && app < g.n && i < g.n && i != app
    requires pl[app] < before.n && pl[i] < before.n
    requires GivenByApp(before, after, g, pl, app, i) && IsSpeeds(after) && after.At(pl[app], pl[i]) + g.At(app, i) <= MAX_BANDWIDTH
    ensures var next := after.Put(pl[app], pl[i], after.At(pl[app], pl[i]) + g.At(app, i));
      GivenByApp(before, next, g, pl, app, i + 1) && IsSpeeds(next)
  {
    after.PutAt(pl[app], pl[i], after.At(pl[app], pl[i]) + g.At(app, i));
  }

  /** Crediting one application brings an entry above u32::MAX. */
  ghost predicate AppOverflows(before: Sym<nat>, e: Emulation, app: nat) {
    e.matrix.Valid() && |e.equivalence| == e.matrix.n && app < e.matrix.n && before.Valid()
    && exists h, o | 0 <= h < before.n && 0 <= o < before.n :: AppOverflowsAt(before, e, app, h, o)
  }

  ghost predicate AppOverflowsAt(before: Sym<nat>, e: Emulation, app: nat, h: nat, o: nat)
    requires e.matrix.Valid() && |e.equivalence| == e.matrix.n && app < e.matrix.n && before.Valid() && h < before.n && o < before.n
  {
    before.At(h, o) + AppCredit(e.matrix, e.equivalence, h, o, app, e.matrix.n) > MAX_BANDWIDTH
  }

  lemma {:induction false} AppCreditGrows(g: Sym<nat>, pl: seq<nat>, h: nat, o: nat, app: nat, i: nat, n: nat)
    requires g.Valid() && |pl| == g.n && app < g.n && i <= n <= g.n
    ensures AppCredit(g, pl, h, o, app, i) <= AppCredit(g, pl, h, o, app, n)
  {
    if i < n {
      AppCreditGrows(g, pl, h, o, app, i, n - 1);
    }
  }

  lemma GivenTooMuchByApp(before: Sym<nat>, after: Sym<nat>, e: Emulation, app: nat, i: nat)
    requires e.matrix.Valid() && |e.equivalence| == e.matrix.n && app < e.matrix.n && i < e.matrix.n && i != app
    requires e.equivalence[app] < before.n && e.equivalence[i] < before.n
    requires GivenByApp(before, after, e.matrix, e.equivalence, app, i)
    requires after.At(e.equivalence[app], e.equivalence[i]) + e.matrix.At(app, i) > MAX_BANDWIDTH
    ensures AppOverflows(before, e, app)
  {
    var h, o := e.equivalence[app], e.equivalence[i];
    AppCreditGrows(e.matrix, e.equivalence, h, o, app, i + 1, e.matrix.n);
    assert AppOverflowsAt(before, e, app, h, o);
  }

  lemma GivenAllByApp(before: Sym<nat>, after: Sym<nat>, e: Emulation, app: nat)
    requires e.matrix.Valid() && |e.equivalence| == e.matrix.n && app < e.matrix.n
    requires GivenByApp(before, after, e.matrix, e.equivalence, app, e.matrix.n) && IsSpeeds(after)
    ensures !AppOverflows(before, e, app)
  {
    forall h, o | 0 <= h < before.n && 0 <= o < before.n
      ensures !AppOverflowsAt(before, e, app, h, o)
    {
    }
  }

  lemma {:induction false} AppCreditSees(g: Sym<nat>, pl: seq<nat>, app: nat, other: nat, n: nat)
    requires g.Valid() && |pl| == g.n && app < g.n && other < n <= g.n && other != app
    ensures AppCredit(g, pl, pl[app], pl[other], app, n) >= g.At(app, other)
  {
    if other < n - 1 {
      AppCreditSees(g, pl, app, other, n - 1);
    }
  }

  /** Stopping an application that asks another one on its host for bandwidth overflows. */
  lemma AppStopOverflows(residual: Sym<nat>, e: Emulation, app: nat, other: nat)
    requires IsSpeeds(residual) && e.matrix.Valid() && |e.equivalence| == e.matrix.n && app < e.matrix.n && other < e.matrix.n
    requires app != other && e.equivalence[app] == e.equivalence[other] < residual.n && e.matrix.At(app, other) > 0
    ensures AppOverflows(residual, e, app)
  {
    var h := e.equivalence[app];
    AppCreditSees(e.matrix, e.equivalence, app, other, e.matrix.n);
    assert AppOverflowsAt(residual, e, app, h, h);
  }
}
