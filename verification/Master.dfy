/** The membership tables of master/master.go: servers by id, lists by type, and last heartbeats. */
module Master {
  /** What identifies a registration; the state, count and time stamps kept beside it are not modelled. */
  datatype Info = Info(id: string, serverType: string, host: string, port: int, frontend: bool)

  datatype Tables = Tables(servers: map<string, Info>, byType: map<string, seq<Info>>, heartbeats: map<string, int>)

  const EMPTY := Tables(map[], map[], map[])

  /** Thirty seconds, in nanoseconds. */
  const TIMEOUT := 30_000_000_000

  function ListOf(t: Tables, k: string): seq<Info> {
    if k in t.byType then t.byType[k] else []
  }

  /** The list without the first entry of each of these ids. */
  function Drop(list: seq<Info>, ids: set<string>): seq<Info> {
    if list == [] then []
    else if list[0].id in ids then Drop(list[1..], ids - {list[0].id})
    else [list[0]] + Drop(list[1..], ids)
  }

  lemma {:induction false} DropMembers(list: seq<Info>, ids: set<string>)
    ensures forall x :: x in Drop(list, ids) ==> x in list
    ensures forall x :: x in list && x.id !in ids ==> x in Drop(list, ids)
  {
    if list != [] {
      DropMembers(list[1..], ids - {list[0].id});
      DropMembers(list[1..], ids);
    }
  }

  // ---- The operations on the tables ----

  function Register(t: Tables, info: Info, now: int): Tables {
    Tables(t.servers[info.id := info],
           t.byType[info.serverType := ListOf(t, info.serverType) + [info]],
           t.heartbeats[info.id := now])
  }

  function DropAt(byType: map<string, seq<Info>>, k: string, id: string): map<string, seq<Info>> {
    if k in byType then byType[k := Drop(byType[k], {id})] else byType
  }

  function Unregister(t: Tables, id: string): Tables {
    if id !in t.servers then t
    else Tables(t.servers - {id}, DropAt(t.byType, t.servers[id].serverType, id), t.heartbeats - {id})
  }

  function Heartbeat(t: Tables, id: string, now: int): Tables {
    t.(heartbeats := t.heartbeats[id := now])
  }

  function Expired(t: Tables, now: int): set<string> {
    set id | id in t.heartbeats && now - t.heartbeats[id] > TIMEOUT
  }

  function OfType(t: Tables, ids: set<string>, k: string): set<string> {
    set id | id in ids && id in t.servers && t.servers[id].serverType == k
  }

  /** Removing a set of ids that were found silent. */
  function Expel(t: Tables, ids: set<string>): Tables {
    Tables(t.servers - ids, map k | k in t.byType :: Drop(t.byType[k], OfType(t, ids, k)), t.heartbeats - ids)
  }

  function Check(t: Tables, now: int): Tables {
    Expel(t, Expired(t, now))
  }

  // ---- Invariants ----

  /** Each registered server has a heartbeat entry and is in its type's list. */
  ghost predicate Consistent(t: Tables) {
    forall id :: id in t.servers ==>
      && t.servers[id].id == id
      && id in t.heartbeats
      && t.servers[id] in ListOf(t, t.servers[id].serverType)
  }

  predicate DistinctIds(list: seq<Info>) {
    forall i, j :: 0 <= i < j < |list| ==> list[i].id != list[j].id
  }

  /** The lists hold the registered servers, each once and under its own type, and nothing else. */
  ghost predicate Exact(t: Tables) {
    Consistent(t) && forall k :: k in t.byType ==> ListExact(t.servers, k, t.byType[k])
  }

  ghost predicate ListExact(servers: map<string, Info>, k: string, list: seq<Info>) {
    && DistinctIds(list)
    && forall x :: x in list ==> x.serverType == k && x.id in servers && servers[x.id] == x
  }

  lemma {:induction false} DropDistinct(list: seq<Info>, ids: set<string>)
    requires DistinctIds(list)
    ensures DistinctIds(Drop(list, ids))
    ensures forall x :: x in Drop(list, ids) ==> x.id !in ids
  {
    if list != [] {
      DropDistinct(list[1..], ids - {list[0].id});
      DropDistinct(list[1..], ids);
      DropMembers(list[1..], ids);
      DropMembers(list[1..], ids - {list[0].id});
      assert forall x :: x in list[1..] ==> x.id != list[0].id;
    }
  }

  /** Dropping one more id afterwards is dropping it together with the others. */
  lemma {:induction false} DropOneMore(list: seq<Info>, ids: set<string>, id: string)
    requires id !in ids
    ensures Drop(Drop(list, ids), {id}) == Drop(list, ids + {id})
    decreases |list|
  {
    if list != [] {
      var h := list[0];
      if h.id in ids {
        DropOneMore(list[1..], ids - {h.id}, id);
        assert (ids + {id}) - {h.id} == (ids - {h.id}) + {id};
      } else if h.id == id {
        DropNone(Drop(list[1..], ids));
        assert {id} - {id} == {} && (ids + {id}) - {id} == ids;
      } else {
        DropOneMore(list[1..], ids, id);
      }
    }
  }

  lemma {:induction false} DropNone(list: seq<Info>)
    ensures Drop(list, {}) == list
  {
    if list != [] {
      DropNone(list[1..]);
    }
  }

  // ---- Every operation keeps them ----

  lemma {:induction false} RegisterKeeps(t: Tables, info: Info, now: int)
    requires Consistent(t)
    ensures Consistent(Register(t, info, now))
  {
    var u := Register(t, info, now);
    assert info in ListOf(u, info.serverType);
    assert forall k, x :: x in ListOf(t, k) ==> x in ListOf(u, k);
  }

  lemma {:induction false} UnregisterKeeps(t: Tables, id: string)
    requires Consistent(t)
    ensures Consistent(Unregister(t, id))
  {
    if id in t.servers {
      var u := Unregister(t, id);
      DropMembers(ListOf(t, t.servers[id].serverType), {id});
      forall x | x in u.servers ensures t.servers[x] in ListOf(u, t.servers[x].serverType) {
        assert t.servers[x] in ListOf(t, t.servers[x].serverType);
      }
    }
  }

  /** A list stays exact when some ids go from it and from the table together. */
  lemma {:induction false} DropKeepsExact(
      servers: map<string, Info>, k: string, list: seq<Info>, ids: set<string>, gone: set<string>)
    requires ListExact(servers, k, list)
    requires ids <= gone && forall id :: id in gone && id in servers && servers[id].serverType == k ==> id in ids
    ensures ListExact(servers - gone, k, Drop(list, ids))
  {
    DropDistinct(list, ids);
    DropMembers(list, ids);
  }

  lemma {:induction false} UnregisterKeepsExact(t: Tables, id: string)
    requires Exact(t)
    ensures Exact(Unregister(t, id))
  {
    UnregisterKeeps(t, id);
    if id in t.servers {
      var u := Unregister(t, id);
      forall k | k in u.byType ensures ListExact(u.servers, k, u.byType[k]) {
        assert ListExact(t.servers, k, t.byType[k]);
        if k == t.servers[id].serverType {
          DropKeepsExact(t.servers, k, t.byType[k], {id}, {id});
        } else {
          DropNone(t.byType[k]);
          DropKeepsExact(t.servers, k, t.byType[k], {}, {id});
        }
      }
    }
  }

  lemma {:induction false} ExpelKeeps(t: Tables, ids: set<string>)
    requires Consistent(t)
    ensures Consistent(Expel(t, ids))
  {
    var u := Expel(t, ids);
    forall k | k in t.byType
      ensures forall x :: x in t.byType[k] && x.id !in ids ==> x in u.byType[k]
    {
      DropMembers(t.byType[k], OfType(t, ids, k));
    }
  }

  lemma {:induction false} ExpelKeepsExact(t: Tables, ids: set<string>)
    requires Exact(t)
    ensures Exact(Expel(t, ids))
  {
    ExpelKeeps(t, ids);
    forall k | k in t.byType ensures ListExact(t.servers - ids, k, Drop(t.byType[k], OfType(t, ids, k))) {
      DropKeepsExact(t.servers, k, t.byType[k], OfType(t, ids, k), ids);
    }
  }

  lemma {:induction false} AppendKeepsExact(servers: map<string, Info>, k: string, list: seq<Info>, info: Info)
    requires ListExact(servers, k, list) && info.id !in servers
    ensures ListExact(servers[info.id := info], k, list)
    ensures info.serverType == k ==> ListExact(servers[info.id := info], k, list + [info])
  {
    assert forall x :: x in list ==> x.id != info.id;
  }

  lemma {:induction false} RegisterAbsentKeepsExact(t: Tables, info: Info, now: int)
    requires Exact(t) && info.id !in t.servers
    ensures Exact(Register(t, info, now))
  {
    var u := Register(t, info, now);
    RegisterKeeps(t, info, now);
    forall k | k in u.byType ensures ListExact(u.servers, k, u.byType[k]) {
      var list := ListOf(t, k);
      AppendKeepsExact(t.servers, k, list, info);
      assert u.byType[k] == if k == info.serverType then list + [info] else list;
    }
  }

  lemma {:induction false} ReRegisterBreaksExact(t: Tables, info: Info, now: int)
    requires info.id in t.servers && t.servers[info.id].id == info.id
    requires t.servers[info.id] in ListOf(t, t.servers[info.id].serverType)
    ensures !Exact(Register(t, info, now))
  {
    var u := Register(t, info, now);
    var was := t.servers[info.id];
    var list := ListOf(t, was.serverType);
    var i :| 0 <= i < |list| && list[i] == was;
    if was.serverType == info.serverType {
      var longer := list + [info];
      assert longer[i].id == longer[|list|].id;
      assert !DistinctIds(longer);
      assert u.byType[was.serverType] == longer;
    } else {
      assert u.byType[was.serverType] == list;
      assert list[i] in list;
      assert !ListExact(u.servers, was.serverType, list);
    }
  }

  /** From exact lists, registering keeps them exact just when the id is not registered yet. */
  lemma {:induction false} RegisterKeepsExactIffAbsent(t: Tables, info: Info, now: int)
    requires Exact(t)
    ensures Exact(Register(t, info, now)) <==> info.id !in t.servers
  {
    if info.id in t.servers {
      ReRegisterBreaksExact(t, info, now);
    } else {
      RegisterAbsentKeepsExact(t, info, now);
    }
  }

  lemma {:induction false} StepKeepsExact(t: Tables, op: Op)
    requires Exact(t) && (op.RegisterOp? ==> op.info.id !in t.servers)
    ensures Exact(Step(t, op))
  {
    match op {
      case RegisterOp(info, now) => RegisterAbsentKeepsExact(t, info, now);
      case UnregisterOp(id) => UnregisterKeepsExact(t, id);
      case HeartbeatOp(id, now) =>
      case CheckOp(now) => ExpelKeepsExact(t, Expired(t, now));
    }
  }

  /** The entries with other ids, in their order. */
  function Survivors(list: seq<Info>, ids: set<string>): (r: seq<Info>)
    ensures forall x :: x in r <==> x in list && x.id !in ids
  {
    if list == [] then []
    else if list[0].id in ids then Survivors(list[1..], ids)
    else [list[0]] + Survivors(list[1..], ids)
  }

  /** In a list without repetitions dropping the first entry of each id drops all of them. */
  lemma {:induction false} DropIsSurvivors(list: seq<Info>, ids: set<string>, gone: set<string>)
    requires DistinctIds(list)
    requires forall x :: x in list ==> (x.id in ids <==> x.id in gone)
    ensures Drop(list, ids) == Survivors(list, gone)
    decreases |list|
  {
    if list != [] {
      var tail := list[1..];
      assert list[0] in list && forall x :: x in tail ==> x in list && x.id != list[0].id;
      DropIsSurvivors(tail, if list[0].id in ids then ids - {list[0].id} else ids, gone);
    }
  }

  /** From exact tables, expelling ids leaves no trace of them and of the others everything, in its order. */
  lemma {:induction false} ExpelForgets(t: Tables, gone: set<string>, k: string)
    requires Exact(t)
    ensures ListOf(Expel(t, gone), k) == Survivors(ListOf(t, k), gone)
  {
    if k in t.byType {
      assert ListExact(t.servers, k, t.byType[k]);
      DropIsSurvivors(t.byType[k], OfType(t, gone, k), gone);
    }
  }

  /** A check forgets the silent ids, registered or not, and keeps the others' entries as they are. */
  lemma {:induction false} CheckForgets(t: Tables, now: int)
    requires Exact(t)
    ensures var u, silent := Check(t, now), Expired(t, now);
            && Exact(u)
            && u.servers == t.servers - silent && u.heartbeats == t.heartbeats - silent
            && forall k :: ListOf(u, k) == Survivors(ListOf(t, k), silent)
  {
    ExpelKeepsExact(t, Expired(t, now));
    forall k ensures ListOf(Check(t, now), k) == Survivors(ListOf(t, k), Expired(t, now)) {
      ExpelForgets(t, Expired(t, now), k);
    }
  }

  /** From exact tables, unregistering leaves no trace of a registered id and changes nothing about the others. */
  lemma {:induction false} UnregisterForgets(t: Tables, id: string)
    requires Exact(t)
    ensures var u := Unregister(t, id);
            && u.servers == t.servers - {id}
            && u.heartbeats == (if id in t.servers then t.heartbeats - {id} else t.heartbeats)
            && forall k :: ListOf(u, k) == Survivors(ListOf(t, k), {id})
  {
    var u := Unregister(t, id);
    forall k ensures ListOf(u, k) == Survivors(ListOf(t, k), {id}) {
      if k in t.byType {
        assert ListExact(t.servers, k, t.byType[k]);
        var ids := if id in t.servers && k == t.servers[id].serverType then {id} else {};
        DropIsSurvivors(t.byType[k], ids, {id});
        DropNone(t.byType[k]);
      }
    }
  }

  lemma {:induction false} DropAppended(list: seq<Info>, info: Info)
    requires forall x :: x in list ==> x.id != info.id
    ensures Drop(list + [info], {info.id}) == list
    decreases |list|
  {
    if list == [] {
      assert [] + [info] == [info] && [info][1..] == [];
    } else {
      assert (list + [info])[1..] == list[1..] + [info];
      DropAppended(list[1..], info);
    }
  }

  /** Registering an unknown server and unregistering it again changes nothing that can be looked up. */
  lemma {:induction false} RegisterThenUnregister(t: Tables, info: Info, now: int)
    requires Exact(t) && info.id !in t.servers && info.id !in t.heartbeats
    ensures var u := Unregister(Register(t, info, now), info.id);
            && u.servers == t.servers && u.heartbeats == t.heartbeats
            && forall k :: ListOf(u, k) == ListOf(t, k)
  {
    var k := info.serverType;
    assert k in t.byType ==> ListExact(t.servers, k, t.byType[k]);
    DropAppended(ListOf(t, k), info);
    UndoneTables(t, info, now);
  }

  lemma {:induction false} UndoneTables(t: Tables, info: Info, now: int)
    requires info.id !in t.servers && info.id !in t.heartbeats
    requires Drop(ListOf(t, info.serverType) + [info], {info.id}) == ListOf(t, info.serverType)
    ensures var u := Unregister(Register(t, info, now), info.id);
            && u.servers == t.servers && u.heartbeats == t.heartbeats
            && u.byType == t.byType[info.serverType := ListOf(t, info.serverType)]
  {
    assert t.servers[info.id := info] - {info.id} == t.servers;
    assert t.heartbeats[info.id := now] - {info.id} == t.heartbeats;
  }

  // ---- Whole runs ----

  datatype Op =
    | RegisterOp(info: Info, now: int)
    | UnregisterOp(id: string)
    | HeartbeatOp(id: string, now: int)
    | CheckOp(now: int)

  function Step(t: Tables, op: Op): Tables {
    match op
    case RegisterOp(info, now) => Register(t, info, now)
    case UnregisterOp(id) => Unregister(t, id)
    case HeartbeatOp(id, now) => Heartbeat(t, id, now)
    case CheckOp(now) => Check(t, now)
  }

  function Run(ops: seq<Op>): Tables {
    if ops == [] then EMPTY else Step(Run(ops[..|ops| - 1]), ops[|ops| - 1])
  }

  /** When a server was last heard of: its latest registration or heartbeat. */
  function LastSeen(ops: seq<Op>, id: string): int {
    if ops == [] then 0
    else
      match ops[|ops| - 1]
      case RegisterOp(info, now) => if info.id == id then now else LastSeen(ops[..|ops| - 1], id)
      case HeartbeatOp(other, now) => if other == id then now else LastSeen(ops[..|ops| - 1], id)
      case _ => LastSeen(ops[..|ops| - 1], id)
  }

  lemma {:induction false} EveryRunIsConsistent(ops: seq<Op>)
    ensures Consistent(Run(ops))
    ensures forall id :: id in Run(ops).heartbeats ==> Run(ops).heartbeats[id] == LastSeen(ops, id)
    decreases |ops|
  {
    if ops != [] {
      var before := ops[..|ops| - 1];
      EveryRunIsConsistent(before);
      var t := Run(before);
      match ops[|ops| - 1] {
        case RegisterOp(info, now) => RegisterKeeps(t, info, now);
        case UnregisterOp(id) => UnregisterKeeps(t, id);
        case HeartbeatOp(id, now) =>
        case CheckOp(now) => ExpelKeeps(t, Expired(t, now));
      }
    }
  }

  /** What one id's registration has come to: the latest one, unless unregistered or found silent since. */
  function Registered(ops: seq<Op>, id: string): (r: (bool, Info))
    ensures r.0 ==> exists i :: 0 <= i < |ops| && ops[i].RegisterOp? && ops[i].info == r.1 && r.1.id == id
  {
    if ops == [] then (false, Info("", "", "", 0, false))
    else
      var before := Registered(ops[..|ops| - 1], id);
      match ops[|ops| - 1]
      case RegisterOp(info, now) => if info.id == id then (true, info) else before
      case UnregisterOp(other) => if other == id then (false, before.1) else before
      case HeartbeatOp(_, _) => before
      case CheckOp(now) => if now - LastSeen(ops[..|ops| - 1], id) > TIMEOUT then (false, before.1) else before
  }

  /** Whether one id has a heartbeat entry: since its latest registration or heartbeat, unless removed or expired since. */
  function Beating(ops: seq<Op>, id: string): bool {
    ops != [] &&
    var before := ops[..|ops| - 1];
    match ops[|ops| - 1]
    case RegisterOp(info, _) => info.id == id || Beating(before, id)
    case UnregisterOp(other) => Beating(before, id) && (other == id ==> !Registered(before, id).0)
    case HeartbeatOp(other, _) => other == id || Beating(before, id)
    case CheckOp(now) => Beating(before, id) && now - LastSeen(before, id) <= TIMEOUT
  }

  /** In every run the table of servers is, id by id, what has become of the latest registration. */
  lemma {:induction false} TablesComeFromEvents(ops: seq<Op>, id: string)
    ensures id in Run(ops).servers <==> Registered(ops, id).0
    ensures id in Run(ops).servers ==> Run(ops).servers[id] == Registered(ops, id).1
    ensures id in Run(ops).heartbeats <==> Beating(ops, id)
    decreases |ops|
  {
    if ops != [] {
      var before := ops[..|ops| - 1];
      TablesComeFromEvents(before, id);
      EveryRunIsConsistent(before);
      OneStep(Run(before), ops[|ops| - 1], id);
    }
  }

  /** One operation, seen from one id. */
  lemma {:induction false} OneStep(t: Tables, op: Op, id: string)
    requires Consistent(t)
    ensures var u := Step(t, op);
            match op
            case RegisterOp(info, now) =>
              if info.id == id then id in u.servers && u.servers[id] == info && id in u.heartbeats
              else SameFor(t, u, id)
            case UnregisterOp(other) =>
              if other == id then id !in u.servers && (id in u.heartbeats <==> id in t.heartbeats && id !in t.servers)
              else SameFor(t, u, id)
            case HeartbeatOp(other, now) =>
              && (id in u.servers <==> id in t.servers) && (id in t.servers ==> u.servers[id] == t.servers[id])
              && (id in u.heartbeats <==> id in t.heartbeats || other == id)
            case CheckOp(now) =>
              if id in t.heartbeats && now - t.heartbeats[id] > TIMEOUT
              then id !in u.servers && id !in u.heartbeats
              else SameFor(t, u, id)
  {
  }

  predicate SameFor(t: Tables, u: Tables, id: string) {
    && (id in u.servers <==> id in t.servers) && (id in t.servers ==> u.servers[id] == t.servers[id])
    && (id in u.heartbeats <==> id in t.heartbeats)
  }

  /** A check removes a registered server exactly when it has been silent for more than thirty seconds. */
  lemma {:induction false} CheckRemovesExactlyTheSilent(ops: seq<Op>, now: int, id: string)
    requires id in Run(ops).servers
    ensures id !in Run(ops + [CheckOp(now)]).servers <==> now - LastSeen(ops, id) > 30 * 1_000_000_000
    ensures var t, u := Run(ops), Run(ops + [CheckOp(now)]);
            id in u.servers ==>
              && u.servers[id] == t.servers[id]
              && id in u.heartbeats && u.heartbeats[id] == t.heartbeats[id]
              && u.servers[id] in ListOf(u, u.servers[id].serverType)
  {
    EveryRunIsConsistent(ops);
    EveryRunIsConsistent(ops + [CheckOp(now)]);
    assert (ops + [CheckOp(now)])[..|ops|] == ops;
  }

  /** In this run ids are registered only while they are absent. */
  ghost predicate RegistersAbsentIds(ops: seq<Op>) {
    forall i :: 0 <= i < |ops| && ops[i].RegisterOp? ==> ops[i].info.id !in Run(ops[..i]).servers
  }

  lemma {:induction false} ListsAreExactWithoutReRegistration(ops: seq<Op>)
    requires RegistersAbsentIds(ops)
    ensures Exact(Run(ops))
    decreases |ops|
  {
    if ops != [] {
      var n := |ops| - 1;
      var before := ops[..n];
      assert forall i :: 0 <= i < n ==> before[..i] == ops[..i];
      ListsAreExactWithoutReRegistration(before);
      StepKeepsExact(Run(before), ops[n]);
    }
  }

  /** The tables after registering x and then y under the same type. */
  lemma {:induction false} RegisteredTwice(x: Info, y: Info, now: int)
    requires x.id == y.id && x.serverType == y.serverType
    ensures var t := Register(Register(EMPTY, x, now), y, now);
            t.servers == map[x.id := y] && ListOf(t, x.serverType) == [x, y]
  {
    assert ListOf(Register(EMPTY, x, now), x.serverType) == [x];
    assert [x] + [y] == [x, y];
  }

  lemma {:induction false} UnregisteredOnce(t: Tables, x: Info, y: Info)
    requires x.id == y.id && x.serverType == y.serverType
    requires t.servers == map[x.id := y] && ListOf(t, x.serverType) == [x, y]
    ensures var u := Unregister(t, x.id); x.id !in u.servers && ListOf(u, x.serverType) == [y]
  {
    DropFront([x, y], x.id);
    assert [x, y][1..] == [y];
  }

  /** Two entries of one id are never exact. */
  lemma {:induction false} TwiceIsNotExact(t: Tables, x: Info, y: Info)
    requires x.id == y.id && ListOf(t, x.serverType) == [x, y]
    ensures !Exact(t)
  {
    var list := [x, y];
    assert list[0].id == list[1].id;
    assert !DistinctIds(list);
  }

  /**
   * Registering an id twice and unregistering it once, under the same type: the server is gone from the table but
   * a server of that id is still listed.
   */
  lemma {:induction false} ReRegistrationLeavesAStaleEntry(x: Info, y: Info, now: int)
    requires x.id == y.id && x.serverType == y.serverType
    ensures var twice := [RegisterOp(x, now)] + [RegisterOp(y, now)];
            var gone := twice + [UnregisterOp(x.id)];
            && !Exact(Run(twice)) && ListOf(Run(twice), x.serverType) == [x, y]
            && x.id !in Run(gone).servers && ListOf(Run(gone), x.serverType) == [y]
  {
    var one, twice := [RegisterOp(x, now)], [RegisterOp(x, now)] + [RegisterOp(y, now)];
    assert [] + one == one;
    RunSnoc([], RegisterOp(x, now));
    RunSnoc(one, RegisterOp(y, now));
    RunSnoc(twice, UnregisterOp(x.id));
    RegisteredTwice(x, y, now);
    TwiceIsNotExact(Run(twice), x, y);
    UnregisteredOnce(Run(twice), x, y);
  }

  lemma {:induction false} RunSnoc(ops: seq<Op>, op: Op)
    ensures Run(ops + [op]) == Step(Run(ops), op)
  {
    assert (ops + [op])[..|ops|] == ops;
  }

  // ---- The master itself ----

  /** A decoded registration message: the server type may come in either of two fields. */
  datatype Registration = Registration(id: string, kind: string, host: string, port: int, frontend: bool, serverType: string)

  /** The loop that cuts the first entry with this id out of a type's list. */
  method CutFirst(st: seq<Info>, id: string) returns (r: seq<Info>)
    ensures r == Drop(st, {id})
  {
    var i := 0;
    while i < |st| && st[i].id != id
      invariant 0 <= i <= |st|
      invariant forall k :: 0 <= k < i ==> st[k].id != id
    {
      i := i + 1;
    }
    DropAtFirst(st, id, i);
    r := if i < |st| then st[..i] + st[i + 1..] else st;
  }

  /** Where the list has the id first, dropping it leaves the entries before and after that place. */
  lemma {:induction false} DropAtFirst(st: seq<Info>, id: string, i: nat)
    requires i <= |st| && (forall k :: 0 <= k < i ==> st[k].id != id) && (i < |st| ==> st[i].id == id)
    ensures Drop(st, {id}) == if i < |st| then st[..i] + st[i + 1..] else st
  {
    DropBehind(st, i, {id});
    if i < |st| {
      DropFront(st[i..], id);
      assert st[i..][1..] == st[i + 1..];
    } else {
      assert st[i..] == [] && st[..i] + [] == st;
    }
  }

  /** Entries with other ids stay. */
  lemma {:induction false} DropBehind(st: seq<Info>, i: nat, ids: set<string>)
    requires i <= |st| && (forall k :: 0 <= k < i ==> st[k].id !in ids)
    ensures Drop(st, ids) == st[..i] + Drop(st[i..], ids)
    decreases i
  {
    if i == 0 {
      assert st[..0] + Drop(st[0..], ids) == Drop(st, ids) by {
        assert st[0..] == st;
      }
    } else {
      DropBehind(st, i - 1, ids);
      var rest := Drop(st[i..], ids);
      assert Drop(st[i - 1..], ids) == [st[i - 1]] + rest by {
        assert st[i - 1..][1..] == st[i..];
      }
      assert st[..i - 1] + ([st[i - 1]] + rest) == st[..i] + rest;
    }
  }

  lemma {:induction false} DropFront(st: seq<Info>, id: string)
    requires st != [] && st[0].id == id
    ensures Drop(st, {id}) == st[1..]
  {
    assert {id} - {st[0].id} == {};
    DropNone(st[1..]);
  }

  class MasterServer {
    var servers: map<string, Info>
    var byType: map<string, seq<Info>>
    var heartbeats: map<string, int>

    ghost function State(): Tables
      reads this
    {
      Tables(servers, byType, heartbeats)
    }

    constructor ()
      ensures State() == EMPTY
    {
      servers, byType, heartbeats := map[], map[], map[];
    }

    method AddServer(info: Info, now: int)
      modifies this
      ensures State() == Register(old(State()), info, now)
    {
      servers := servers[info.id := info];
      var list := if info.serverType in byType then byType[info.serverType] else [];
      byType := byType[info.serverType := list + [info]];
      heartbeats := heartbeats[info.id := now];
    }

    method HandleRegister(reg: Registration, now: int)
      modifies this
      ensures var k := if reg.serverType == "" then reg.kind else reg.serverType;
              State() == Register(old(State()), Info(reg.id, k, reg.host, reg.port, reg.frontend), now)
    {
      var info := Info(reg.id, reg.serverType, reg.host, reg.port, reg.frontend);
      if info.serverType == "" {
        info := info.(serverType := reg.kind);
      }
      AddServer(info, now);
    }

    method RemoveFrom(k: string, id: string)
      modifies this`byType
      ensures byType == DropAt(old(byType), k, id)
    {
      if k in byType {
        var list := CutFirst(byType[k], id);
        byType := byType[k := list];
      }
    }

    /** handleUnregister and RemoveServer. */
    method RemoveServer(id: string)
      modifies this
      ensures State() == Unregister(old(State()), id)
    {
      if id in servers {
        var info := servers[id];
        servers := servers - {id};
        RemoveFrom(info.serverType, id);
        heartbeats := heartbeats - {id};
      }
    }

    method HandleHeartbeat(id: string, now: int)
      modifies this
      ensures State() == Heartbeat(old(State()), id, now)
    {
      heartbeats := heartbeats[id := now];
    }

    /** The expiry loop; Go visits the heartbeat table in any order, and the result is the same for all of them. */
    method CheckHeartbeats(now: int)
      modifies this
      ensures State() == Check(old(State()), now)
    {
      ghost var t := State();
      ghost var gone: set<string> := {};
      var todo := heartbeats.Keys;
      ExpelNobody(t);
      while todo != {}
        invariant todo <= heartbeats.Keys && todo !! gone
        invariant gone <= Expired(t, now) && Expired(t, now) - todo == gone
        invariant State() == Expel(t, gone)
        decreases todo
      {
        var id :| id in todo;
        todo := todo - {id};
        if now - heartbeats[id] > TIMEOUT {
          ExpelOneMore(t, gone, id);
          ExpelOneMoreLists(t, gone, id);
          if id in servers {
            var k := servers[id].serverType;
            heartbeats := heartbeats - {id};
            servers := servers - {id};
            RemoveFrom(k, id);
          } else {
            heartbeats := heartbeats - {id};
          }
          gone := gone + {id};
        }
      }
      assert gone == Expired(t, now);
    }
  }

  lemma {:induction false} ExpelNobody(t: Tables)
    ensures Expel(t, {}) == t
  {
    forall k | k in t.byType ensures Drop(t.byType[k], OfType(t, {}, k)) == t.byType[k] {
      assert OfType(t, {}, k) == {};
      DropNone(t.byType[k]);
    }
  }

  lemma {:induction false} DropOneMoreAt(t: Tables, gone: set<string>, id: string, k: string)
    requires id !in gone && k in t.byType
    ensures Drop(t.byType[k], OfType(t, gone + {id}, k)) ==
            if id in t.servers && t.servers[id].serverType == k
            then Drop(Drop(t.byType[k], OfType(t, gone, k)), {id})
            else Drop(t.byType[k], OfType(t, gone, k))
  {
    if id in t.servers && t.servers[id].serverType == k {
      DropOneMore(t.byType[k], OfType(t, gone, k), id);
      assert OfType(t, gone + {id}, k) == OfType(t, gone, k) + {id};
    } else {
      assert OfType(t, gone + {id}, k) == OfType(t, gone, k);
    }
  }

  lemma {:induction false} ExpelOneMoreLists(t: Tables, gone: set<string>, id: string)
    requires id !in gone
    ensures Expel(t, gone + {id}).byType ==
            if id in t.servers then DropAt(Expel(t, gone).byType, t.servers[id].serverType, id)
            else Expel(t, gone).byType
  {
    var u, v := Expel(t, gone).byType, Expel(t, gone + {id}).byType;
    forall k | k in t.byType
      ensures v[k] == if id in t.servers && t.servers[id].serverType == k then Drop(u[k], {id}) else u[k]
    {
      DropOneMoreAt(t, gone, id, k);
    }
  }

  /** One turn of the expiry loop. */
  lemma {:induction false} ExpelOneMore(t: Tables, gone: set<string>, id: string)
    requires id !in gone
    ensures Expel(t, gone + {id}).heartbeats == Expel(t, gone).heartbeats - {id}
    ensures Expel(t, gone + {id}).servers == Expel(t, gone).servers - {id}
    ensures id in Expel(t, gone).servers <==> id in t.servers
    ensures id in t.servers ==> Expel(t, gone).servers[id] == t.servers[id]
  {
    assert t.heartbeats - (gone + {id}) == (t.heartbeats - gone) - {id};
    assert t.servers - (gone + {id}) == (t.servers - gone) - {id};
  }
}
