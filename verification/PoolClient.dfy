/**
 * The blocking connection pool of rpc/client.go (poolClient): its lock regions as steps of any
 * number of callers, with the condition variable's waiters, and those of them it has signalled, kept
 * in the state. sync.Cond wakes nobody without a Signal or Broadcast.
 */
module PoolClient {
  import opened Prelude

  type ConnId = nat
  type CallerId = nat

  datatype State = State(
    minConns: int,
    maxConns: nat,
    idle: seq<ConnId>,
    total: int,
    closed: bool,
    waiting: set<CallerId>,
    signalled: set<CallerId>,     // the waiters that may go on as soon as they get the lock
    lent: map<ConnId, CallerId>,  // which caller holds a connection
    dialled: nat,                  // connections dialled so far; they are numbered from 0
    shut: set<ConnId>,            // connections closed by the pool
    leaked: nat)                  // idle connections that Close dropped without uncounting them

  /** newPoolClient and its warm-up: one dial per wanted connection, failures are skipped. */
  function Warm(minConns: int, maxConns: nat, dials: seq<bool>): State
    requires |dials| == if minConns <= 0 then 0 else minConns
  {
    var n := Successes(dials);
    State(minConns, maxConns, seq(n, i => i), n, false, {}, {}, map[], n, {}, 0)
  }

  function Successes(dials: seq<bool>): (n: nat)
    ensures n <= |dials|
  {
    if dials == [] then 0 else Successes(dials[1..]) + if dials[0] then 1 else 0
  }

  /** The warm-up leaves as many connections as dials succeeded. */
  lemma {:induction false} WarmUpKeepsEverySuccess(dials: seq<bool>)
    ensures Successes(dials) == multiset(dials)[true]
    decreases |dials|
  {
    if dials != [] {
      assert dials == [dials[0]] + dials[1..];
      WarmUpKeepsEverySuccess(dials[1..]);
    }
  }

  datatype Event =
    | Get(k: CallerId, ok: bool)
    | Wake(k: CallerId, expired: bool)
    | Return(conn: ConnId, woken: CallerId)
    | Close

  /** The last idle connection goes to the caller. */
  function Lend(s: State, k: CallerId): State
    requires s.idle != []
  {
    var conn := s.idle[|s.idle| - 1];
    s.(idle := s.idle[..|s.idle| - 1], lent := s.lent[conn := k])
  }

  function Leave(s: State, k: CallerId): State {
    s.(waiting := s.waiting - {k}, signalled := s.signalled - {k})
  }

  /** One lock region; a Return signals `woken`, which is one of the waiters not yet signalled if there is any. */
  function Next(s: State, e: Event): Option<State> {
    match e
    case Get(k, ok) =>
      if k in s.waiting then None
      else if s.closed then Some(s)
      else if s.idle != [] then Some(Lend(s, k))
      else if s.maxConns > 0 && s.total >= s.maxConns then Some(s.(waiting := s.waiting + {k}))
      else if !ok then Some(s)
      else Some(s.(total := s.total + 1, lent := s.lent[s.dialled := k], dialled := s.dialled + 1))
    case Wake(k, expired) =>
      if k !in s.signalled then None
      else if s.closed then Some(Leave(s, k))
      else if s.idle != [] then Some(Leave(Lend(s, k), k))
      else if expired then Some(Leave(s, k))
      else Some(s.(signalled := s.signalled - {k}))
    case Return(conn, woken) =>
      if conn !in s.lent || (s.waiting != s.signalled && woken !in s.waiting - s.signalled) then None
      else
        var t := s.(lent := s.lent - {conn});
        if s.closed || |s.idle| >= s.maxConns
        then Some(t.(total := s.total - 1, shut := s.shut + {conn}))
        else Some(t.(idle := s.idle + [conn],
                     signalled := if s.waiting == s.signalled then s.signalled else s.signalled + {woken}))
    case Close =>
      if s.closed then Some(s)
      else Some(s.(closed := true, idle := [], signalled := s.waiting,
                   shut := s.shut + (set c | c in s.idle), leaked := |s.idle|))
  }

  function Run(s: State, events: seq<Event>): Option<State> {
    if events == [] then Some(s)
    else
      match Run(s, events[..|events| - 1])
      case None => None
      case Some(t) => Next(t, events[|events| - 1])
  }

  predicate Distinct(s: seq<ConnId>) {
    forall i, j :: 0 <= i < j < |s| ==> s[i] != s[j]
  }

  /** Each idle connection has its own signalled waiter, or else every waiter has been signalled. */
  ghost predicate NoLostWakeup(s: State) {
    && s.signalled <= s.waiting
    && (s.waiting == s.signalled || |s.idle| <= |s.signalled|)
  }

  ghost predicate Inv(s: State) {
    && s.total == |s.idle| + |s.lent| + s.leaked
    && (s.closed ==> s.idle == [])
    && (!s.closed ==> s.leaked == 0)
    && (s.maxConns > 0 ==> s.total <= Max(s.minConns, s.maxConns))
    && |s.idle| <= Max(s.minConns, s.maxConns)
    && (!s.closed && s.waiting != {} ==> s.maxConns > 0 && s.total >= s.maxConns)
    && Distinct(s.idle)
    && (forall c :: c in s.idle ==> c !in s.lent && c !in s.shut && c < s.dialled)
    && (forall c :: c in s.lent ==> c !in s.shut && c < s.dialled)
    && (forall c :: c in s.shut ==> c < s.dialled)
    && (forall c :: 0 <= c < s.dialled ==> c in s.idle || c in s.lent || c in s.shut)
  }

  lemma {:induction false} LendKeepsInv(s: State, k: CallerId)
    requires Inv(s) && s.idle != []
    ensures Inv(Lend(s, k))
  {
    var n := |s.idle| - 1;
    var conn := s.idle[n];
    assert s.idle == s.idle[..n] + [conn];
    assert conn in s.idle;
    assert |s.lent[conn := k]| == |s.lent| + 1;
  }

  lemma {:induction false} ReturnKeepsInv(s: State, conn: ConnId, woken: CallerId)
    requires Inv(s) && Next(s, Return(conn, woken)).Some?
    ensures Inv(Next(s, Return(conn, woken)).value)
  {
    assert |s.lent - {conn}| == |s.lent| - 1 by {
      assert (s.lent - {conn}).Keys == s.lent.Keys - {conn};
    }
  }

  lemma {:induction false} GetKeepsInv(s: State, k: CallerId, ok: bool)
    requires Inv(s) && k !in s.waiting
    ensures Inv(Next(s, Get(k, ok)).value)
  {
    if !s.closed && s.idle != [] {
      LendKeepsInv(s, k);
    } else {
      assert s.dialled !in s.lent;
      assert |s.lent[s.dialled := k]| == |s.lent| + 1;
    }
  }

  lemma {:induction false} StepKeepsInv(s: State, e: Event)
    requires Inv(s) && Next(s, e).Some?
    ensures Inv(Next(s, e).value)
    ensures Next(s, e).value.minConns == s.minConns && Next(s, e).value.maxConns == s.maxConns
  {
    match e {
      case Get(k, ok) => GetKeepsInv(s, k, ok);
      case Wake(k, expired) =>
        if !s.closed && s.idle != [] {
          LendKeepsInv(s, k);
        }
      case Return(conn, woken) => ReturnKeepsInv(s, conn, woken);
      case Close =>
    }
  }

  lemma {:induction false} WarmSatisfiesInv(minConns: int, maxConns: nat, dials: seq<bool>)
    requires |dials| == if minConns <= 0 then 0 else minConns
    ensures Inv(Warm(minConns, maxConns, dials))
  {
    var s := Warm(minConns, maxConns, dials);
    forall c | 0 <= c < s.dialled ensures c in s.idle {
      assert s.idle[c] == c;
    }
  }

  lemma {:induction false} RunKeepsInv(s: State, events: seq<Event>)
    requires Inv(s) && Run(s, events).Some?
    ensures var t := Run(s, events).value; Inv(t) && t.minConns == s.minConns && t.maxConns == s.maxConns
    decreases |events|
  {
    if events != [] {
      RunKeepsInv(s, events[..|events| - 1]);
      StepKeepsInv(Run(s, events[..|events| - 1]).value, events[|events| - 1]);
    }
  }

  /** What every run keeps, however callers get, wait, wake and return; in particular nobody waits while a dial is allowed. */
  lemma {:induction false} EveryRunConserves(
      minConns: int, maxConns: nat, dials: seq<bool>, events: seq<Event>)
    requires |dials| == if minConns <= 0 then 0 else minConns
    requires Run(Warm(minConns, maxConns, dials), events).Some?
    ensures var s := Run(Warm(minConns, maxConns, dials), events).value;
            && Inv(s) && s.minConns == minConns && s.maxConns == maxConns
            && (!s.closed ==> s.total == |s.idle| + |s.lent|)
            && (maxConns > 0 ==> s.total <= Max(minConns, maxConns))
            && |s.idle| <= Max(minConns, maxConns)
            && (!s.closed && s.waiting != {} ==> 0 < maxConns <= s.total)
  {
    WarmSatisfiesInv(minConns, maxConns, dials);
    RunKeepsInv(Warm(minConns, maxConns, dials), events);
  }

  /** Each connection ever dialled is in exactly one place: idle once, held by one caller, or shut. */
  lemma {:induction false} NoConnectionHasTwoHolders(
      minConns: int, maxConns: nat, dials: seq<bool>, events: seq<Event>, c: ConnId)
    requires |dials| == if minConns <= 0 then 0 else minConns
    requires Run(Warm(minConns, maxConns, dials), events).Some?
    requires c < Run(Warm(minConns, maxConns, dials), events).value.dialled
    ensures var s := Run(Warm(minConns, maxConns, dials), events).value;
            && (c in s.idle || c in s.lent || c in s.shut)
            && !(c in s.idle && c in s.lent) && !(c in s.idle && c in s.shut) && !(c in s.lent && c in s.shut)
            && Distinct(s.idle)
  {
    EveryRunConserves(minConns, maxConns, dials, events);
  }

  // ---- What each call does ----

  lemma {:induction false} StepWhenClosed(s: State, e: Event)
    requires Inv(s) && s.closed && Next(s, e).Some?
    ensures var t := Next(s, e).value;
            && t.closed && t.idle == [] && t.dialled == s.dialled && t.leaked == s.leaked
            && t.waiting <= s.waiting
            && (forall c :: c in t.lent ==> c in s.lent && t.lent[c] == s.lent[c])
            && t.total - |t.lent| == s.total - |s.lent|
  {
    if e.Return? {
      assert (s.lent - {e.conn}).Keys == s.lent.Keys - {e.conn};
    }
  }

  /** A closed pool stays closed, dials and lends nothing more, and nobody starts to wait; it only takes back. */
  lemma {:induction false} ClosedPoolOnlyTakesBack(s: State, events: seq<Event>)
    requires Inv(s) && s.closed && Run(s, events).Some?
    ensures var t := Run(s, events).value;
            && t.closed && t.idle == [] && t.dialled == s.dialled && t.leaked == s.leaked
            && t.waiting <= s.waiting
            && (forall c :: c in t.lent ==> c in s.lent && t.lent[c] == s.lent[c])
            && t.total - |t.lent| == s.total - |s.lent|
    decreases |events|
  {
    if events != [] {
      var n := |events| - 1;
      ClosedPoolOnlyTakesBack(s, events[..n]);
      RunKeepsInv(s, events[..n]);
      StepWhenClosed(Run(s, events[..n]).value, events[n]);
    }
  }

  /** The pool is closed exactly from its first Close on. */
  lemma {:induction false} ClosedExactlyByClose(s: State, events: seq<Event>)
    requires !s.closed && Run(s, events).Some?
    ensures Run(s, events).value.closed <==> Close in events
    decreases |events|
  {
    if events != [] {
      var n := |events| - 1;
      ClosedExactlyByClose(s, events[..n]);
      StepCloses(Run(s, events[..n]).value, events[n]);
      CloseSnoc(events);
    }
  }

  lemma {:induction false} StepCloses(s: State, e: Event)
    requires Next(s, e).Some?
    ensures Next(s, e).value.closed <==> s.closed || e == Close
  {
  }

  lemma {:induction false} CloseSnoc(events: seq<Event>)
    requires events != []
    ensures Close in events <==> Close in events[..|events| - 1] || events[|events| - 1] == Close
  {
    assert events == events[..|events| - 1] + [events[|events| - 1]];
  }

  /** When a connection was last returned, among the first n events; a warmed-up one that never was counts as older. */
  function StampAt(warm: nat, events: seq<Event>, n: nat, c: ConnId): int
    requires n <= |events|
  {
    if n == 0 then c - warm
    else if events[n - 1].Return? && events[n - 1].conn == c then n
    else StampAt(warm, events, n - 1, c)
  }

  function Stamp(warm: nat, events: seq<Event>, c: ConnId): int {
    StampAt(warm, events, |events|, c)
  }

  lemma {:induction false} StampBefore(warm: nat, events: seq<Event>, m: nat, n: nat, c: ConnId)
    requires n <= m <= |events|
    ensures StampAt(warm, events[..m], n, c) == StampAt(warm, events, n, c)
    decreases n
  {
    if n > 0 {
      StampBefore(warm, events, m, n - 1, c);
    }
  }

  /** One more event. */
  lemma {:induction false} StampNext(warm: nat, events: seq<Event>, c: ConnId)
    requires events != []
    ensures var e := events[|events| - 1];
            Stamp(warm, events, c) ==
            if e.Return? && e.conn == c then |events| else Stamp(warm, events[..|events| - 1], c)
  {
    StampBefore(warm, events, |events| - 1, |events| - 1, c);
  }

  /** Idle connections lie in the order of their return. */
  ghost predicate InReturnOrder(warm: nat, events: seq<Event>, idle: seq<ConnId>) {
    && (forall i :: 0 <= i < |idle| ==> Stamp(warm, events, idle[i]) <= |events|)
    && (forall i, j :: 0 <= i < j < |idle| ==> Stamp(warm, events, idle[i]) < Stamp(warm, events, idle[j]))
  }

  lemma {:induction false} ReturnIsLatest(warm: nat, events: seq<Event>, idle: seq<ConnId>, conn: ConnId)
    requires events != [] && events[|events| - 1].Return? && events[|events| - 1].conn == conn && conn !in idle
    requires InReturnOrder(warm, events[..|events| - 1], idle)
    ensures InReturnOrder(warm, events, idle) && InReturnOrder(warm, events, idle + [conn])
  {
    forall i | 0 <= i < |idle|
      ensures Stamp(warm, events, idle[i]) == Stamp(warm, events[..|events| - 1], idle[i]) < |events|
    {
      assert idle[i] in idle;
      StampNext(warm, events, idle[i]);
    }
    StampNext(warm, events, conn);
  }

  lemma {:induction false} OtherEventsKeepOrder(warm: nat, events: seq<Event>, idle: seq<ConnId>)
    requires events != [] && !events[|events| - 1].Return? && InReturnOrder(warm, events[..|events| - 1], idle)
    ensures InReturnOrder(warm, events, idle)
    ensures idle != [] ==> InReturnOrder(warm, events, idle[..|idle| - 1])
    ensures InReturnOrder(warm, events, [])
  {
    forall i | 0 <= i < |idle|
      ensures Stamp(warm, events, idle[i]) == Stamp(warm, events[..|events| - 1], idle[i])
    {
      StampNext(warm, events, idle[i]);
    }
  }

  lemma {:induction false} StepKeepsReturnOrder(warm: nat, events: seq<Event>, s: State)
    requires events != [] && Inv(s) && Next(s, events[|events| - 1]).Some?
    requires InReturnOrder(warm, events[..|events| - 1], s.idle)
    ensures InReturnOrder(warm, events, Next(s, events[|events| - 1]).value.idle)
  {
    var e := events[|events| - 1];
    if e.Return? {
      ReturnIsLatest(warm, events, s.idle, e.conn);
    } else {
      OtherEventsKeepOrder(warm, events, s.idle);
    }
  }

  /** In every run the idle connections lie in the order of their return. */
  lemma {:induction false} EveryRunKeepsReturnOrder(
      minConns: int, maxConns: nat, dials: seq<bool>, events: seq<Event>)
    requires |dials| == if minConns <= 0 then 0 else minConns
    requires Run(Warm(minConns, maxConns, dials), events).Some?
    ensures InReturnOrder(Successes(dials), events, Run(Warm(minConns, maxConns, dials), events).value.idle)
    decreases |events|
  {
    if events != [] {
      var before := events[..|events| - 1];
      EveryRunKeepsReturnOrder(minConns, maxConns, dials, before);
      EveryRunConserves(minConns, maxConns, dials, before);
      StepKeepsReturnOrder(Successes(dials), events, Run(Warm(minConns, maxConns, dials), before).value);
    }
  }

  /** The connection is the one of these returned last. */
  ghost predicate LatestOf(warm: nat, events: seq<Event>, idle: seq<ConnId>, c: ConnId) {
    c in idle && forall d :: d in idle && d != c ==> Stamp(warm, events, d) < Stamp(warm, events, c)
  }

  /** What GetClient does to the pool for a caller who is not asleep; c is the connection it gives, if any. */
  ghost predicate Gets(s: State, t: State, k: CallerId, ok: bool, c: ConnId) {
    if s.closed then t == s
    else if s.idle != [] then s.idle == t.idle + [c] && t == s.(idle := t.idle, lent := s.lent[c := k])
    else if 0 < s.maxConns <= s.total then t == s.(waiting := s.waiting + {k})
    else if ok then
      && c !in s.lent && c !in s.shut && c == s.dialled
      && t == s.(total := s.total + 1, dialled := s.dialled + 1, lent := s.lent[c := k])
    else t == s
  }

  lemma {:induction false} GetStep(s: State, k: CallerId, ok: bool) returns (c: ConnId)
    requires Inv(s)
    ensures Next(s, Get(k, ok)).Some? <==> k !in s.waiting
    ensures k !in s.waiting ==> Gets(s, Next(s, Get(k, ok)).value, k, ok, c)
    ensures s.idle != [] ==> c == s.idle[|s.idle| - 1]
  {
    c := if s.idle != [] then s.idle[|s.idle| - 1] else s.dialled;
  }

  lemma {:induction false} LastIsLatest(warm: nat, events: seq<Event>, idle: seq<ConnId>)
    requires idle != [] && InReturnOrder(warm, events, idle)
    ensures LatestOf(warm, events, idle, idle[|idle| - 1])
  {
    var c := idle[|idle| - 1];
    forall d | d in idle && d != c ensures Stamp(warm, events, d) < Stamp(warm, events, c) {
      var i :| 0 <= i < |idle| && idle[i] == d;
    }
  }

  lemma {:induction false} Reached(minConns: int, maxConns: nat, dials: seq<bool>, events: seq<Event>)
      returns (s: State)
    requires |dials| == if minConns <= 0 then 0 else minConns
    requires Run(Warm(minConns, maxConns, dials), events).Some?
    ensures Run(Warm(minConns, maxConns, dials), events) == Some(s) && Inv(s) && s.maxConns == maxConns
    ensures s.closed <==> Close in events
    ensures s.idle != [] ==> LatestOf(Successes(dials), events, s.idle, s.idle[|s.idle| - 1])
  {
    s := Run(Warm(minConns, maxConns, dials), events).value;
    EveryRunConserves(minConns, maxConns, dials, events);
    EveryRunKeepsReturnOrder(minConns, maxConns, dials, events);
    ClosedExactlyByClose(Warm(minConns, maxConns, dials), events);
    if s.idle != [] {
      LastIsLatest(Successes(dials), events, s.idle);
    }
  }

  /**
   * In every run GetClient of a caller who is not asleep: refused exactly when closed; with connections idle, given
   * the one returned last, without a dial; otherwise put to sleep exactly if the limit is reached, and else given
   * what its dial brings.
   */
  lemma {:induction false} GetDoesExactly(
      minConns: int, maxConns: nat, dials: seq<bool>, events: seq<Event>, k: CallerId, ok: bool) returns (c: ConnId)
    requires |dials| == if minConns <= 0 then 0 else minConns
    requires Run(Warm(minConns, maxConns, dials), events).Some?
    ensures var s := Run(Warm(minConns, maxConns, dials), events).value;
            && (s.closed <==> Close in events) && s.maxConns == maxConns
            && (Next(s, Get(k, ok)).Some? <==> k !in s.waiting)
            && (k !in s.waiting ==> Gets(s, Next(s, Get(k, ok)).value, k, ok, c))
            && (s.idle != [] ==> LatestOf(Successes(dials), events, s.idle, c))
  {
    var s := Reached(minConns, maxConns, dials, events);
    c := GetStep(s, k, ok);
  }

  /** What returning c does to the pool. */
  ghost predicate TakesBack(s: State, t: State, c: ConnId) {
    && t.lent == s.lent - {c} && t.waiting == s.waiting && t.dialled == s.dialled && t.closed == s.closed
    && if !s.closed && |s.idle| < s.maxConns
       then t.idle == s.idle + [c] && t.total == s.total && t.shut == s.shut
       else t.idle == s.idle && t.total == s.total - 1 && t.shut == s.shut + {c} && t.signalled == s.signalled
  }

  /** A returned connection is kept, last in line, exactly if the pool is open and fewer than maxConns are idle. */
  lemma {:induction false} ReturnDoesExactly(s: State, c: ConnId, woken: CallerId)
    requires Inv(s)
    ensures Next(s, Return(c, woken)).Some?
       <==> c in s.lent && (s.waiting == s.signalled || (woken in s.waiting && woken !in s.signalled))
    ensures Next(s, Return(c, woken)).Some? ==> TakesBack(s, Next(s, Return(c, woken)).value, c)
  {
  }

  /** What waking up does for a signalled waiter; c is the connection it gets, if any. */
  ghost predicate WakesUp(s: State, t: State, k: CallerId, expired: bool, c: ConnId) {
    && k !in t.signalled && t.total == s.total && t.dialled == s.dialled && t.shut == s.shut
    && t.waiting == (if !s.closed && s.idle == [] && !expired then s.waiting else s.waiting - {k})
    && if !s.closed && s.idle != [] then s.idle == t.idle + [c] && t.lent == s.lent[c := k]
       else t.idle == s.idle && t.lent == s.lent
  }

  lemma {:induction false} WakeStep(s: State, k: CallerId, expired: bool) returns (c: ConnId)
    requires Inv(s)
    ensures Next(s, Wake(k, expired)).Some? <==> k in s.signalled
    ensures k in s.signalled ==> WakesUp(s, Next(s, Wake(k, expired)).value, k, expired, c)
    ensures s.idle != [] ==> c == s.idle[|s.idle| - 1]
  {
    c := if s.idle != [] then s.idle[|s.idle| - 1] else 0;
  }

  /**
   * In every run a waiter that has been signalled: turned away when closed; with connections idle, given the one
   * returned last, however late it is; otherwise turned away if its time is over, and else back to sleep.
   */
  lemma {:induction false} WakeDoesExactly(
      minConns: int, maxConns: nat, dials: seq<bool>, events: seq<Event>, k: CallerId, expired: bool) returns (c: ConnId)
    requires |dials| == if minConns <= 0 then 0 else minConns
    requires Run(Warm(minConns, maxConns, dials), events).Some?
    ensures var s := Run(Warm(minConns, maxConns, dials), events).value;
            && (s.closed <==> Close in events)
            && (Next(s, Wake(k, expired)).Some? <==> k in s.signalled)
            && (k in s.signalled ==> WakesUp(s, Next(s, Wake(k, expired)).value, k, expired, c))
            && (s.idle != [] ==> LatestOf(Successes(dials), events, s.idle, c))
  {
    var s := Reached(minConns, maxConns, dials, events);
    c := WakeStep(s, k, expired);
  }

  /** Close shuts every idle connection and signals every waiter; those lent out stay out. A second one does nothing. */
  lemma {:induction false} CloseDoesExactly(s: State)
    requires Inv(s)
    ensures Next(s, Close).Some?
    ensures var t := Next(s, Close).value;
            if s.closed then t == s
            else && t.closed && t.idle == [] && t.lent == s.lent && t.waiting == s.waiting == t.signalled
                 && t.dialled == s.dialled && t.total == s.total
                 && forall c :: c in t.shut <==> c in s.shut || c in s.idle
  {
  }

  // ---- Waking up ----

  lemma {:induction false} StepLosesNoWakeup(s: State, e: Event)
    requires NoLostWakeup(s) && Next(s, e).Some? && (s.closed ==> s.idle == [])
    ensures NoLostWakeup(Next(s, e).value)
  {
    var t := Next(s, e).value;
    match e {
      case Get(k, ok) =>
      case Wake(k, expired) => assert |s.signalled - {k}| == |s.signalled| - 1;
      case Return(conn, woken) =>
        if s.waiting != s.signalled {
          assert woken !in s.signalled;
          assert |s.signalled + {woken}| == |s.signalled| + 1;
        }
      case Close =>
    }
  }

  /** In every run an idle connection and a sleeping waiter mean that some waiter has been signalled to take it. */
  lemma {:induction false} EveryRunLosesNoWakeup(
      minConns: int, maxConns: nat, dials: seq<bool>, events: seq<Event>)
    requires |dials| == if minConns <= 0 then 0 else minConns
    requires Run(Warm(minConns, maxConns, dials), events).Some?
    ensures var s := Run(Warm(minConns, maxConns, dials), events).value;
            && NoLostWakeup(s)
            && (s.idle != [] && s.waiting != {} ==>
                  exists k :: k in s.signalled && Next(s, Wake(k, true)) == Some(Leave(Lend(s, k), k)))
    decreases |events|
  {
    var s := Run(Warm(minConns, maxConns, dials), events).value;
    EveryRunConserves(minConns, maxConns, dials, events);
    if events != [] {
      var before := Run(Warm(minConns, maxConns, dials), events[..|events| - 1]).value;
      EveryRunLosesNoWakeup(minConns, maxConns, dials, events[..|events| - 1]);
      EveryRunConserves(minConns, maxConns, dials, events[..|events| - 1]);
      StepLosesNoWakeup(before, events[|events| - 1]);
    }
    if s.idle != [] && s.waiting != {} {
      assert s.signalled != {};
      var k :| k in s.signalled;
      assert Next(s, Wake(k, true)) == Some(Leave(Lend(s, k), k));
    }
  }

  /** In this state this event signals k: a Broadcast, or the Signal of a Return whose connection is kept. */
  predicate Signals(s: State, e: Event, k: CallerId) {
    && k in s.waiting && k !in s.signalled && !s.closed
    && (e.Close? || (e.Return? && e.woken == k && |s.idle| < s.maxConns))
  }

  predicate Wakes(e: Event, k: CallerId) {
    e.Wake? && e.k == k
  }

  /** The i-th event signalled k, and k has not looked since. */
  predicate SignalledAt(s: State, events: seq<Event>, k: CallerId, i: nat) {
    && i < |events|
    && Run(s, events[..i]).Some? && Signals(Run(s, events[..i]).value, events[i], k)
    && forall j :: i < j < |events| ==> !Wakes(events[j], k)
  }

  lemma {:induction false} StepSignalsExactly(s: State, e: Event, k: CallerId)
    requires s.signalled <= s.waiting && Next(s, e).Some?
    ensures var t := Next(s, e).value;
            && t.signalled <= t.waiting
            && (k in t.signalled <==> Signals(s, e, k) || (k in s.signalled && !Wakes(e, k)))
            && (k in s.waiting && !Wakes(e, k) ==> k in t.waiting)
  {
  }

  lemma {:induction false} FindSignal(s: State, events: seq<Event>, k: CallerId) returns (i: nat)
    requires s.signalled <= s.waiting && k !in s.signalled
    requires Run(s, events).Some? && k in Run(s, events).value.signalled
    ensures SignalledAt(s, events, k, i)
    decreases |events|
  {
    var n := |events| - 1;
    RunKeepsSignalled(s, events[..n]);
    var t := Run(s, events[..n]).value;
    StepSignalsExactly(t, events[n], k);
    if Signals(t, events[n], k) {
      i := n;
    } else {
      i := FindSignal(s, events[..n], k);
      StillSignalled(s, events, k, i);
    }
  }

  lemma {:induction false} StillSignalled(s: State, events: seq<Event>, k: CallerId, i: nat)
    requires events != [] && !Wakes(events[|events| - 1], k)
    requires SignalledAt(s, events[..|events| - 1], k, i)
    ensures SignalledAt(s, events, k, i)
  {
    var before := events[..|events| - 1];
    assert before[..i] == events[..i] && before[i] == events[i];
    forall j | i < j < |events| ensures !Wakes(events[j], k) {
      assert j < |before| ==> before[j] == events[j];
    }
  }

  lemma {:induction false} RunKeepsSignalled(s: State, events: seq<Event>)
    requires s.signalled <= s.waiting && Run(s, events).Some?
    ensures var t := Run(s, events).value; t.signalled <= t.waiting
    decreases |events|
  {
    if events != [] {
      RunKeepsSignalled(s, events[..|events| - 1]);
      StepSignalsExactly(Run(s, events[..|events| - 1]).value, events[|events| - 1], 0);
    }
  }

  lemma {:induction false} SignalLasts(s: State, events: seq<Event>, k: CallerId, i: nat)
    requires s.signalled <= s.waiting && Run(s, events).Some? && SignalledAt(s, events, k, i)
    ensures k in Run(s, events).value.signalled
    decreases |events|
  {
    var n := |events| - 1;
    RunKeepsSignalled(s, events[..n]);
    StepSignalsExactly(Run(s, events[..n]).value, events[n], k);
    if i < n {
      assert events[..n][..i] == events[..i];
      SignalLasts(s, events[..n], k, i);
    }
  }

  /** In every run, who has been signalled and has not looked since. */
  lemma {:induction false} SignalledExactly(s: State, events: seq<Event>, k: CallerId)
    requires s.signalled <= s.waiting && k !in s.signalled && Run(s, events).Some?
    ensures k in Run(s, events).value.signalled <==> exists i :: SignalledAt(s, events, k, i)
  {
    if k in Run(s, events).value.signalled {
      var i := FindSignal(s, events, k);
    }
    if i :| SignalledAt(s, events, k, i) {
      SignalLasts(s, events, k, i);
    }
  }

  lemma {:induction false} StaysWithoutWake(s: State, events: seq<Event>, k: CallerId)
    requires s.signalled <= s.waiting && k in s.waiting && Run(s, events).Some?
    requires forall j :: 0 <= j < |events| ==> !Wakes(events[j], k)
    ensures k in Run(s, events).value.waiting
    decreases |events|
  {
    if events != [] {
      var n := |events| - 1;
      StaysWithoutWake(s, events[..n], k);
      RunKeepsSignalled(s, events[..n]);
      StepSignalsExactly(Run(s, events[..n]).value, events[n], k);
    }
  }

  /** The i-th event is a Close, or a Return that keeps its connection and picks k, in a pool still open. */
  predicate ReachesAt(s: State, events: seq<Event>, k: CallerId, i: nat) {
    && i < |events| && Run(s, events[..i]).Some?
    && var t := Run(s, events[..i]).value;
       !t.closed && (events[i].Close? || (events[i].Return? && events[i].woken == k && |t.idle| < t.maxConns))
  }

  /** A Close or Return that reaches a sleeping k leaves it signalled. */
  lemma {:induction false} ReachedIsSignalled(s: State, events: seq<Event>, k: CallerId, i: nat) returns (j: nat)
    requires s.signalled <= s.waiting && k in s.waiting && k !in s.signalled && Run(s, events).Some?
    requires (forall j :: 0 <= j < |events| ==> !Wakes(events[j], k)) && ReachesAt(s, events, k, i)
    ensures SignalledAt(s, events, k, j)
  {
    StaysWithoutWake(s, events[..i], k);
    j := i;
    if k in Run(s, events[..i]).value.signalled {
      j := FindSignal(s, events[..i], k);
      assert events[..i][..j] == events[..j];
    }
  }

  /**
   * The deadline of 30 seconds, exactly: the wait has no timer, so however late it is a sleeping waiter can leave
   * if and only if a Close, or a Return that picked it and kept its connection, has come in the meantime.
   */
  lemma {:induction false} ExpiredWaiterLeavesExactlyIfReached(s: State, events: seq<Event>, k: CallerId)
    requires s.signalled <= s.waiting && k in s.waiting && k !in s.signalled && Run(s, events).Some?
    requires forall j :: 0 <= j < |events| ==> !Wakes(events[j], k)
    ensures var t := Run(s, events).value;
            && k in t.waiting
            && (Next(t, Wake(k, true)).Some? && k !in Next(t, Wake(k, true)).value.waiting
                <==> exists i :: ReachesAt(s, events, k, i))
  {
    StaysWithoutWake(s, events, k);
    SignalledExactly(s, events, k);
    if i :| SignalledAt(s, events, k, i) {
      assert ReachesAt(s, events, k, i);
    }
    if i :| ReachesAt(s, events, k, i) {
      var j := ReachedIsSignalled(s, events, k, i);
    }
  }

  /** Whom no event signals sleeps on, whatever its own clock says. */
  lemma {:induction false} UnsignalledWaiterStays(s: State, events: seq<Event>, k: CallerId)
    requires s.signalled <= s.waiting && k in s.waiting && k !in s.signalled && Run(s, events).Some?
    requires forall i :: 0 <= i < |events| ==> !ReachesAt(s, events, k, i)
    ensures var t := Run(s, events).value; k in t.waiting && k !in t.signalled
    decreases |events|
  {
    if events != [] {
      var n := |events| - 1;
      forall i | 0 <= i < n ensures !ReachesAt(s, events[..n], k, i) {
        assert events[..n][..i] == events[..i];
        assert !ReachesAt(s, events, k, i);
      }
      UnsignalledWaiterStays(s, events[..n], k);
      RunKeepsSignalled(s, events[..n]);
      assert !ReachesAt(s, events, k, n);
      StepSignalsExactly(Run(s, events[..n]).value, events[n], k);
    }
  }

  /** In particular with no Return and no Close at all, nobody who sleeps ever leaves. */
  lemma {:induction false} NobodyLeavesWithoutReturnOrClose(s: State, events: seq<Event>)
    requires s.signalled <= s.waiting && Run(s, events).Some?
    requires forall i :: 0 <= i < |events| ==> events[i].Get? || events[i].Wake?
    ensures s.waiting - s.signalled <= Run(s, events).value.waiting
  {
    forall k | k in s.waiting - s.signalled ensures k in Run(s, events).value.waiting {
      UnsignalledWaiterStays(s, events, k);
    }
  }

  lemma {:induction false} RunSnoc(s: State, events: seq<Event>, e: Event)
    requires Run(s, events).Some?
    ensures Run(s, events + [e]) == Next(Run(s, events).value, e)
  {
    assert (events + [e])[..|events|] == events;
  }

  /** A waiter exists: with one connection, lent out, the second caller sleeps and nothing but a signal moves it. */
  lemma {:induction false} SecondCallerSleeps() returns (events: seq<Event>)
    ensures Run(Warm(0, 1, []), events).Some?
    ensures var s := Run(Warm(0, 1, []), events).value;
            s.waiting == {1} && s.signalled == {} && Next(s, Wake(1, true)) == None
  {
    RunSnoc(Warm(0, 1, []), [], Get(0, true));
    RunSnoc(Warm(0, 1, []), [] + [Get(0, true)], Get(1, true));
    events := [] + [Get(0, true)] + [Get(1, true)];
  }
}
