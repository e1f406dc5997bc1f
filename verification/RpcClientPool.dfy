/**
 * RPCClientPool of pool/pool.go. Get gives up its lock while it dials, so a dial in progress is a
 * state of its own and the connection limit is only kept up to the number of concurrent callers.
 */
module RpcClientPool {
  import opened Prelude

  type ConnId = nat
  type CallerId = nat

  datatype State = State(
    minConns: nat,
    maxConns: nat,
    idle: seq<ConnId>,
    total: int,
    closed: bool,
    dialing: set<CallerId>,
    lent: set<ConnId>,
    dialled: nat)

  function Capacity(s: State): nat {
    s.maxConns + 10
  }

  /** NewRPCClientPool, with its defaults for non-positive limits. */
  function New(maxConns: int, minConns: int): (s: State)
    ensures s.maxConns >= 1 && (maxConns >= 1 ==> s.maxConns == maxConns) && (maxConns <= 0 ==> s.maxConns == 10)
    ensures s.minConns >= 1 && (minConns >= 1 ==> s.minConns == minConns) && (minConns <= 0 ==> s.minConns == 1)
    ensures s.total == 0 && s.idle == [] && s.lent == {} && s.dialing == {} && !s.closed
  {
    State(if minConns <= 0 then 1 else minConns, if maxConns <= 0 then 10 else maxConns, [], 0, false, {}, {}, 0)
  }

  datatype Event =
    | Get(k: CallerId)
    | Dialled(k: CallerId, ok: bool)
    | Put(conn: ConnId)
    | Cleanup
    | Close

  function Drop(n: int, least: nat): nat {
    if n > least then n - least else 0
  }

  /** One lock region of one of the callers 0 .. callers-1; None when it cannot happen. */
  function Next(callers: nat, s: State, e: Event): Option<State> {
    match e
    case Get(k) =>
      if k >= callers || k in s.dialing then None
      else if s.closed then Some(s)
      else if s.idle != [] then Some(s.(idle := s.idle[1..], lent := s.lent + {s.idle[0]}))
      else if s.total >= s.maxConns then Some(s)
      else Some(s.(dialing := s.dialing + {k}))
    case Dialled(k, ok) =>
      if k !in s.dialing then None
      else
        var t := s.(dialing := s.dialing - {k});
        if s.closed || !ok then Some(t)
        else Some(t.(total := s.total + 1, lent := s.lent + {s.dialled}, dialled := s.dialled + 1))
    case Put(conn) =>
      if conn !in s.lent then None
      else
        var t := s.(lent := s.lent - {conn});
        if s.closed || |s.idle| >= Capacity(s) then Some(t.(total := s.total - 1))
        else Some(t.(idle := s.idle + [conn]))
    case Cleanup =>
      if s.closed then Some(s)
      else
        var n := Drop(|s.idle|, s.minConns);
        Some(s.(idle := s.idle[n..], total := s.total - n))
    case Close => Some(s.(closed := true))
  }

  function Run(callers: nat, s: State, events: seq<Event>): Option<State> {
    if events == [] then Some(s)
    else
      match Run(callers, s, events[..|events| - 1])
      case None => None
      case Some(t) => Next(callers, t, events[|events| - 1])
  }

  ghost predicate Inv(callers: nat, s: State) {
    && s.maxConns >= 1 && callers >= 1
    && s.total == |s.idle| + |s.lent|
    && s.total + |s.dialing| <= s.maxConns - 1 + callers
    && (forall k :: k in s.dialing ==> k < callers)
    && (forall c :: c in s.lent || c in s.idle ==> c < s.dialled)
    && (forall c :: c in s.idle ==> c !in s.lent)
    && (forall i, j :: 0 <= i < j < |s.idle| ==> s.idle[i] != s.idle[j])
  }

  lemma {:induction false} Bounded(s: set<nat>, n: nat)
    requires forall k :: k in s ==> k < n
    ensures |s| <= n
    decreases n
  {
    if n > 0 {
      Bounded(s - {n - 1}, n - 1);
    } else {
      assert s == {};
    }
  }

  lemma {:induction false} GetKeepsInv(callers: nat, s: State, k: CallerId)
    requires Inv(callers, s) && Next(callers, s, Get(k)).Some?
    ensures Inv(callers, Next(callers, s, Get(k)).value)
  {
    Bounded(s.dialing + {k}, callers);
    if s.idle != [] {
      assert s.idle[0] in s.idle;
      assert forall c :: c in s.idle[1..] ==> c in s.idle && c != s.idle[0];
    }
  }

  lemma {:induction false} PutKeepsInv(callers: nat, s: State, conn: ConnId)
    requires Inv(callers, s) && Next(callers, s, Put(conn)).Some?
    ensures Inv(callers, Next(callers, s, Put(conn)).value)
  {
    assert |s.lent - {conn}| == |s.lent| - 1;
    assert forall c :: c in s.idle + [conn] ==> c in s.idle || c == conn;
  }

  lemma {:induction false} CleanupKeepsInv(callers: nat, s: State)
    requires Inv(callers, s)
    ensures Inv(callers, Next(callers, s, Cleanup).value)
  {
    var n := Drop(|s.idle|, s.minConns);
    assert forall c :: c in s.idle[n..] ==> c in s.idle;
  }

  lemma {:induction false} StepKeepsInv(callers: nat, s: State, e: Event)
    requires Inv(callers, s) && Next(callers, s, e).Some?
    ensures Inv(callers, Next(callers, s, e).value)
  {
    match e {
      case Get(k) => GetKeepsInv(callers, s, k);
      case Dialled(k, ok) => assert |s.dialing - {k}| == |s.dialing| - 1;
      case Put(conn) => PutKeepsInv(callers, s, conn);
      case Cleanup => CleanupKeepsInv(callers, s);
      case Close =>
    }
  }

  lemma {:induction false} EveryRunIsBounded(callers: nat, maxConns: int, minConns: int, events: seq<Event>)
    requires callers >= 1
    requires Run(callers, New(maxConns, minConns), events).Some?
    ensures var s := Run(callers, New(maxConns, minConns), events).value;
            && Inv(callers, s) && s.maxConns == New(maxConns, minConns).maxConns
            && s.total == |s.idle| + |s.lent|
            && s.total + |s.dialing| <= s.maxConns - 1 + callers
    decreases |events|
  {
    if events != [] {
      EveryRunIsBounded(callers, maxConns, minConns, events[..|events| - 1]);
      StepKeepsInv(callers, Run(callers, New(maxConns, minConns), events[..|events| - 1]).value, events[|events| - 1]);
    }
  }

  /**
   * The clean-up loop takes connections off the channel, the longest idle first, until minConns are left;
   * lent ones are not touched and the count stays right.
   */
  method CleanupIdle(callers: nat, s: State) returns (t: State)
    requires Inv(callers, s)
    ensures t == Next(callers, s, Cleanup).value
    ensures s.closed ==> t == s
    ensures !s.closed ==> |t.idle| == Min(|s.idle|, s.minConns) && t.idle == s.idle[|s.idle| - |t.idle|..]
    ensures t.lent == s.lent && t.dialing == s.dialing && Inv(callers, t)
  {
    CleanupKeepsInv(callers, s);
    if s.closed {
      return s;
    }
    var idle, total, currentIdle := s.idle, s.total, |s.idle|;
    while currentIdle > s.minConns
      invariant currentIdle == |idle| && Min(|s.idle|, s.minConns) <= |idle| <= |s.idle|
      invariant idle == s.idle[|s.idle| - |idle|..] && total == s.total - (|s.idle| - |idle|)
    {
      idle, total, currentIdle := idle[1..], total - 1, currentIdle - 1;
    }
    t := s.(idle := idle, total := total);
  }

  // ---- What each call does ----

  /** The pool is closed exactly from its first Close on. */
  lemma {:induction false} ClosedExactlyByClose(callers: nat, s: State, events: seq<Event>)
    requires !s.closed && Run(callers, s, events).Some?
    ensures Run(callers, s, events).value.closed <==> Close in events
    decreases |events|
  {
    if events != [] {
      var n := |events| - 1;
      ClosedExactlyByClose(callers, s, events[..n]);
    }
  }

  /** When a connection was last put back, among the first n events. */
  function StampAt(events: seq<Event>, n: nat, c: ConnId): nat
    requires n <= |events|
  {
    if n == 0 then 0 else if events[n - 1] == Put(c) then n else StampAt(events, n - 1, c)
  }

  function Stamp(events: seq<Event>, c: ConnId): nat {
    StampAt(events, |events|, c)
  }

  lemma {:induction false} StampBefore(events: seq<Event>, m: nat, n: nat, c: ConnId)
    requires n <= m <= |events|
    ensures StampAt(events[..m], n, c) == StampAt(events, n, c)
    decreases n
  {
    if n > 0 {
      StampBefore(events, m, n - 1, c);
    }
  }

  /** One more event. */
  lemma {:induction false} StampNext(events: seq<Event>, c: ConnId)
    requires events != []
    ensures Stamp(events, c) ==
            if events[|events| - 1] == Put(c) then |events| else Stamp(events[..|events| - 1], c)
  {
    StampBefore(events, |events| - 1, |events| - 1, c);
  }

  /** Idle connections lie in the order in which they were put back. */
  ghost predicate InPutOrder(events: seq<Event>, idle: seq<ConnId>) {
    && (forall i :: 0 <= i < |idle| ==> Stamp(events, idle[i]) <= |events|)
    && (forall i, j :: 0 <= i < j < |idle| ==> Stamp(events, idle[i]) < Stamp(events, idle[j]))
  }

  lemma {:induction false} PutIsLatest(events: seq<Event>, idle: seq<ConnId>, conn: ConnId)
    requires events != [] && events[|events| - 1] == Put(conn) && conn !in idle
    requires InPutOrder(events[..|events| - 1], idle)
    ensures InPutOrder(events, idle) && InPutOrder(events, idle + [conn])
  {
    forall i | 0 <= i < |idle|
      ensures Stamp(events, idle[i]) == Stamp(events[..|events| - 1], idle[i]) < |events|
    {
      assert idle[i] in idle;
      StampNext(events, idle[i]);
    }
    StampNext(events, conn);
  }

  lemma {:induction false} OtherEventsKeepOrder(events: seq<Event>, idle: seq<ConnId>, n: nat)
    requires events != [] && !events[|events| - 1].Put? && InPutOrder(events[..|events| - 1], idle) && n <= |idle|
    ensures InPutOrder(events, idle[n..])
  {
    forall i | 0 <= i < |idle| ensures Stamp(events, idle[i]) == Stamp(events[..|events| - 1], idle[i]) {
      StampNext(events, idle[i]);
    }
  }

  lemma {:induction false} StepKeepsPutOrder(callers: nat, events: seq<Event>, s: State)
    requires events != [] && Inv(callers, s) && Next(callers, s, events[|events| - 1]).Some?
    requires InPutOrder(events[..|events| - 1], s.idle)
    ensures InPutOrder(events, Next(callers, s, events[|events| - 1]).value.idle)
  {
    var e := events[|events| - 1];
    if e.Put? {
      PutIsLatest(events, s.idle, e.conn);
    } else {
      var t := Next(callers, s, e).value;
      assert t.idle == s.idle[|s.idle| - |t.idle|..];
      OtherEventsKeepOrder(events, s.idle, |s.idle| - |t.idle|);
    }
  }

  /** In every run the idle connections lie in the order in which they were put back. */
  lemma {:induction false} EveryRunKeepsPutOrder(callers: nat, maxConns: int, minConns: int, events: seq<Event>)
    requires callers >= 1 && Run(callers, New(maxConns, minConns), events).Some?
    ensures InPutOrder(events, Run(callers, New(maxConns, minConns), events).value.idle)
    decreases |events|
  {
    if events != [] {
      var before := events[..|events| - 1];
      EveryRunKeepsPutOrder(callers, maxConns, minConns, before);
      EveryRunIsBounded(callers, maxConns, minConns, before);
      StepKeepsPutOrder(callers, events, Run(callers, New(maxConns, minConns), before).value);
    }
  }

  /** The connection is the one of these put back longest ago. */
  ghost predicate OldestOf(events: seq<Event>, idle: seq<ConnId>, c: ConnId) {
    c in idle && forall d :: d in idle && d != c ==> Stamp(events, c) < Stamp(events, d)
  }

  /** What Get does to the pool under its lock; c is the connection it hands out. */
  ghost predicate Gets(s: State, t: State, k: CallerId, c: ConnId) {
    if s.closed then t == s
    else if s.idle != [] then s.idle == [c] + t.idle && t == s.(idle := t.idle, lent := s.lent + {c})
    else if s.total < s.maxConns then t == s.(dialing := s.dialing + {k})
    else t == s
  }

  /**
   * In every run Get of a caller who is not dialling: refused when closed; with connections idle, given the one put
   * back longest ago, counts unchanged; otherwise a dial starts exactly if fewer than maxConns are counted.
   */
  lemma {:induction false} GetDoesExactly(callers: nat, maxConns: int, minConns: int, events: seq<Event>, k: CallerId)
      returns (c: ConnId)
    requires callers >= 1 && Run(callers, New(maxConns, minConns), events).Some?
    ensures var s := Run(callers, New(maxConns, minConns), events).value;
            && (s.closed <==> Close in events)
            && (Next(callers, s, Get(k)).Some? <==> k < callers && k !in s.dialing)
            && (Next(callers, s, Get(k)).Some? ==> Gets(s, Next(callers, s, Get(k)).value, k, c))
            && (s.idle != [] ==> OldestOf(events, s.idle, c))
  {
    var s := Run(callers, New(maxConns, minConns), events).value;
    EveryRunIsBounded(callers, maxConns, minConns, events);
    EveryRunKeepsPutOrder(callers, maxConns, minConns, events);
    ClosedExactlyByClose(callers, New(maxConns, minConns), events);
    c := 0;
    if s.idle != [] {
      c := s.idle[0];
    }
  }

  /** A dial that comes back is counted and its new connection handed out exactly if it succeeded and the pool is open. */
  lemma {:induction false} DialDoesExactly(callers: nat, s: State, k: CallerId, ok: bool)
    requires Inv(callers, s)
    ensures Next(callers, s, Dialled(k, ok)).Some? <==> k in s.dialing
    ensures k in s.dialing ==>
              var t := Next(callers, s, Dialled(k, ok)).value;
              && t.dialing == s.dialing - {k} && t.idle == s.idle && t.closed == s.closed
              && if ok && !s.closed
                 then t.total == s.total + 1 && s.dialled !in s.lent && t.lent == s.lent + {s.dialled}
                 else t.total == s.total && t.lent == s.lent
  {
  }

  /** A connection put back is kept, last in line, exactly if the pool is open and fewer than maxConns + 10 are idle. */
  lemma {:induction false} PutDoesExactly(callers: nat, s: State, c: ConnId)
    requires Inv(callers, s)
    ensures Next(callers, s, Put(c)).Some? <==> c in s.lent
    ensures c in s.lent ==>
              var t := Next(callers, s, Put(c)).value;
              && t.lent == s.lent - {c} && t.dialing == s.dialing && t.closed == s.closed
              && if !s.closed && |s.idle| < s.maxConns + 10
                 then t.idle == s.idle + [c] && t.total == s.total
                 else t.idle == s.idle && t.total == s.total - 1
  {
  }

  /** From a Close on nothing is dialled or lent any more: lent connections and dials only come back. */
  lemma {:induction false} ClosedPoolOnlyTakesBack(callers: nat, s: State, events: seq<Event>)
    requires s.closed && Run(callers, s, events).Some?
    ensures var t := Run(callers, s, events).value;
            t.closed && t.dialled == s.dialled && t.lent <= s.lent && t.dialing <= s.dialing && t.idle == s.idle
    decreases |events|
  {
    if events != [] {
      ClosedPoolOnlyTakesBack(callers, s, events[..|events| - 1]);
    }
  }

  // ---- The bound is attained ----

  lemma {:induction false} RunSnoc(callers: nat, s: State, events: seq<Event>, e: Event)
    requires Run(callers, s, events).Some?
    ensures Run(callers, s, events + [e]) == Next(callers, Run(callers, s, events).value, e)
  {
    assert (events + [e])[..|events|] == events;
  }

  /** One caller after another fills the pool up to n < maxConns lent connections. */
  lemma {:induction false} Fill(callers: nat, maxConns: nat, n: nat) returns (events: seq<Event>)
    requires callers >= 1 && n < maxConns
    ensures Run(callers, New(maxConns, 1), events).Some?
    ensures var s := Run(callers, New(maxConns, 1), events).value;
            s.total == n && s.idle == [] && !s.closed && s.dialing == {} && s.maxConns == maxConns
    decreases n
  {
    events := [];
    if n > 0 {
      events := Fill(callers, maxConns, n - 1);
      RunSnoc(callers, New(maxConns, 1), events, Get(0));
      RunSnoc(callers, New(maxConns, 1), events + [Get(0)], Dialled(0, true));
      events := events + [Get(0)] + [Dialled(0, true)];
      assert Run(callers, New(maxConns, 1), events).value.dialing == {};
    }
  }

  /** Then the first k callers all start to dial before any of them is counted. */
  lemma {:induction false} DialTogether(callers: nat, maxConns: nat, k: nat) returns (events: seq<Event>)
    requires maxConns >= 1 && callers >= 1 && k <= callers
    ensures Run(callers, New(maxConns, 1), events).Some?
    ensures var s := Run(callers, New(maxConns, 1), events).value;
            && s.total == maxConns - 1 && s.idle == [] && !s.closed && s.maxConns == maxConns
            && (forall i :: i in s.dialing <==> 0 <= i < k)
    decreases k
  {
    if k == 0 {
      events := Fill(callers, maxConns, maxConns - 1);
    } else {
      events := DialTogether(callers, maxConns, k - 1);
      RunSnoc(callers, New(maxConns, 1), events, Get(k - 1));
      events := events + [Get(k - 1)];
    }
  }

  lemma {:induction false} LandTogether(callers: nat, maxConns: nat, k: nat) returns (events: seq<Event>)
    requires maxConns >= 1 && callers >= 1 && k <= callers
    ensures Run(callers, New(maxConns, 1), events).Some?
    ensures var s := Run(callers, New(maxConns, 1), events).value;
            && s.total == maxConns - 1 + k && !s.closed && s.maxConns == maxConns
            && (forall i :: i in s.dialing <==> k <= i < callers)
    decreases k
  {
    if k == 0 {
      events := DialTogether(callers, maxConns, callers);
    } else {
      events := LandTogether(callers, maxConns, k - 1);
      RunSnoc(callers, New(maxConns, 1), events, Dialled(k - 1, true));
      events := events + [Dialled(k - 1, true)];
    }
  }

  /** With N callers a pool limited to maxConns really can count maxConns - 1 + N connections. */
  lemma {:induction false} BoundIsAttained(callers: nat, maxConns: nat) returns (events: seq<Event>)
    requires maxConns >= 1 && callers >= 1
    ensures Run(callers, New(maxConns, 1), events).Some?
    ensures Run(callers, New(maxConns, 1), events).value.total == maxConns - 1 + callers
  {
    events := LandTogether(callers, maxConns, callers);
  }
}
