/**
 * The read buffers that all sessions of the connector share through a sync.Pool (readLoop in
 * connector/tcp_server.go), as a step machine of any number of sessions. A session that is cut off puts its
 * buffer back twice.
 */
module ReadPool {
  import opened Bytes
  import opened Prelude
  import opened Framing

  type BufId = nat
  type SessionId = nat

  /** Filled: conn.Read has written n bytes into the buffer, which are about to be appended. */
  datatype Phase = Between | Holding(b: BufId) | Filled(b: BufId, n: nat) | Overflowing(b: BufId) | Gone

  datatype Conn = Conn(
    phase: Phase,
    received: seq<seq<Byte>>,  // history: what the session's own reads delivered
    readBuf: seq<Byte>,
    frames: seq<seq<Byte>>,    // history: the frames dispatched
    cut: bool)

  const NEW_CONN := Conn(Between, [], [], [], false)

  datatype State = State(
    mem: seq<seq<Byte>>,       // the contents of each buffer made so far
    pooled: seq<nat>,          // how often each buffer lies in the pool
    conns: map<SessionId, Conn>,
    cuts: seq<nat>,            // history: how often each buffer was put back twice
    drops: seq<nat>)           // history: how often the pool forgot each buffer

  const INITIAL := State([], [], map[], [], [])

  datatype Event =
    | Open(i: SessionId)
    | GetPooled(i: SessionId, b: BufId)
    | GetNew(i: SessionId)
    | ReadFails(i: SessionId)
    | Fill(i: SessionId, data: seq<Byte>)
    | Append(i: SessionId)
    | PutAgain(i: SessionId)
    | Quit(i: SessionId)
    | Drop(b: BufId)

  /** Sizes agree, and sessions only name buffers that were made. */
  ghost predicate Shape(s: State) {
    && |s.mem| == |s.pooled| == |s.cuts| == |s.drops|
    && (forall b :: 0 <= b < |s.mem| ==> |s.mem[b]| == READ_SIZE)
    && (forall i :: i in s.conns ==> PhaseShape(s.conns[i].phase, |s.mem|))
  }

  predicate PhaseShape(p: Phase, made: nat) {
    match p
    case Holding(b) => b < made
    case Filled(b, n) => b < made && n <= READ_SIZE
    case Overflowing(b) => b < made
    case _ => true
  }

  function Set(s: State, i: SessionId, c: Conn): State {
    s.(conns := s.conns[i := c])
  }

  function Put(s: State, b: BufId): State
    requires b < |s.pooled|
  {
    s.(pooled := s.pooled[b := s.pooled[b] + 1])
  }

  function Zeros(): seq<Byte> {
    seq(READ_SIZE, i => 0)
  }

  /** One step; None when it cannot happen. A pool may always answer with a new buffer, and may drop any. */
  function Next(s: State, e: Event): (r: Option<State>)
    requires Shape(s)
  {
    match e
    case Open(i) => if i in s.conns then None else Some(Set(s, i, NEW_CONN))
    case GetPooled(i, b) =>
      if i in s.conns && s.conns[i].phase == Between && b < |s.pooled| && s.pooled[b] > 0
      then Some(Set(s, i, s.conns[i].(phase := Holding(b))).(pooled := s.pooled[b := s.pooled[b] - 1]))
      else None
    case GetNew(i) =>
      if i in s.conns && s.conns[i].phase == Between
      then Some(Set(s, i, s.conns[i].(phase := Holding(|s.mem|)))
                .(mem := s.mem + [Zeros()], pooled := s.pooled + [0], cuts := s.cuts + [0], drops := s.drops + [0]))
      else None
    case ReadFails(i) =>
      if i in s.conns && s.conns[i].phase.Holding?
      then Some(Put(Set(s, i, s.conns[i].(phase := Gone)), s.conns[i].phase.b))
      else None
    case Fill(i, data) =>
      if i in s.conns && s.conns[i].phase.Holding? && |data| <= READ_SIZE then
        var b := s.conns[i].phase.b;
        Some(Set(s, i, s.conns[i].(phase := Filled(b, |data|), received := s.conns[i].received + [data]))
             .(mem := s.mem[b := data + s.mem[b][|data|..]]))
      else None
    case Append(i) =>
      if i in s.conns && s.conns[i].phase.Filled?
      then Some(Put(Set(s, i, Appended(s.conns[i], s.mem[s.conns[i].phase.b])), s.conns[i].phase.b))
      else None
    case PutAgain(i) =>
      if i in s.conns && s.conns[i].phase.Overflowing? then
        var b := s.conns[i].phase.b;
        Some(Put(Set(s, i, s.conns[i].(phase := Gone)), b).(cuts := s.cuts[b := s.cuts[b] + 1]))
      else None
    case Quit(i) =>
      if i in s.conns && s.conns[i].phase == Between then Some(Set(s, i, s.conns[i].(phase := Gone))) else None
    case Drop(b) =>
      if b < |s.pooled| && s.pooled[b] > 0
      then Some(s.(pooled := s.pooled[b := s.pooled[b] - 1], drops := s.drops[b := s.drops[b] + 1]))
      else None
  }

  /** Append what the buffer holds now, and dispatch, unless that is too much. */
  function Appended(c: Conn, buffer: seq<Byte>): Conn
    requires c.phase.Filled? && c.phase.n <= |buffer|
  {
    var grown := c.readBuf + buffer[..c.phase.n];
    if |grown| > CUT_OFF then c.(phase := Overflowing(c.phase.b), readBuf := grown, cut := true)
    else
      var now := Decode(Connector, grown);
      c.(phase := Between, readBuf := now.rest, frames := c.frames + now.frames)
  }

  lemma {:induction false} StepKeepsShape(s: State, e: Event)
    requires Shape(s) && Next(s, e).Some?
    ensures Shape(Next(s, e).value) && |s.mem| <= |Next(s, e).value.mem|
  {
  }

  /** The state after these events, which keeps its shape; None if one of them cannot happen. */
  function Run(events: seq<Event>): (r: Option<State>)
    ensures r.Some? ==> Shape(r.value)
  {
    if events == [] then Some(INITIAL)
    else
      match Run(events[..|events| - 1])
      case None => None
      case Some(s) =>
        if Next(s, events[|events| - 1]).None? then None
        else
          StepKeepsShape(s, events[|events| - 1]);
          Next(s, events[|events| - 1])
  }

  // ---- How many times a buffer is about ----

  predicate Holds(p: Phase, b: BufId) {
    (p.Holding? || p.Filled?) && p.b == b
  }

  function Holders(s: State, b: BufId): set<SessionId> {
    set i | i in s.conns && Holds(s.conns[i].phase, b)
  }

  /** In the pool or in a session's hands: once, plus once for each second Put, less the times it was forgotten. */
  ghost predicate Counted(s: State, b: BufId)
    requires Shape(s) && b < |s.mem|
  {
    s.pooled[b] + |Holders(s, b)| + s.drops[b] == 1 + s.cuts[b]
  }

  ghost predicate Law(s: State)
    requires Shape(s)
  {
    forall b :: 0 <= b < |s.mem| ==> Counted(s, b)
  }

  /** Only session i has changed. */
  lemma {:induction false} HoldersMove(s: State, t: State, i: SessionId, b: BufId)
    requires i in t.conns && t.conns == s.conns[i := t.conns[i]]
    ensures var before := i in s.conns && Holds(s.conns[i].phase, b);
            var after := Holds(t.conns[i].phase, b);
            |Holders(t, b)| == |Holders(s, b)| + (if after then 1 else 0) - (if before then 1 else 0)
  {
    var rest := Holders(s, b) - {i};
    assert Holders(t, b) == if Holds(t.conns[i].phase, b) then rest + {i} else rest;
    assert Holders(s, b) == if i in Holders(s, b) then rest + {i} else rest;
  }

  lemma {:induction false} SessionStepCounts(s: State, e: Event, b: BufId)
    requires Shape(s) && Law(s) && !e.Drop? && Next(s, e).Some?
    requires b < |Next(s, e).value.mem|
    ensures Shape(Next(s, e).value) && Counted(Next(s, e).value, b)
  {
    StepKeepsShape(s, e);
    var t := Next(s, e).value;
    HoldersMove(s, t, e.i, b);
    if b < |s.mem| {
      assert Counted(s, b);
    } else {
      NobodyHolds(s, b);
    }
  }

  lemma {:induction false} NobodyHolds(s: State, b: BufId)
    requires Shape(s) && b >= |s.mem|
    ensures Holders(s, b) == {}
  {
    forall i | i in s.conns ensures !Holds(s.conns[i].phase, b) {
      assert PhaseShape(s.conns[i].phase, |s.mem|);
    }
  }

  lemma {:induction false} StepKeepsLaw(s: State, e: Event)
    requires Shape(s) && Law(s) && Next(s, e).Some?
    ensures Shape(Next(s, e).value) && Law(Next(s, e).value)
  {
    StepKeepsShape(s, e);
    var t := Next(s, e).value;
    forall b | 0 <= b < |t.mem| ensures Counted(t, b) {
      if e.Drop? {
        assert Counted(s, b);
        assert Holders(t, b) == Holders(s, b);
      } else {
        SessionStepCounts(s, e, b);
      }
    }
  }

  /** In every run, for every buffer. */
  lemma {:induction false} EveryRunCountsBuffers(events: seq<Event>)
    requires Run(events).Some?
    ensures Law(Run(events).value)
    decreases |events|
  {
    if events != [] {
      EveryRunCountsBuffers(events[..|events| - 1]);
      StepKeepsLaw(Run(events[..|events| - 1]).value, events[|events| - 1]);
    }
  }

  /** No buffer is about twice. */
  ghost predicate Exclusive(s: State)
    requires Shape(s)
  {
    forall b :: 0 <= b < |s.mem| ==> s.pooled[b] + |Holders(s, b)| <= 1
  }

  predicate NoCuts(events: seq<Event>) {
    forall i :: 0 <= i < |events| ==> !events[i].PutAgain?
  }

  predicate NoDrops(events: seq<Event>) {
    forall i :: 0 <= i < |events| ==> !events[i].Drop?
  }

  predicate AllZero(ns: seq<nat>) {
    forall b :: 0 <= b < |ns| ==> ns[b] == 0
  }

  lemma {:induction false} StepHistories(s: State, e: Event)
    requires Shape(s) && Next(s, e).Some?
    ensures AllZero(Next(s, e).value.cuts) <==> AllZero(s.cuts) && !e.PutAgain?
    ensures AllZero(Next(s, e).value.drops) <==> AllZero(s.drops) && !e.Drop?
  {
    var t := Next(s, e).value;
    if e.GetNew? {
      assert forall b :: 0 <= b < |s.cuts| ==> t.cuts[b] == s.cuts[b] && t.drops[b] == s.drops[b];
    } else if e.PutAgain? {
      assert t.cuts[s.conns[e.i].phase.b] > 0;
    } else if e.Drop? {
      assert t.drops[e.b] > 0;
    }
  }

  lemma {:induction false} NoCutsSnoc(events: seq<Event>)
    requires events != []
    ensures NoCuts(events) <==> NoCuts(events[..|events| - 1]) && !events[|events| - 1].PutAgain?
    ensures NoDrops(events) <==> NoDrops(events[..|events| - 1]) && !events[|events| - 1].Drop?
  {
    var before, last := events[..|events| - 1], events[|events| - 1];
    assert events == before + [last];
  }

  lemma {:induction false} Histories(events: seq<Event>)
    requires Run(events).Some?
    ensures AllZero(Run(events).value.cuts) <==> NoCuts(events)
    ensures AllZero(Run(events).value.drops) <==> NoDrops(events)
    decreases |events|
  {
    if events != [] {
      var n := |events| - 1;
      Histories(events[..n]);
      StepHistories(Run(events[..n]).value, events[n]);
      NoCutsSnoc(events);
    }
  }

  ghost predicate ForgottenEnough(s: State)
    requires Shape(s)
  {
    forall b :: 0 <= b < |s.mem| ==> s.cuts[b] <= s.drops[b]
  }

  lemma {:induction false} ExclusiveExactly(s: State)
    requires Shape(s) && Law(s)
    ensures Exclusive(s) <==> ForgottenEnough(s)
    ensures AllZero(s.cuts) ==> Exclusive(s)
    ensures AllZero(s.drops) ==> (Exclusive(s) <==> AllZero(s.cuts))
  {
    forall b | 0 <= b < |s.mem| ensures s.pooled[b] + |Holders(s, b)| <= 1 <==> s.cuts[b] <= s.drops[b] {
      assert Counted(s, b);
    }
  }

  /**
   * Every buffer is in one place at most exactly if it was forgotten as often as it was put back twice; so in a run
   * in which the pool forgets nothing, exactly if no session was ever cut off.
   */
  lemma {:induction false} OneHolderExactlyWithoutCutOff(events: seq<Event>)
    requires Run(events).Some?
    ensures var s := Run(events).value;
            && (Exclusive(s) <==> ForgottenEnough(s))
            && (NoDrops(events) ==> (Exclusive(s) <==> NoCuts(events)))
            && (NoCuts(events) ==> Exclusive(s))
  {
    EveryRunCountsBuffers(events);
    Histories(events);
    ExclusiveExactly(Run(events).value);
  }

  // ---- Sessions are private as long as nobody is cut off ----

  /** The session is what the read loop makes of its own reads, all but the one that is still to be appended. */
  ghost predicate Faithful(c: Conn, mem: seq<seq<Byte>>) {
    && (forall k :: 0 <= k < |c.received| ==> |c.received[k]| <= READ_SIZE)
    && (c.cut <==> ReadAll(Connector, [], Seen(c)).cut)
    && ReadAll(Connector, [], Seen(c)) == Session(c.frames, c.readBuf, c.cut)
    && (c.phase.Between? || c.phase.Holding? || c.phase.Filled? ==> !c.cut)
    && (c.phase.Filled? ==>
          && c.received != [] && c.phase.b < |mem| && c.phase.n <= |mem[c.phase.b]|
          && c.received[|c.received| - 1] == mem[c.phase.b][..c.phase.n])
  }

  function Seen(c: Conn): seq<seq<Byte>> {
    if c.phase.Filled? && c.received != [] then c.received[..|c.received| - 1] else c.received
  }

  ghost predicate AllFaithful(s: State) {
    forall i :: i in s.conns ==> Faithful(s.conns[i], s.mem)
  }

  /** One more read. */
  lemma {:induction false} ReadAllSnoc(buf: seq<Byte>, chunks: seq<seq<Byte>>, x: seq<Byte>)
    requires !ReadAll(Connector, buf, chunks).cut
    ensures var t := ReadAll(Connector, buf, chunks);
            var grown := t.rest + x;
            var now := Decode(Connector, grown);
            ReadAll(Connector, buf, chunks + [x]) ==
            if |grown| > CUT_OFF then Session(t.frames, grown, true)
            else Session(t.frames + now.frames, now.rest, false)
    decreases |chunks|
  {
    if chunks == [] {
      assert chunks + [x] == [x];
      LastRead(buf, x);
    } else {
      assert (chunks + [x])[1..] == chunks[1..] + [x];
      ReadAllSnoc(Decode(Connector, buf + chunks[0]).rest, chunks[1..], x);
    }
  }

  lemma {:induction false} LastRead(buf: seq<Byte>, x: seq<Byte>)
    ensures var now := Decode(Connector, buf + x);
            ReadAll(Connector, buf, [x]) ==
            if |buf + x| > CUT_OFF then Session([], buf + x, true) else Session([] + now.frames, now.rest, false)
  {
    assert [x][1..] == [];
  }

  lemma {:induction false} AppendIsFaithful(c: Conn, mem: seq<seq<Byte>>)
    requires c.phase.Filled? && Faithful(c, mem)
    ensures Faithful(Appended(c, mem[c.phase.b]), mem)
  {
    var n := |c.received| - 1;
    assert c.received == c.received[..n] + [c.received[n]];
    ReadAllSnoc([], c.received[..n], c.received[n]);
  }

  lemma {:induction false} FillIsFaithful(c: Conn, mem: seq<seq<Byte>>, data: seq<Byte>)
    requires c.phase.Holding? && Faithful(c, mem) && c.phase.b < |mem| && |data| <= |mem[c.phase.b]| == READ_SIZE
    ensures var b := c.phase.b;
            Faithful(c.(phase := Filled(b, |data|), received := c.received + [data]),
                     mem[b := data + mem[b][|data|..]])
  {
    var received := c.received + [data];
    assert received[..|received| - 1] == c.received;
    TakeDrop(data, mem[c.phase.b][|data|..]);
  }

  /** Nobody else has bytes waiting in a buffer that a session holds. */
  lemma {:induction false} OnlyHolder(s: State, i: SessionId, j: SessionId)
    requires Shape(s) && Exclusive(s) && i != j && i in s.conns && j in s.conns
    requires s.conns[i].phase.Holding? && s.conns[j].phase.Filled?
    ensures s.conns[i].phase.b != s.conns[j].phase.b
  {
    var b := s.conns[i].phase.b;
    assert PhaseShape(s.conns[i].phase, |s.mem|);
    if s.conns[j].phase.b == b {
      assert {i, j} <= Holders(s, b);
      Larger({i, j}, Holders(s, b));
      assert false;
    }
  }

  lemma {:induction false} Larger(a: set<SessionId>, b: set<SessionId>)
    requires a <= b
    ensures |a| <= |b|
  {
    assert b == a + (b - a);
  }

  /** The session that makes the step. */
  lemma {:induction false} OwnStepIsFaithful(s: State, e: Event)
    requires Shape(s) && AllFaithful(s) && !e.Drop? && Next(s, e).Some?
    ensures e.i in Next(s, e).value.conns && Faithful(Next(s, e).value.conns[e.i], Next(s, e).value.mem)
  {
    if e.Append? {
      AppendIsFaithful(s.conns[e.i], s.mem);
    } else if e.Fill? {
      assert PhaseShape(s.conns[e.i].phase, |s.mem|);
      FillIsFaithful(s.conns[e.i], s.mem, e.data);
    } else if !e.Open? {
      assert Faithful(s.conns[e.i], s.mem);
    }
  }

  lemma {:induction false} OthersStayFaithful(s: State, e: Event, j: SessionId)
    requires Shape(s) && AllFaithful(s) && Exclusive(s) && Next(s, e).Some?
    requires j in s.conns && (e.Drop? || e.i != j)
    ensures j in Next(s, e).value.conns && Faithful(Next(s, e).value.conns[j], Next(s, e).value.mem)
  {
    assert Faithful(s.conns[j], s.mem);
    if e.Fill? && s.conns[j].phase.Filled? {
      OnlyHolder(s, e.i, j);
    }
  }

  lemma {:induction false} StepKeepsFaithful(s: State, e: Event)
    requires Shape(s) && AllFaithful(s) && Exclusive(s) && Next(s, e).Some?
    ensures AllFaithful(Next(s, e).value)
  {
    var t := Next(s, e).value;
    forall j | j in t.conns ensures Faithful(t.conns[j], t.mem) {
      if !e.Drop? && e.i == j {
        OwnStepIsFaithful(s, e);
      } else {
        OthersStayFaithful(s, e, j);
      }
    }
  }

  /**
   * In every run in which no session has been cut off, every session has buffered and dispatched what the read loop
   * makes of its own reads alone, however the sessions pass the buffers round.
   */
  lemma {:induction false} SessionsArePrivateWithoutCutOff(events: seq<Event>)
    requires Run(events).Some? && NoCuts(events)
    ensures AllFaithful(Run(events).value)
    decreases |events|
  {
    if events != [] {
      var n := |events| - 1;
      NoCutsSnoc(events);
      SessionsArePrivateWithoutCutOff(events[..n]);
      OneHolderExactlyWithoutCutOff(events[..n]);
      StepKeepsFaithful(Run(events[..n]).value, events[n]);
    }
  }

  // ---- All sessions deliver ----

  lemma {:induction false} ConcatOn(a: seq<seq<Byte>>, b: seq<seq<Byte>>)
    ensures Concat(a + b) == Concat(a) + Concat(b)
    decreases |a|
  {
    if a == [] {
      assert a + b == b;
    } else {
      assert (a + b)[1..] == a[1..] + b;
      ConcatOn(a[1..], b);
    }
  }

  /** No session forgets a read. */
  lemma {:induction false} StepKeepsReceived(s: State, e: Event, i: SessionId)
    requires Shape(s) && Next(s, e).Some? && i in s.conns
    ensures i in Next(s, e).value.conns && s.conns[i].received <= Next(s, e).value.conns[i].received
  {
  }

  /** Each peer has sent (part of) a stream of frames that the connector can always take. */
  ghost predicate GoodPeers(s: State, sent: SessionId -> seq<seq<Byte>>) {
    forall i :: i in s.conns ==>
      Fits(Connector, sent(i), SAFE_FRAME) && Concat(s.conns[i].received) <= Stream(sent(i))
  }

  lemma {:induction false} GoodBefore(s: State, e: Event, sent: SessionId -> seq<seq<Byte>>)
    requires Shape(s) && Next(s, e).Some? && GoodPeers(Next(s, e).value, sent)
    ensures GoodPeers(s, sent)
  {
    var t := Next(s, e).value;
    forall i | i in s.conns
      ensures Fits(Connector, sent(i), SAFE_FRAME) && Concat(s.conns[i].received) <= Stream(sent(i))
    {
      StepKeepsReceived(s, e, i);
      var a, b := s.conns[i].received, t.conns[i].received;
      assert b == a + b[|a|..];
      ConcatOn(a, b[|a|..]);
    }
  }

  /** What one good peer's session has got. */
  lemma {:induction false} GoodSession(c: Conn, mem: seq<seq<Byte>>, payloads: seq<seq<Byte>>)
    requires Faithful(c, mem) && Fits(Connector, payloads, SAFE_FRAME) && Concat(c.received) <= Stream(payloads)
    ensures !c.cut && c.frames <= payloads
    ensures !c.phase.Filled? && Concat(c.received) == Stream(payloads) ==> c.frames == payloads && c.readBuf == []
  {
    var seen := Seen(c);
    assert seen <= c.received;
    assert c.received == seen + c.received[|seen|..];
    ConcatOn(seen, c.received[|seen|..]);
    SafeStreamIsDelivered(payloads, seen);
  }

  /**
   * If every peer sends frames of at most 61,441 bytes, then over every run of any number of sessions no session is
   * cut off, and each has dispatched a prefix of what its own peer sent; all of it once all of it was read.
   */
  lemma {:induction false} EverySessionDelivers(events: seq<Event>, sent: SessionId -> seq<seq<Byte>>)
    requires Run(events).Some? && GoodPeers(Run(events).value, sent)
    ensures NoCuts(events)
    ensures var s := Run(events).value;
            forall i :: i in s.conns ==>
              && s.conns[i].frames <= sent(i)
              && (!s.conns[i].phase.Filled? && Concat(s.conns[i].received) == Stream(sent(i)) ==>
                    s.conns[i].frames == sent(i) && s.conns[i].readBuf == [])
  {
    GoodRunHasNoCuts(events, sent);
    SessionsArePrivateWithoutCutOff(events);
    var s := Run(events).value;
    forall i | i in s.conns
      ensures s.conns[i].frames <= sent(i)
      ensures !s.conns[i].phase.Filled? && Concat(s.conns[i].received) == Stream(sent(i)) ==>
                s.conns[i].frames == sent(i) && s.conns[i].readBuf == []
    {
      GoodSession(s.conns[i], s.mem, sent(i));
    }
  }

  lemma {:induction false} GoodRunHasNoCuts(events: seq<Event>, sent: SessionId -> seq<seq<Byte>>)
    requires Run(events).Some? && GoodPeers(Run(events).value, sent)
    ensures NoCuts(events)
    decreases |events|
  {
    if events != [] {
      var n := |events| - 1;
      var s := Run(events[..n]).value;
      GoodBefore(s, events[n], sent);
      GoodRunHasNoCuts(events[..n], sent);
      SessionsArePrivateWithoutCutOff(events[..n]);
      if events[n].PutAgain? {
        OverflowIsCut(events[..n], events[n].i);
        GoodSession(s.conns[events[n].i], s.mem, sent(events[n].i));
      }
      NoCutsSnoc(events);
    }
  }

  lemma {:induction false} StepOverflows(s: State, e: Event, i: SessionId)
    requires Shape(s) && Next(s, e).Some? && i in Next(s, e).value.conns
    requires i in s.conns && s.conns[i].phase.Overflowing? ==> s.conns[i].cut
    ensures Next(s, e).value.conns[i].phase.Overflowing? ==> Next(s, e).value.conns[i].cut
  {
  }

  /** A session that is about to put its buffer back again has been cut off. */
  lemma {:induction false} OverflowIsCut(events: seq<Event>, i: SessionId)
    requires Run(events).Some? && i in Run(events).value.conns && Run(events).value.conns[i].phase.Overflowing?
    ensures Run(events).value.conns[i].cut
    decreases |events|
  {
    if events != [] {
      var s := Run(events[..|events| - 1]).value;
      if i in s.conns && s.conns[i].phase.Overflowing? {
        OverflowIsCut(events[..|events| - 1], i);
      }
      StepOverflows(s, events[|events| - 1], i);
    }
  }

  // ---- After a cut-off they are not ----

  lemma {:induction false} RunSnoc(events: seq<Event>, e: Event)
    requires Run(events).Some? && Next(Run(events).value, e).Some?
    ensures Run(events + [e]) == Next(Run(events).value, e)
  {
    assert (events + [e])[..|events|] == events;
  }

  /** Buffer 0 lies in the pool and session 0 is between reads; sessions 1 and 2 are still to come. */
  ghost predicate Ready(s: State, c: Conn, copies: nat)
    requires Shape(s)
  {
    && |s.mem| > 0 && s.pooled[0] == copies
    && 0 in s.conns && s.conns[0] == c && 1 !in s.conns && 2 !in s.conns
  }

  /** Session 3 opens, gets the first buffer, fails to read and leaves the buffer in the pool for session 0. */
  lemma {:induction false} WarmUp() returns (events: seq<Event>)
    ensures Run(events).Some? && Ready(Run(events).value, NEW_CONN, 1)
  {
    events := [];
    RunSnoc(events, Open(3));
    events := events + [Open(3)];
    RunSnoc(events, GetNew(3));
    events := events + [GetNew(3)];
    RunSnoc(events, ReadFails(3));
    events := events + [ReadFails(3)];
    RunSnoc(events, Open(0));
    events := events + [Open(0)];
  }

  /** Session 0 gets buffer 0, reads x and appends it. */
  lemma {:induction false} ReadOne(events: seq<Event>, c: Conn, x: seq<Byte>) returns (after: seq<Event>)
    requires Run(events).Some? && Ready(Run(events).value, c, 1) && c.phase == Between && |x| <= READ_SIZE
    ensures Run(after).Some?
    ensures var grown := c.readBuf + x;
            var now := Decode(Connector, grown);
            Ready(Run(after).value,
                  if |grown| > CUT_OFF then Conn(Overflowing(0), c.received + [x], grown, c.frames, true)
                  else Conn(Between, c.received + [x], now.rest, c.frames + now.frames, c.cut), 1)
  {
    after := events;
    RunSnoc(after, GetPooled(0, 0));
    after := after + [GetPooled(0, 0)];
    RunSnoc(after, Fill(0, x));
    after := after + [Fill(0, x)];
    var s := Run(after).value;
    assert s.mem[0][..|x|] == x;
    RunSnoc(after, Append(0));
    after := after + [Append(0)];
  }

  /** Session 0 alone reads these chunks, none of which cuts it off. */
  lemma {:induction false} ReadAlone(chunks: seq<seq<Byte>>) returns (events: seq<Event>)
    requires (forall k :: 0 <= k < |chunks| ==> |chunks[k]| <= READ_SIZE) && !ReadAll(Connector, [], chunks).cut
    ensures Run(events).Some?
    ensures var t := ReadAll(Connector, [], chunks);
            Ready(Run(events).value, Conn(Between, chunks, t.rest, t.frames, false), 1)
    decreases |chunks|
  {
    if chunks == [] {
      events := WarmUp();
    } else {
      var n := |chunks| - 1;
      assert chunks == chunks[..n] + [chunks[n]];
      PrefixNotCut([], chunks[..n], [chunks[n]]);
      ReadAllSnoc([], chunks[..n], chunks[n]);
      events := ReadAlone(chunks[..n]);
      var t := ReadAll(Connector, [], chunks[..n]);
      events := ReadOne(events, Conn(Between, chunks[..n], t.rest, t.frames, false), chunks[n]);
    }
  }

  lemma {:induction false} PrefixNotCut(buf: seq<Byte>, a: seq<seq<Byte>>, b: seq<seq<Byte>>)
    requires !ReadAll(Connector, buf, a + b).cut
    ensures !ReadAll(Connector, buf, a).cut
    decreases |a|
  {
    if a != [] {
      assert (a + b)[1..] == a[1..] + b;
      PrefixNotCut(Decode(Connector, buf + a[0]).rest, a[1..], b);
    }
  }

  /** The read at which the session is cut off. */
  lemma {:induction false} FirstCut(chunks: seq<seq<Byte>>) returns (n: nat)
    requires ReadAll(Connector, [], chunks).cut
    ensures n < |chunks| && !ReadAll(Connector, [], chunks[..n]).cut && ReadAll(Connector, [], chunks[..n + 1]).cut
    decreases |chunks|
  {
    n := |chunks| - 1;
    if ReadAll(Connector, [], chunks[..n]).cut {
      var whole := chunks;
      n := FirstCut(chunks[..n]);
      assert whole[..|whole| - 1][..n] == whole[..n] && whole[..|whole| - 1][..n + 1] == whole[..n + 1];
    } else {
      assert chunks[..n + 1] == chunks;
    }
  }

  /** Whatever reads cut off a session, they leave its buffer in the pool twice. */
  lemma {:induction false} CutOffDoublesTheBuffer(chunks: seq<seq<Byte>>) returns (events: seq<Event>, c: Conn)
    requires (forall k :: 0 <= k < |chunks| ==> |chunks[k]| <= READ_SIZE) && ReadAll(Connector, [], chunks).cut
    ensures Run(events).Some? && Ready(Run(events).value, c, 2)
  {
    var n := FirstCut(chunks);
    assert chunks[..n + 1] == chunks[..n] + [chunks[n]];
    ReadAllSnoc([], chunks[..n], chunks[n]);
    events := ReadAlone(chunks[..n]);
    var t := ReadAll(Connector, [], chunks[..n]);
    events := ReadOne(events, Conn(Between, chunks[..n], t.rest, t.frames, false), chunks[n]);
    c := Run(events).value.conns[0].(phase := Gone);
    RunSnoc(events, PutAgain(0));
    events := events + [PutAgain(0)];
  }

  /** Two sessions take the buffer that lies in the pool twice. */
  lemma {:induction false} TakeTwice(events: seq<Event>, c: Conn) returns (after: seq<Event>)
    requires Run(events).Some? && Ready(Run(events).value, c, 2)
    ensures Run(after).Some?
    ensures var s := Run(after).value;
            && |s.mem| > 0 && 1 in s.conns && 2 in s.conns
            && s.conns[1] == s.conns[2] == NEW_CONN.(phase := Holding(0))
  {
    after := events;
    RunSnoc(after, Open(1));
    after := after + [Open(1)];
    RunSnoc(after, Open(2));
    after := after + [Open(2)];
    RunSnoc(after, GetPooled(1, 0));
    after := after + [GetPooled(1, 0)];
    RunSnoc(after, GetPooled(2, 0));
    after := after + [GetPooled(2, 0)];
  }

  /** Both read, the first appends: it has got the other's byte. */
  lemma {:induction false} Mix(events: seq<Event>, u: Byte, v: Byte) returns (after: seq<Event>)
    requires Run(events).Some?
    requires var s := Run(events).value;
             && |s.mem| > 0 && 1 in s.conns && 2 in s.conns
             && s.conns[1] == s.conns[2] == NEW_CONN.(phase := Holding(0))
    ensures Run(after).Some?
    ensures var s := Run(after).value;
            1 in s.conns && s.conns[1].received == [[u]] && s.conns[1].readBuf == [v]
  {
    after := events;
    RunSnoc(after, Fill(1, [u]));
    after := after + [Fill(1, [u])];
    RunSnoc(after, Fill(2, [v]));
    after := after + [Fill(2, [v])];
    var s := Run(after).value;
    assert s.mem[0][..1] == [v];
    assert [] + [[u]] == [[u]] && [] + [v] == [v];
    RunSnoc(after, Append(1));
    after := after + [Append(1)];
  }

  /**
   * A run in which one session is cut off and of two later ones one appends what was sent to the other. The cut-off
   * takes no more than frames of 61,442 bytes.
   */
  lemma {:induction false} CutOffMixesSessions(u: Byte, v: Byte) returns (events: seq<Event>)
    ensures Run(events).Some?
    ensures var s := Run(events).value;
            1 in s.conns && s.conns[1].received == [[u]] && s.conns[1].readBuf == [v]
  {
    SafeFrameIsTight(SAFE_FRAME + 1);
    var payloads, chunks :| Fits(Connector, payloads, SAFE_FRAME + 1) && ReadsOf(chunks, Stream(payloads))
      && ReadAll(Connector, [], chunks).cut;
    var c: Conn;
    events, c := CutOffDoublesTheBuffer(chunks);
    events := TakeTwice(events, c);
    events := Mix(events, u, v);
  }
}
