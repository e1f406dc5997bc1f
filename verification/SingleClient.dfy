/**
 * The multiplexing RPC client (singleClient in rpc/client.go) as a step machine: any number of
 * InvokeCtx callers, the receive loop and Close, interleaved at the client's lock regions.
 */
module SingleClient {
  import opened Prelude

  type CallId = nat

  /** A decoded response; whether its reply can be stored in the caller's variable is decided by JSON. */
  datatype Reply = NoReply | Storable | Unstorable
  datatype Response = Response(tag: nat, error: string, reply: Reply)

  datatype Error = Remote(message: string) | BadReply | ConnectionError | ClientClosed

  /** How a future was completed; Open futures have a channel that is not closed yet. */
  datatype Result = Open | Answered(response: Response, error: Option<Error>) | Failed(reason: Error)

  datatype Outcome = Completed(error: Option<Error>) | MarshalFailed | ClosedAtSend | WriteFailed
                   | ConnectionGone | TimedOut | Cancelled

  /** Where a caller of InvokeCtx is. Cleaning: it has decided what to return and is about to delete its entry. */
  datatype Phase = Allocated | Registered | Waiting | Cleaning(why: Outcome) | Returned(outcome: Outcome)

  datatype Call = Call(tag: nat, wantsReply: bool, phase: Phase, result: Result, completions: nat)

  datatype Receiver = Reading(errors: nat) | Failing | Draining(left: set<CallId>) | Exited
  datatype Closer = NotClosing | Cancelling | Joining | Releasing(left: set<CallId>) | Done

  datatype State = State(
    last: nat,
    issued: map<nat, CallId>,  // history: the call that took each tag
    late: set<CallId>,         // history: the calls that registered while a failing receive loop was draining
    calls: map<CallId, Call>,
    pending: map<nat, CallId>,
    closed: bool,
    cancelled: bool,
    receiver: Receiver,
    closer: Closer)

  const INITIAL := State(0, map[], {}, map[], map[], false, false, Reading(0), NotClosing)
  const MAX_ERRORS := 3

  datatype Event =
    | Invoke(c: CallId, wantsReply: bool)
    | NotifyTag
    | Register(c: CallId)
    | MarshalFails(c: CallId)
    | Send(c: CallId, written: bool)
    | Observe(c: CallId)
    | Abandon(c: CallId, why: Outcome)
    | Clean(c: CallId)
    | Receive(response: Response)
    | ReceiveGarbage
    | ReadError
    | ReceiverStops
    | Drain
    | DrainOne(c: CallId)
    | TearDown
    | CloseCall
    | CancelContext
    | Release
    | ReleaseOne(c: CallId)
    | CloseReturns

  function At(s: State, c: CallId, phase: Phase): State
    requires c in s.calls
  {
    s.(calls := s.calls[c := s.calls[c].(phase := phase)])
  }

  function Forget(s: State, c: CallId): State
    requires c in s.calls
  {
    s.(pending := s.pending - {s.calls[c].tag})
  }

  /** close(future.done); a second one would panic, so completions are counted. */
  function Complete(s: State, c: CallId, result: Result): State
    requires c in s.calls
  {
    s.(calls := s.calls[c := s.calls[c].(result := result, completions := s.calls[c].completions + 1)])
  }

  function Values(m: map<nat, CallId>): set<CallId> {
    set t | t in m :: m[t]
  }

  /** handleResponse's error: a caller that wants no reply is told nothing, not even a remote error. */
  function ErrorFor(wantsReply: bool, r: Response): Option<Error> {
    if !wantsReply then None
    else if r.error != "" then Some(Remote(r.error))
    else if r.reply.Unstorable? then Some(BadReply)
    else None
  }

  function ErrorOf(r: Result): Option<Error> {
    match r
    case Open => None
    case Answered(_, e) => e
    case Failed(e) => Some(e)
  }

  /** Steps of a caller; None when the step cannot happen. */
  function CallerStep(s: State, e: Event): Option<State> {
    match e
    case Invoke(c, wantsReply) =>
      if c in s.calls then None
      else Some(s.(last := s.last + 1, issued := s.issued[s.last + 1 := c],
                   calls := s.calls[c := Call(s.last + 1, wantsReply, Allocated, Open, 0)]))
    case NotifyTag => Some(s.(last := s.last + 1))
    case Register(c) =>
      if c in s.calls && s.calls[c].phase == Allocated
      then Some(At(s, c, Registered).(pending := s.pending[s.calls[c].tag := c],
                                      late := if s.receiver.Draining? then s.late + {c} else s.late))
      else None
    case MarshalFails(c) =>
      if c in s.calls && s.calls[c].phase == Registered then Some(At(s, c, Cleaning(MarshalFailed))) else None
    case Send(c, written) =>
      if c in s.calls && s.calls[c].phase == Registered then
        Some(if s.closed then At(Forget(s, c), c, Returned(ClosedAtSend))
             else if !written then At(Forget(s, c), c, Returned(WriteFailed))
             else At(s, c, Waiting))
      else None
    case Observe(c) =>
      if c in s.calls && s.calls[c].phase == Waiting && s.calls[c].result != Open
      then Some(At(s, c, Returned(Completed(ErrorOf(s.calls[c].result)))))
      else None
    case Abandon(c, why) =>
      if && c in s.calls && s.calls[c].phase == Waiting
         && (why == TimedOut || why == Cancelled || (why == ConnectionGone && s.cancelled))
      then Some(At(s, c, Cleaning(why)))
      else None
    case Clean(c) =>
      if c in s.calls && s.calls[c].phase.Cleaning?
      then Some(At(Forget(s, c), c, Returned(s.calls[c].phase.why)))
      else None
    case _ => None
  }

  /** Steps of the receive loop. */
  function ReceiverStep(s: State, e: Event): Option<State> {
    match e
    case Receive(r) =>
      if !s.receiver.Reading? then None
      else
        var t := s.(receiver := Reading(0));
        if r.tag !in s.pending then Some(t)
        else
          var c := s.pending[r.tag];
          if c !in s.calls then None
          else
            var u := t.(pending := t.pending - {r.tag});
            Some(Complete(u, c, Answered(r, ErrorFor(s.calls[c].wantsReply, r))))
    case ReceiveGarbage => if s.receiver.Reading? then Some(s.(receiver := Reading(0))) else None
    case ReadError =>
      if !s.receiver.Reading? then None
      else if s.closed then Some(s.(receiver := Exited))
      else if s.receiver.errors + 1 < MAX_ERRORS then Some(s.(receiver := Reading(s.receiver.errors + 1)))
      else Some(s.(receiver := Failing))
    case ReceiverStops => if s.receiver.Reading? && s.cancelled then Some(s.(receiver := Exited)) else None
    case Drain =>
      if s.receiver == Failing then Some(s.(receiver := Draining(Values(s.pending)), pending := map[])) else None
    case DrainOne(c) =>
      if s.receiver.Draining? && c in s.receiver.left && c in s.calls
      then Some(Complete(s, c, Failed(ConnectionError)).(receiver := Draining(s.receiver.left - {c})))
      else None
    case TearDown => if s.receiver == Draining({}) then Some(s.(closed := true, receiver := Exited)) else None
    case _ => None
  }

  /** Steps of Close; a second caller finds `closed` set and returns at once. */
  function CloserStep(s: State, e: Event): Option<State> {
    match e
    case CloseCall => Some(if s.closed then s else s.(closed := true, closer := Cancelling))
    case CancelContext => if s.closer == Cancelling then Some(s.(closer := Joining, cancelled := true)) else None
    case Release =>
      if s.closer == Joining && s.receiver == Exited
      then Some(s.(closer := Releasing(Values(s.pending)), pending := map[]))
      else None
    case ReleaseOne(c) =>
      if s.closer.Releasing? && c in s.closer.left && c in s.calls
      then Some(Complete(s, c, Failed(ClientClosed)).(closer := Releasing(s.closer.left - {c})))
      else None
    case CloseReturns => if s.closer == Releasing({}) then Some(s.(closer := Done)) else None
    case _ => None
  }

  function Next(s: State, e: Event): Option<State> {
    if CallerStep(s, e).Some? then CallerStep(s, e)
    else if ReceiverStep(s, e).Some? then ReceiverStep(s, e)
    else CloserStep(s, e)
  }

  function Run(events: seq<Event>): Option<State> {
    if events == [] then Some(INITIAL)
    else
      match Run(events[..|events| - 1])
      case None => None
      case Some(s) => Next(s, events[|events| - 1])
  }

  // ---- The invariant ----

  /** Calls whose futures a drain has taken out of the table and will complete. */
  function Held(s: State): set<CallId> {
    (if s.receiver.Draining? then s.receiver.left else {}) + (if s.closer.Releasing? then s.closer.left else {})
  }

  ghost predicate TableSound(s: State) {
    forall t :: t in s.pending ==>
      && s.pending[t] in s.calls
      && s.calls[s.pending[t]].tag == t
      && s.calls[s.pending[t]].completions == 0
      && !s.calls[s.pending[t]].phase.Allocated? && !s.calls[s.pending[t]].phase.Returned?
      && s.pending[t] !in Held(s)
  }

  ghost predicate HeldSound(s: State) {
    forall c :: c in Held(s) ==> c in s.calls && s.calls[c].completions == 0 && !s.calls[c].phase.Allocated?
  }

  predicate Tracked(s: State, c: CallId)
    requires c in s.calls
  {
    || (s.calls[c].tag in s.pending && s.pending[s.calls[c].tag] == c)
    || s.calls[c].completions == 1
    || c in Held(s)
  }

  predicate CallSound(s: State, c: CallId)
    requires c in s.calls
  {
    var call := s.calls[c];
    && 1 <= call.tag <= s.last
    && call.tag in s.issued && s.issued[call.tag] == c
    && call.completions <= 1
    && (call.completions == 0 <==> call.result == Open)
    && (call.result.Answered? ==>
          call.result.response.tag == call.tag && call.result.error == ErrorFor(call.wantsReply, call.result.response))
    && (call.phase.Allocated? ==> call.completions == 0)
    && (call.phase.Registered? || call.phase.Waiting? ==> Tracked(s, c))
    && (call.phase.Cleaning? ==> !call.phase.why.Completed?)
    && (call.phase.Returned? && call.phase.outcome.Completed? ==>
          call.result != Open && call.phase.outcome.error == ErrorOf(call.result))
  }

  ghost predicate CallsSound(s: State) {
    forall c :: c in s.calls ==> CallSound(s, c)
  }

  ghost predicate CloserSound(s: State) {
    && (s.closer != NotClosing ==> s.closed)
    && (s.closer.Releasing? || s.closer.Done? ==> s.receiver == Exited && NoWaiterInTable(s))
  }

  ghost predicate NoWaiterInTable(s: State) {
    forall t :: t in s.pending && s.pending[t] in s.calls ==> !s.calls[s.pending[t]].phase.Waiting?
  }

  ghost predicate Inv(s: State) {
    TableSound(s) && HeldSound(s) && CallsSound(s) && CloserSound(s)
  }

  // ---- Every step keeps it ----

  lemma {:induction false} InvokeKeepsInv(s: State, c: CallId, wantsReply: bool)
    requires Inv(s) && c !in s.calls
    ensures Inv(CallerStep(s, Invoke(c, wantsReply)).value)
  {
    var t := CallerStep(s, Invoke(c, wantsReply)).value;
    assert forall d :: d in s.calls ==> CallSound(s, d) && (Tracked(s, d) ==> Tracked(t, d));
  }

  /** Calls stay sound when only one of them, itself sound, changes and no other loses track. */
  lemma {:induction false} OthersStaySound(s: State, t: State, c: CallId)
    requires CallsSound(s) && s.last <= t.last
    requires forall n :: n in s.issued ==> n in t.issued && t.issued[n] == s.issued[n]
    requires c in t.calls && CallSound(t, c)
    requires forall d :: d in t.calls && d != c ==>
               d in s.calls && t.calls[d] == s.calls[d] && (Tracked(s, d) ==> Tracked(t, d))
    ensures CallsSound(t)
  {
    forall d | d in t.calls && d != c ensures CallSound(t, d) {
      assert CallSound(s, d);
    }
  }

  lemma {:induction false} RegisterKeepsCalls(s: State, c: CallId)
    requires Inv(s) && c in s.calls && s.calls[c].phase == Allocated
    ensures CallsSound(CallerStep(s, Register(c)).value)
  {
    var t := CallerStep(s, Register(c)).value;
    assert CallSound(s, c);
    forall d | d in s.calls && d != c ensures Tracked(s, d) ==> Tracked(t, d) {
      assert CallSound(s, d);
    }
    OthersStaySound(s, t, c);
  }

  lemma {:induction false} RegisterKeepsInv(s: State, c: CallId)
    requires Inv(s) && c in s.calls && s.calls[c].phase == Allocated
    ensures Inv(CallerStep(s, Register(c)).value)
  {
    RegisterKeepsCalls(s, c);
    assert CallSound(s, c);
    assert s.calls[c].tag in s.pending ==> CallSound(s, s.pending[s.calls[c].tag]);
  }

  /** A caller moves on while its entry, if any, stays where it is. */
  lemma {:induction false} MoveKeepsInv(s: State, c: CallId, phase: Phase)
    requires Inv(s) && c in s.calls
    requires s.calls[c].phase.Registered? || s.calls[c].phase.Waiting?
    requires
      || (phase.Waiting? && !s.closed)
      || (phase.Cleaning? && !phase.why.Completed?)
      || (s.calls[c].result != Open && phase == Returned(Completed(ErrorOf(s.calls[c].result))))
    ensures Inv(At(s, c, phase))
  {
    var t := At(s, c, phase);
    assert CallSound(s, c);
    assert forall d :: d in s.calls ==> CallSound(s, d) && (Tracked(s, d) ==> Tracked(t, d));
  }

  /** A caller deletes its entry and returns. */
  lemma {:induction false} LeaveKeepsInv(s: State, c: CallId, outcome: Outcome)
    requires Inv(s) && c in s.calls
    requires s.calls[c].phase.Registered? || s.calls[c].phase.Cleaning?
    requires !outcome.Completed?
    ensures Inv(At(Forget(s, c), c, Returned(outcome)))
  {
    var t := At(Forget(s, c), c, Returned(outcome));
    assert CallSound(s, c);
    forall d | d in s.calls && d != c ensures CallSound(t, d) {
      assert CallSound(s, d);
    }
  }

  lemma {:induction false} SendKeepsInv(s: State, c: CallId, written: bool)
    requires Inv(s) && c in s.calls && s.calls[c].phase == Registered
    ensures Inv(CallerStep(s, Send(c, written)).value)
  {
    if s.closed {
      LeaveKeepsInv(s, c, ClosedAtSend);
    } else if !written {
      LeaveKeepsInv(s, c, WriteFailed);
    } else {
      MoveKeepsInv(s, c, Waiting);
    }
  }

  lemma {:induction false} NotifyKeepsInv(s: State)
    requires Inv(s)
    ensures Inv(s.(last := s.last + 1))
  {
    assert forall c :: c in s.calls ==> CallSound(s, c) && (Tracked(s, c) ==> Tracked(s.(last := s.last + 1), c));
  }

  lemma {:induction false} CleanKeepsInv(s: State, c: CallId)
    requires Inv(s) && c in s.calls && s.calls[c].phase.Cleaning?
    ensures Inv(CallerStep(s, Clean(c)).value)
  {
    assert CallSound(s, c);
    LeaveKeepsInv(s, c, s.calls[c].phase.why);
  }

  lemma {:induction false} CallerKeepsInv(s: State, e: Event)
    requires Inv(s) && CallerStep(s, e).Some?
    ensures Inv(CallerStep(s, e).value)
  {
    match e {
      case Invoke(c, wantsReply) => InvokeKeepsInv(s, c, wantsReply);
      case NotifyTag => NotifyKeepsInv(s);
      case Register(c) => RegisterKeepsInv(s, c);
      case MarshalFails(c) => MoveKeepsInv(s, c, Cleaning(MarshalFailed));
      case Send(c, written) => SendKeepsInv(s, c, written);
      case Observe(c) => MoveKeepsInv(s, c, Returned(Completed(ErrorOf(s.calls[c].result))));
      case Abandon(c, why) => MoveKeepsInv(s, c, Cleaning(why));
      case Clean(c) => CleanKeepsInv(s, c);
    }
  }

  lemma {:induction false} AnswerKeepsCalls(s: State, r: Response)
    requires Inv(s) && s.receiver.Reading? && r.tag in s.pending
    ensures CallsSound(ReceiverStep(s, Receive(r)).value)
  {
    var c := s.pending[r.tag];
    var t := ReceiverStep(s, Receive(r)).value;
    assert CallSound(s, c);
    forall d | d in s.calls && d != c ensures Tracked(s, d) ==> Tracked(t, d) {
      assert CallSound(s, d);
    }
    OthersStaySound(s, t, c);
  }

  lemma {:induction false} AnswerKeepsInv(s: State, r: Response)
    requires Inv(s) && s.receiver.Reading? && r.tag in s.pending
    ensures Inv(ReceiverStep(s, Receive(r)).value)
  {
    AnswerKeepsCalls(s, r);
  }

  lemma {:induction false} DrainKeepsInv(s: State)
    requires Inv(s) && s.receiver == Failing
    ensures Inv(ReceiverStep(s, Drain).value)
  {
    var t := ReceiverStep(s, Drain).value;
    assert forall c :: c in s.calls ==> CallSound(s, c) && (Tracked(s, c) ==> Tracked(t, c));
  }

  lemma {:induction false} DrainOneKeepsInv(s: State, c: CallId)
    requires Inv(s) && s.receiver.Draining? && c in s.receiver.left
    ensures ReceiverStep(s, DrainOne(c)).Some?
    ensures Inv(ReceiverStep(s, DrainOne(c)).value)
  {
    assert c in Held(s);
    var t := ReceiverStep(s, DrainOne(c)).value;
    assert CallSound(s, c);
    assert forall d :: d in s.calls && d != c ==> CallSound(s, d) && (Tracked(s, d) ==> Tracked(t, d));
  }

  /** The receive loop changes place without touching the table. */
  lemma {:induction false} ReceiverMoveKeepsInv(s: State, receiver: Receiver, closed: bool)
    requires Inv(s) && (s.receiver.Draining? ==> s.receiver.left == {})
    requires !receiver.Draining? && (s.closed ==> closed) && (s.receiver == Exited ==> receiver == Exited)
    ensures Inv(s.(receiver := receiver, closed := closed))
  {
    var t := s.(receiver := receiver, closed := closed);
    assert Held(t) == Held(s);
    assert forall c :: c in s.calls ==> CallSound(s, c) && (Tracked(s, c) ==> Tracked(t, c));
  }

  lemma {:induction false} ReceiverKeepsInv(s: State, e: Event)
    requires Inv(s) && ReceiverStep(s, e).Some?
    ensures Inv(ReceiverStep(s, e).value)
  {
    if e.Receive? && e.response.tag in s.pending {
      AnswerKeepsInv(s, e.response);
    } else if e.Drain? {
      DrainKeepsInv(s);
    } else if e.DrainOne? {
      DrainOneKeepsInv(s, e.c);
    } else {
      var t := ReceiverStep(s, e).value;
      ReceiverMoveKeepsInv(s, t.receiver, t.closed);
    }
  }

  lemma {:induction false} ReleaseKeepsInv(s: State)
    requires Inv(s) && s.closer == Joining && s.receiver == Exited
    ensures Inv(CloserStep(s, Release).value)
  {
    var t := CloserStep(s, Release).value;
    assert forall c :: c in s.calls ==> CallSound(s, c) && (Tracked(s, c) ==> Tracked(t, c));
  }

  lemma {:induction false} ReleaseOneKeepsInv(s: State, c: CallId)
    requires Inv(s) && s.closer.Releasing? && c in s.closer.left && c in s.calls
    ensures Inv(CloserStep(s, ReleaseOne(c)).value)
  {
    assert c in Held(s);
    var t := CloserStep(s, ReleaseOne(c)).value;
    assert CallSound(s, c);
    assert forall d :: d in s.calls && d != c ==> CallSound(s, d) && (Tracked(s, d) ==> Tracked(t, d));
  }

  /** Close changes place without touching the table. */
  lemma {:induction false} CloserMoveKeepsInv(s: State, closer: Closer, closed: bool, cancelled: bool)
    requires Inv(s) && (s.closer.Releasing? ==> s.closer.left == {})
    requires !closer.Releasing? && (s.closed ==> closed) && (closer != NotClosing ==> closed)
    requires closer.Done? ==> s.closer.Done? || s.closer.Releasing?
    ensures Inv(s.(closer := closer, closed := closed, cancelled := cancelled))
  {
    var t := s.(closer := closer, closed := closed, cancelled := cancelled);
    assert Held(t) == Held(s);
    assert forall c :: c in s.calls ==> CallSound(s, c) && (Tracked(s, c) ==> Tracked(t, c));
  }

  lemma {:induction false} CloserKeepsInv(s: State, e: Event)
    requires Inv(s) && CloserStep(s, e).Some?
    ensures Inv(CloserStep(s, e).value)
  {
    if e.Release? {
      ReleaseKeepsInv(s);
    } else if e.ReleaseOne? {
      ReleaseOneKeepsInv(s, e.c);
    } else if CloserStep(s, e).value != s {
      var t := CloserStep(s, e).value;
      CloserMoveKeepsInv(s, t.closer, t.closed, t.cancelled);
    }
  }

  lemma {:induction false} StepKeepsInv(s: State, e: Event)
    requires Inv(s) && Next(s, e).Some?
    ensures Inv(Next(s, e).value)
  {
    if CallerStep(s, e).Some? {
      CallerKeepsInv(s, e);
    } else if ReceiverStep(s, e).Some? {
      ReceiverKeepsInv(s, e);
    } else {
      CloserKeepsInv(s, e);
    }
  }

  lemma {:induction false} EveryRunKeepsInv(events: seq<Event>)
    requires Run(events).Some?
    ensures Inv(Run(events).value)
    decreases |events|
  {
    if events != [] {
      EveryRunKeepsInv(events[..|events| - 1]);
      StepKeepsInv(Run(events[..|events| - 1]).value, events[|events| - 1]);
    }
  }

  // ---- What callers can rely on ----

  /** No future is completed twice, and a response only reaches the one call that was given its tag. */
  lemma {:induction false} FuturesCompleteOnceForTheRightCall(events: seq<Event>, c: CallId, d: CallId)
    requires Run(events).Some?
    requires var calls := Run(events).value.calls; c in calls && d in calls
    ensures var call, other := Run(events).value.calls[c], Run(events).value.calls[d];
            && call.completions <= 1
            && (c != d ==> call.tag != other.tag)
            && (call.result.Answered? ==>
                  && call.result.response.tag == call.tag
                  && (call.wantsReply && call.result.response.error != "" ==>
                        call.result.error == Some(Remote(call.result.response.error)))
                  && (!call.wantsReply ==> call.result.error == None))
            && (call.phase.Returned? && call.phase.outcome.Completed? ==>
                  call.completions == 1 && call.phase.outcome.error == ErrorOf(call.result))
  {
    EveryRunKeepsInv(events);
    var s := Run(events).value;
    assert CallSound(s, c) && CallSound(s, d);
  }

  /** The call is still there, with the same result. */
  predicate SameResult(s: State, t: State, c: CallId)
    requires c in s.calls
  {
    c in t.calls && t.calls[c].result == s.calls[c].result && t.calls[c].completions == s.calls[c].completions
  }

  lemma {:induction false} ReceiverKeepsResults(s: State, e: Event, c: CallId)
    requires Inv(s) && ReceiverStep(s, e).Some? && c in s.calls && s.calls[c].result != Open
    ensures SameResult(s, ReceiverStep(s, e).value, c)
  {
    assert CallSound(s, c);
    if e.DrainOne? {
      assert e.c in Held(s);
    }
  }

  lemma {:induction false} CloserKeepsResults(s: State, e: Event, c: CallId)
    requires Inv(s) && CloserStep(s, e).Some? && c in s.calls && s.calls[c].result != Open
    ensures SameResult(s, CloserStep(s, e).value, c)
  {
    assert CallSound(s, c);
    if e.ReleaseOne? {
      assert e.c in Held(s);
    }
  }

  lemma {:induction false} StepKeepsResults(s: State, e: Event, c: CallId)
    requires Inv(s) && Next(s, e).Some?
    requires c in s.calls && s.calls[c].result != Open
    ensures SameResult(s, Next(s, e).value, c)
  {
    if CallerStep(s, e).Some? {
    } else if ReceiverStep(s, e).Some? {
      ReceiverKeepsResults(s, e, c);
    } else {
      CloserKeepsResults(s, e, c);
    }
  }

  /** A future completed in one state of a run has the same result, and no second completion, in all later ones. */
  lemma {:induction false} ResultsAreFinal(events: seq<Event>, more: seq<Event>, c: CallId)
    requires Run(events + more).Some? && Run(events).Some?
    requires c in Run(events).value.calls && Run(events).value.calls[c].result != Open
    ensures SameResult(Run(events).value, Run(events + more).value, c)
    decreases |more|
  {
    if more == [] {
      assert events + more == events;
    } else {
      var n := |more| - 1;
      assert (events + more)[..|events + more| - 1] == events + more[..n];
      ResultsAreFinal(events, more[..n], c);
      EveryRunKeepsInv(events + more[..n]);
      StepKeepsResults(Run(events + more[..n]).value, more[n], c);
    }
  }

  /** The table only holds calls that have not returned; so when all have returned it is empty. */
  lemma {:induction false} TableIsEmptyAtQuiescence(events: seq<Event>)
    requires Run(events).Some?
    requires forall c :: c in Run(events).value.calls ==> Run(events).value.calls[c].phase.Returned?
    ensures Run(events).value.pending == map[]
  {
    EveryRunKeepsInv(events);
    var s := Run(events).value;
    assert s.pending.Keys == {};
  }

  /** A waiting call is in the table under its own tag, or completed, or held by a drain that can complete it. */
  lemma {:induction false} NoWaiterIsForgotten(events: seq<Event>, c: CallId)
    requires Run(events).Some?
    requires var s := Run(events).value; c in s.calls && s.calls[c].phase.Waiting?
    ensures var s := Run(events).value;
            || (s.calls[c].tag in s.pending && s.pending[s.calls[c].tag] == c)
            || Next(s, Observe(c)).Some?
            || Next(s, DrainOne(c)).Some?
            || Next(s, ReleaseOne(c)).Some?
  {
    EveryRunKeepsInv(events);
    assert CallSound(Run(events).value, c);
  }

  /** When the Close that did the closing returns, every call still waiting has been completed. */
  lemma {:induction false} CloseReleasesEveryWaiter(events: seq<Event>, c: CallId)
    requires Run(events).Some? && Run(events).value.closer == Done
    requires var s := Run(events).value; c in s.calls && s.calls[c].phase.Waiting?
    ensures Run(events).value.calls[c].completions == 1
  {
    EveryRunKeepsInv(events);
    assert CallSound(Run(events).value, c);
  }

  // ---- A connection failure is weaker than Close ----

  /** Who can still be in the table once a failing receive loop has drained it. */
  ghost predicate LateSound(s: State) {
    && (s.receiver.Reading? || s.receiver.Failing? ==> s.late == {})
    && (s.receiver.Draining? ==> forall t :: t in s.pending ==> s.pending[t] in s.late)
    && (s.receiver.Exited? && s.closer.NotClosing? ==>
          s.closed && forall t :: t in s.pending && s.pending[t] !in s.late ==>
            s.pending[t] in s.calls && !s.calls[s.pending[t]].phase.Waiting?)
    && (forall c :: c in s.late ==> c in s.calls && !s.calls[c].phase.Allocated? && !(s.receiver.Draining? && c in s.receiver.left))
    && (!s.closer.Releasing? && !s.closer.Done? ==> forall c :: c in s.late && c in s.calls ==> s.calls[c].completions == 0)
    && (s.closer.NotClosing? ==> !s.cancelled && (s.closed ==> s.receiver.Exited?))
  }

  lemma {:induction false} RegisterKeepsLate(s: State, c: CallId)
    requires Inv(s) && LateSound(s) && c in s.calls && s.calls[c].phase == Allocated
    ensures LateSound(CallerStep(s, Register(c)).value)
  {
    assert CallSound(s, c);
    assert s.receiver.Draining? && c in s.receiver.left ==> c in Held(s);
  }

  lemma {:induction false} InvokeKeepsLate(s: State, c: CallId, wantsReply: bool)
    requires Inv(s) && LateSound(s) && c !in s.calls
    ensures LateSound(CallerStep(s, Invoke(c, wantsReply)).value)
  {
  }

  lemma {:induction false} AtKeepsLate(s: State, c: CallId, phase: Phase)
    requires LateSound(s) && c in s.calls && !phase.Allocated? && (phase.Waiting? ==> !s.closed)
    ensures LateSound(At(s, c, phase))
  {
  }

  lemma {:induction false} ForgetKeepsLate(s: State, c: CallId)
    requires LateSound(s) && c in s.calls
    ensures LateSound(Forget(s, c))
  {
  }

  lemma {:induction false} SendKeepsLate(s: State, c: CallId, written: bool)
    requires LateSound(s) && c in s.calls && s.calls[c].phase == Registered
    ensures LateSound(CallerStep(s, Send(c, written)).value)
  {
    ForgetKeepsLate(s, c);
    if s.closed {
      AtKeepsLate(Forget(s, c), c, Returned(ClosedAtSend));
    } else if !written {
      AtKeepsLate(Forget(s, c), c, Returned(WriteFailed));
    } else {
      AtKeepsLate(s, c, Waiting);
    }
  }

  lemma {:induction false} CallerKeepsLate(s: State, e: Event)
    requires Inv(s) && LateSound(s) && CallerStep(s, e).Some?
    ensures LateSound(CallerStep(s, e).value)
  {
    match e {
      case Invoke(c, wantsReply) => InvokeKeepsLate(s, c, wantsReply);
      case NotifyTag =>
      case Register(c) => RegisterKeepsLate(s, c);
      case MarshalFails(c) => AtKeepsLate(s, c, Cleaning(MarshalFailed));
      case Send(c, written) => SendKeepsLate(s, c, written);
      case Observe(c) => AtKeepsLate(s, c, Returned(Completed(ErrorOf(s.calls[c].result))));
      case Abandon(c, why) => AtKeepsLate(s, c, Cleaning(why));
      case Clean(c) =>
        ForgetKeepsLate(s, c);
        AtKeepsLate(Forget(s, c), c, Returned(s.calls[c].phase.why));
    }
  }

  lemma {:induction false} ReceiverKeepsLate(s: State, e: Event)
    requires Inv(s) && LateSound(s) && ReceiverStep(s, e).Some?
    ensures LateSound(ReceiverStep(s, e).value)
  {
  }

  lemma {:induction false} CloserKeepsLate(s: State, e: Event)
    requires Inv(s) && LateSound(s) && CloserStep(s, e).Some?
    ensures LateSound(CloserStep(s, e).value)
  {
  }

  lemma {:induction false} EveryRunKeepsLate(events: seq<Event>)
    requires Run(events).Some?
    ensures LateSound(Run(events).value)
    decreases |events|
  {
    if events != [] {
      var before, e := events[..|events| - 1], events[|events| - 1];
      EveryRunKeepsLate(before);
      EveryRunKeepsInv(before);
      var s := Run(before).value;
      if CallerStep(s, e).Some? {
        CallerKeepsLate(s, e);
      } else if ReceiverStep(s, e).Some? {
        ReceiverKeepsLate(s, e);
      } else {
        CloserKeepsLate(s, e);
      }
    }
  }

  /** After a teardown that no Close preceded, the stranded waiters are exactly those that registered during the drain. */
  lemma {:induction false} TearDownStrandsExactlyTheLateCalls(events: seq<Event>, c: CallId)
    requires Run(events).Some?
    requires var s := Run(events).value;
             s.receiver == Exited && s.closer == NotClosing && c in s.calls && s.calls[c].phase == Waiting
    ensures var s := Run(events).value; s.calls[c].completions == 0 <==> c in s.late
  {
    EveryRunKeepsInv(events);
    EveryRunKeepsLate(events);
    assert CallSound(Run(events).value, c);
  }

  lemma {:induction false} RunSnoc(events: seq<Event>, e: Event, s: State)
    requires Run(events) == Some(s)
    ensures Run(events + [e]) == Next(s, e)
  {
    assert (events + [e])[..|events|] == events;
  }

  const DRAINED := INITIAL.(receiver := Draining({}))

  /** The table with the one call 0, sent under tag 1, after the drain. */
  function Late(phase: Phase): State {
    DRAINED.(last := 1, issued := map[1 := 0],
             late := if phase == Allocated then {} else {0},
             pending := if phase == Allocated then map[] else map[1 := 0],
             calls := map[0 := Call(1, true, phase, Open, 0)])
  }

  lemma {:induction false} FailingRun() returns (events: seq<Event>)
    ensures Run(events) == Some(DRAINED)
  {
    assert Values(map[]) == {};
    RunSnoc([], ReadError, INITIAL);
    events := [] + [ReadError];
    RunSnoc(events, ReadError, INITIAL.(receiver := Reading(1)));
    events := events + [ReadError];
    RunSnoc(events, ReadError, INITIAL.(receiver := Reading(2)));
    events := events + [ReadError];
    RunSnoc(events, Drain, INITIAL.(receiver := Failing));
    events := events + [Drain];
  }

  lemma {:induction false} LateSteps()
    ensures Next(DRAINED, Invoke(0, true)) == Some(Late(Allocated))
    ensures Next(Late(Allocated), Register(0)) == Some(Late(Registered))
    ensures Next(Late(Registered), Send(0, true)) == Some(Late(Waiting))
    ensures Next(Late(Waiting), TearDown) == Some(Late(Waiting).(closed := true, receiver := Exited))
  {
    assert {} + {0} == {0};
    assert CallerStep(Late(Allocated), Register(0)).value.calls == Late(Registered).calls;
    assert CallerStep(Late(Registered), Send(0, true)).value.calls == Late(Waiting).calls;
  }

  /**
   * A call sent between the failing receive loop's drain and its closed.Store is left in the table:
   * nothing will complete its future, and Close returns at once without draining.
   */
  lemma {:induction false} TearDownCanStrandAWaiter() returns (events: seq<Event>)
    ensures Run(events).Some?
    ensures var s := Run(events).value;
            && s.receiver == Exited && s.closed && s.closer == NotClosing
            && 0 in s.calls && s.calls[0].phase == Waiting && s.calls[0].completions == 0
            && Next(s, CloseCall) == Some(s)
  {
    events := FailingRun();
    LateSteps();
    RunSnoc(events, Invoke(0, true), DRAINED);
    events := events + [Invoke(0, true)];
    RunSnoc(events, Register(0), Late(Allocated));
    events := events + [Register(0)];
    RunSnoc(events, Send(0, true), Late(Registered));
    events := events + [Send(0, true)];
    RunSnoc(events, TearDown, Late(Waiting));
    events := events + [TearDown];
  }

  // ---- A nil reply hides a remote error ----

  /** The state with the one call 0, which wants no reply. */
  function NoReplyWanted(phase: Phase, result: Result): State {
    INITIAL.(last := 1, issued := map[1 := 0],
             calls := map[0 := Call(1, false, phase, result, if result == Open then 0 else 1)],
             pending := if phase.Allocated? || result != Open then map[] else map[1 := 0])
  }

  lemma {:induction false} NoReplySteps(r: Response)
    requires r.tag == 1
    ensures var open, answered := Open, Answered(r, None);
            && Next(INITIAL, Invoke(0, false)) == Some(NoReplyWanted(Allocated, open))
            && Next(NoReplyWanted(Allocated, open), Register(0)) == Some(NoReplyWanted(Registered, open))
            && Next(NoReplyWanted(Registered, open), Send(0, true)) == Some(NoReplyWanted(Waiting, open))
            && Next(NoReplyWanted(Waiting, open), Receive(r)) == Some(NoReplyWanted(Waiting, answered))
            && Next(NoReplyWanted(Waiting, answered), Observe(0))
               == Some(NoReplyWanted(Returned(Completed(None)), answered))
  {
    var s := NoReplyWanted(Waiting, Open);
    assert s.pending - {1} == map[];
    forall phase: Phase, next: Phase, result: Result, later: Result
      ensures NoReplyWanted(phase, result).calls[0 := Call(1, false, next, later, if later == Open then 0 else 1)]
           == NoReplyWanted(next, later).calls
    {
    }
    assert map[][1 := 0] == map[1 := 0];
  }

  /** A run in which the server answers with an error and the call returns as if it had succeeded. */
  lemma {:induction false} NilReplyHidesARemoteError(message: string) returns (events: seq<Event>)
    requires message != ""
    ensures Run(events).Some?
    ensures var s := Run(events).value;
            && 0 in s.calls && s.calls[0].result == Answered(Response(1, message, NoReply), None)
            && s.calls[0].phase == Returned(Completed(None))
  {
    var r := Response(1, message, NoReply);
    NoReplySteps(r);
    events := [];
    RunSnoc(events, Invoke(0, false), INITIAL);
    events := events + [Invoke(0, false)];
    RunSnoc(events, Register(0), NoReplyWanted(Allocated, Open));
    events := events + [Register(0)];
    RunSnoc(events, Send(0, true), NoReplyWanted(Registered, Open));
    events := events + [Send(0, true)];
    RunSnoc(events, Receive(r), NoReplyWanted(Waiting, Open));
    events := events + [Receive(r)];
    RunSnoc(events, Observe(0), NoReplyWanted(Waiting, Answered(r, None)));
    events := events + [Observe(0)];
  }
}
