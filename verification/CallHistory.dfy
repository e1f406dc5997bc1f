/**
 * What a caller of the multiplexing RPC client is told, read off from what happened: each result, each way of
 * ending, each sequence number and the receive loop's end, in every run of `SingleClient`.
 */
module CallHistory {
  import opened Prelude
  import opened SingleClient

  // ---- Single steps ----

  lemma {:induction false} HeldStep(s: State, e: Event, c: CallId)
    requires Inv(s) && Next(s, e).Some? && (e == DrainOne(c) || e == ReleaseOne(c))
    ensures c in s.calls && s.calls[c].completions == 0 && s.calls[c].result == Open
  {
    assert c in Held(s);
    assert CallSound(s, c);
  }

  predicate Answers(s: State, e: Event, c: CallId) {
    e.Receive? && e.response.tag in s.pending && s.pending[e.response.tag] == c
  }

  lemma {:induction false} CallerResult(s: State, e: Event, c: CallId)
    requires CallerStep(s, e).Some? && c in CallerStep(s, e).value.calls
    ensures CallerStep(s, e).value.calls[c].result == if c in s.calls then s.calls[c].result else Open
    ensures !e.Receive? && !e.DrainOne? && !e.ReleaseOne?
  {
  }

  lemma {:induction false} ReceiverResult(s: State, e: Event, c: CallId)
    requires Inv(s) && ReceiverStep(s, e).Some? && c in s.calls
    ensures var result := ReceiverStep(s, e).value.calls[c].result;
            if e == DrainOne(c) then result == Failed(ConnectionError)
            else if Answers(s, e, c) then result.Answered? && result.response == e.response
            else result == s.calls[c].result
    ensures ReceiverStep(s, e).value.calls.Keys == s.calls.Keys && !e.ReleaseOne?
  {
  }

  lemma {:induction false} CloserResult(s: State, e: Event, c: CallId)
    requires Inv(s) && CloserStep(s, e).Some? && c in s.calls
    ensures CloserStep(s, e).value.calls[c].result ==
            if e == ReleaseOne(c) then Failed(ClientClosed) else s.calls[c].result
    ensures CloserStep(s, e).value.calls.Keys == s.calls.Keys && !e.DrainOne? && !e.Receive?
  {
  }

  /** How one step changes a result: a drain, Close, or the response under the call's own tag, and nothing else. */
  lemma {:induction false} StepResult(s: State, e: Event, c: CallId)
    requires Inv(s) && Next(s, e).Some? && c in s.calls
    ensures c in Next(s, e).value.calls
    ensures var result := Next(s, e).value.calls[c].result;
            if e == DrainOne(c) then result == Failed(ConnectionError)
            else if e == ReleaseOne(c) then result == Failed(ClientClosed)
            else if Answers(s, e, c) then result.Answered? && result.response == e.response
            else result == s.calls[c].result
  {
    if CallerStep(s, e).Some? {
      CallerResult(s, e, c);
    } else if ReceiverStep(s, e).Some? {
      ReceiverResult(s, e, c);
    } else {
      CloserResult(s, e, c);
    }
  }

  /** A completing step finds the future open. */
  lemma {:induction false} CompletesOnce(s: State, e: Event, c: CallId)
    requires Inv(s) && Next(s, e).Some?
    requires e == DrainOne(c) || e == ReleaseOne(c) || Answers(s, e, c)
    ensures c in s.calls && s.calls[c].result == Open
  {
    if !Answers(s, e, c) {
      HeldStep(s, e, c);
    } else {
      assert CallSound(s, c);
    }
  }

  /** A call appears by its own Invoke, with its future open. */
  lemma {:induction false} NewCall(s: State, e: Event, c: CallId)
    requires Next(s, e).Some? && c !in s.calls && c in Next(s, e).value.calls
    ensures e.Invoke? && e.c == c
    ensures Next(s, e).value.calls[c] == Call(s.last + 1, e.wantsReply, Allocated, Open, 0)
  {
  }

  // ---- Results ----

  lemma {:induction false} InSnoc(events: seq<Event>, x: Event)
    requires events != []
    ensures x in events <==> x in events[..|events| - 1] || x == events[|events| - 1]
  {
    assert events == events[..|events| - 1] + [events[|events| - 1]];
  }

  lemma {:induction false} RunBefore(events: seq<Event>) returns (before: seq<Event>, s: State, e: Event)
    requires events != [] && Run(events).Some?
    ensures before == events[..|events| - 1] && e == events[|events| - 1]
    ensures Run(before) == Some(s) && Inv(s) && Next(s, e) == Run(events)
  {
    before, e := events[..|events| - 1], events[|events| - 1];
    s := Run(before).value;
    EveryRunKeepsInv(before);
  }

  /** The response that arrived while the call was in the table under the response's tag. */
  function AnswerOf(events: seq<Event>, c: CallId): Option<Response> {
    if events == [] then None
    else
      var before, e := events[..|events| - 1], events[|events| - 1];
      if Run(before).Some? && Answers(Run(before).value, e, c) then Some(e.response) else AnswerOf(before, c)
  }

  ghost predicate ResultIsHistory(events: seq<Event>, c: CallId, result: Result) {
    && (result == Failed(ConnectionError) <==> DrainOne(c) in events)
    && (result == Failed(ClientClosed) <==> ReleaseOne(c) in events)
    && (result.Answered? <==> AnswerOf(events, c).Some?)
    && (result.Answered? ==> AnswerOf(events, c) == Some(result.response))
    && (result.Failed? ==> result.reason == ConnectionError || result.reason == ClientClosed)
  }

  /** Nothing completes a call before it is made. */
  lemma {:induction false} NoResultBefore(events: seq<Event>, c: CallId)
    requires Run(events).Some? && c !in Run(events).value.calls
    ensures ResultIsHistory(events, c, Open)
    decreases |events|
  {
    if events != [] {
      var before, s, e := RunBefore(events);
      InSnoc(events, DrainOne(c));
      InSnoc(events, ReleaseOne(c));
      if c in s.calls {
        StepResult(s, e, c);
      } else {
        NoResultBefore(before, c);
        if e == DrainOne(c) || e == ReleaseOne(c) || Answers(s, e, c) {
          CompletesOnce(s, e, c);
        }
      }
    }
  }

  /**
   * In every run a future was failed with a connection error exactly if the receive loop's drain completed it, with
   * "client closed" exactly if Close did, and answered exactly by the response that arrived under its tag while it
   * was in the table.
   */
  lemma {:induction false} ResultsComeFromEvents(events: seq<Event>, c: CallId)
    requires Run(events).Some? && c in Run(events).value.calls
    ensures ResultIsHistory(events, c, Run(events).value.calls[c].result)
    decreases |events|
  {
    if events != [] {
      var before, s, e := RunBefore(events);
      InSnoc(events, DrainOne(c));
      InSnoc(events, ReleaseOne(c));
      if c in s.calls {
        ResultsComeFromEvents(before, c);
        StepResult(s, e, c);
        if e == DrainOne(c) || e == ReleaseOne(c) || Answers(s, e, c) {
          CompletesOnce(s, e, c);
        }
      } else {
        NoResultBefore(before, c);
        NewCall(s, e, c);
        assert !Answers(s, e, c);
      }
    }
  }

  /** What a response tells: its error, or whether its reply could be stored; nothing to one who wants no reply. */
  ghost predicate Tells(wantsReply: bool, r: Response, error: Option<Error>) {
    && (!wantsReply ==> error == None)
    && (wantsReply && r.error != "" ==> error == Some(Remote(r.error)))
    && (wantsReply && r.error == "" ==> (error == Some(BadReply) <==> r.reply.Unstorable?))
    && (wantsReply && r.error == "" ==> (error == None <==> !r.reply.Unstorable?))
  }

  /** What InvokeCtx returns once its future is completed, in every run. */
  lemma {:induction false} CallerIsToldExactly(events: seq<Event>, c: CallId)
    requires Run(events).Some? && c in Run(events).value.calls
    requires var phase := Run(events).value.calls[c].phase; phase.Returned? && phase.outcome.Completed?
    ensures var call := Run(events).value.calls[c];
            var error := call.phase.outcome.error;
            && (error == Some(ConnectionError) <==> DrainOne(c) in events)
            && (error == Some(ClientClosed) <==> ReleaseOne(c) in events)
            && (DrainOne(c) in events || ReleaseOne(c) in events || AnswerOf(events, c).Some?)
            && (AnswerOf(events, c).Some? ==> Tells(call.wantsReply, AnswerOf(events, c).value, error))
  {
    EveryRunKeepsInv(events);
    ResultsComeFromEvents(events, c);
    assert CallSound(Run(events).value, c);
  }

  // ---- How a call ends ----

  /** The call came to send, with this fate of the write, while the client was closed or not. */
  function Sent(events: seq<Event>, c: CallId, written: bool, closed: bool): bool {
    events != [] &&
    var before, e := events[..|events| - 1], events[|events| - 1];
    || (Run(before).Some? && e == Send(c, written) && Run(before).value.closed == closed)
    || Sent(before, c, written, closed)
  }

  /** The call has decided for this outcome. */
  predicate Decided(phase: Phase, why: Outcome) {
    (phase.Cleaning? && phase.why == why) || (phase.Returned? && phase.outcome == why)
  }

  ghost predicate GaveUpIsHistory(events: seq<Event>, c: CallId, phase: Phase) {
    && (Decided(phase, MarshalFailed) <==> MarshalFails(c) in events)
    && (Decided(phase, TimedOut) <==> Abandon(c, TimedOut) in events)
    && (Decided(phase, Cancelled) <==> Abandon(c, Cancelled) in events)
    && (Decided(phase, ConnectionGone) <==> Abandon(c, ConnectionGone) in events)
  }

  ghost predicate EndIsHistory(events: seq<Event>, c: CallId, phase: Phase) {
    && GaveUpIsHistory(events, c, phase)
    && (phase.Returned? && phase.outcome.Completed? <==> Observe(c) in events)
    && (Decided(phase, ClosedAtSend) <==> Sent(events, c, true, true) || Sent(events, c, false, true))
    && (Decided(phase, WriteFailed) <==> Sent(events, c, false, false))
  }

  /** This event is the caller's own. */
  predicate OwnStep(e: Event, c: CallId) {
    match e
    case Register(d) => c == d
    case MarshalFails(d) => c == d
    case Send(d, _) => c == d
    case Observe(d) => c == d
    case Abandon(d, _) => c == d
    case Clean(d) => c == d
    case _ => false
  }

  lemma {:induction false} OwnPhase(s: State, e: Event, c: CallId)
    requires Next(s, e).Some? && OwnStep(e, c)
    ensures c in s.calls && c in Next(s, e).value.calls
    ensures var was, now := s.calls[c].phase, Next(s, e).value.calls[c].phase;
            match e
            case Register(_) => was == Allocated && now == Registered
            case MarshalFails(_) => was == Registered && now == Cleaning(MarshalFailed)
            case Send(_, written) =>
              was == Registered &&
              now == (if s.closed then Returned(ClosedAtSend) else if written then Waiting else Returned(WriteFailed))
            case Observe(_) => was == Waiting && now.Returned? && now.outcome.Completed?
            case Abandon(_, why) => was == Waiting && now == Cleaning(why) && why in {TimedOut, Cancelled, ConnectionGone}
            case Clean(_) => was.Cleaning? && now == Returned(was.why)
            case _ => true
  {
  }

  lemma {:induction false} OthersPhase(s: State, e: Event, c: CallId)
    requires Next(s, e).Some? && !OwnStep(e, c) && c in s.calls
    ensures c in Next(s, e).value.calls && Next(s, e).value.calls[c].phase == s.calls[c].phase
  {
  }

  /** The events that matter to a call's end, with one more. */
  lemma {:induction false} EndSnoc(events: seq<Event>, c: CallId, why: Outcome)
    requires events != []
    ensures var before, e := events[..|events| - 1], events[|events| - 1];
            && (Abandon(c, why) in events <==> Abandon(c, why) in before || e == Abandon(c, why))
            && (MarshalFails(c) in events <==> MarshalFails(c) in before || e == MarshalFails(c))
            && (Observe(c) in events <==> Observe(c) in before || e == Observe(c))
  {
    InSnoc(events, Abandon(c, why));
    InSnoc(events, MarshalFails(c));
    InSnoc(events, Observe(c));
  }

  lemma {:induction false} NoEndBefore(events: seq<Event>, c: CallId)
    requires Run(events).Some? && c !in Run(events).value.calls
    ensures EndIsHistory(events, c, Allocated)
    decreases |events|
  {
    if events != [] {
      var before, s, e := RunBefore(events);
      EndSnoc(events, c, TimedOut);
      EndSnoc(events, c, Cancelled);
      EndSnoc(events, c, ConnectionGone);
      if OwnStep(e, c) {
        OwnPhase(s, e, c);
      } else if c in s.calls {
        OthersPhase(s, e, c);
      } else {
        NoEndBefore(before, c);
      }
    }
  }

  lemma {:induction false} EndStep(events: seq<Event>, before: seq<Event>, s: State, e: Event, c: CallId)
    requires events != [] && before == events[..|events| - 1] && e == events[|events| - 1]
    requires Run(before) == Some(s) && Inv(s) && Next(s, e).Some? && Next(s, e) == Run(events)
    requires c in s.calls && EndIsHistory(before, c, s.calls[c].phase)
    ensures c in Next(s, e).value.calls && EndIsHistory(events, c, Next(s, e).value.calls[c].phase)
  {
    EndSnoc(events, c, TimedOut);
    EndSnoc(events, c, Cancelled);
    EndSnoc(events, c, ConnectionGone);
    assert CallSound(s, c);
    if OwnStep(e, c) {
      OwnPhase(s, e, c);
    } else {
      OthersPhase(s, e, c);
    }
  }

  /**
   * In every run a call ends by a completed future exactly if it observed one, by a timeout, a cancellation or the
   * client's end exactly if it gave up for that reason, by a marshalling error exactly if there was one, by "client
   * closed" exactly if the client was closed when it came to send, and by a write error exactly if the write failed
   * on an open client.
   */
  lemma {:induction false} CallsEndExactly(events: seq<Event>, c: CallId)
    requires Run(events).Some? && c in Run(events).value.calls
    ensures EndIsHistory(events, c, Run(events).value.calls[c].phase)
    decreases |events|
  {
    if events != [] {
      var before, s, e := RunBefore(events);
      if c in s.calls {
        CallsEndExactly(before, c);
        EndStep(events, before, s, e, c);
      } else {
        NoEndBefore(before, c);
        NewCall(s, e, c);
        EndSnoc(events, c, TimedOut);
        EndSnoc(events, c, Cancelled);
        EndSnoc(events, c, ConnectionGone);
      }
    }
  }

  // ---- Nobody is stuck ----

  lemma {:induction false} StepFlags(s: State, e: Event)
    requires Next(s, e).Some?
    ensures Next(s, e).value.cancelled <==> s.cancelled || e == CancelContext
    ensures Next(s, e).value.closed <==> s.closed || e == CloseCall || e == TearDown
  {
  }

  /** The client is cancelled by Close's cancel only, and closed by a Close or the receive loop's teardown only. */
  lemma {:induction false} FlagsComeFromEvents(events: seq<Event>)
    requires Run(events).Some?
    ensures Run(events).value.cancelled <==> CancelContext in events
    ensures Run(events).value.closed <==> CloseCall in events || TearDown in events
    decreases |events|
  {
    if events != [] {
      var before, s, e := RunBefore(events);
      FlagsComeFromEvents(before);
      StepFlags(s, e);
      InSnoc(events, CancelContext);
      InSnoc(events, CloseCall);
      InSnoc(events, TearDown);
    }
  }

  /** Every call has a step of its own until it returns, and a waiting one can give up at any time. */
  lemma {:induction false} EveryCallCanGoOn(events: seq<Event>, c: CallId)
    requires Run(events).Some?
    ensures var s := Run(events).value;
            if c !in s.calls then forall wants :: Next(s, Invoke(c, wants)).Some?
            else match s.calls[c].phase
                 case Allocated => Next(s, Register(c)).Some?
                 case Registered =>
                   Next(s, MarshalFails(c)).Some? && Next(s, Send(c, true)).Some? && Next(s, Send(c, false)).Some?
                 case Waiting =>
                   && Next(s, Abandon(c, TimedOut)).Some? && Next(s, Abandon(c, Cancelled)).Some?
                   && (Next(s, Abandon(c, ConnectionGone)).Some? <==> CancelContext in events)
                   && (Next(s, Observe(c)).Some? <==> s.calls[c].completions == 1)
                 case Cleaning(_) => Next(s, Clean(c)).Some?
                 case Returned(_) => true
  {
    EveryRunKeepsInv(events);
    FlagsComeFromEvents(events);
    if c in Run(events).value.calls {
      assert CallSound(Run(events).value, c);
    }
  }

  /** The receive loop takes whatever is read, and once failing works its drain off and ends. */
  lemma {:induction false} ReceiverCanGoOn(events: seq<Event>, r: Response, c: CallId)
    requires Run(events).Some?
    ensures var s := Run(events).value;
            match s.receiver
            case Reading(_) =>
              && Next(s, Receive(r)).Some? && Next(s, ReceiveGarbage).Some? && Next(s, ReadError).Some?
              && (Next(s, ReceiverStops).Some? <==> CancelContext in events)
            case Failing => Next(s, Drain).Some?
            case Draining(left) =>
              && (Next(s, DrainOne(c)).Some? <==> c in left) && (Next(s, TearDown).Some? <==> left == {})
            case Exited => Next(s, Receive(r)) == None && Next(s, ReadError) == None
  {
    EveryRunKeepsInv(events);
    FlagsComeFromEvents(events);
    var s := Run(events).value;
    assert s.receiver.Draining? && c in s.receiver.left ==> c in Held(s);
  }

  /** Close goes on by itself but for waiting for the receive loop's end; a second Close changes nothing. */
  lemma {:induction false} CloseCanGoOn(events: seq<Event>, c: CallId)
    requires Run(events).Some?
    ensures var s := Run(events).value;
            && Next(s, CloseCall).Some? && (s.closed ==> Next(s, CloseCall) == Some(s))
            && match s.closer
               case NotClosing => !s.closed ==> Next(s, CloseCall).value.closer == Cancelling
               case Cancelling => Next(s, CancelContext).Some?
               case Joining => Next(s, Release).Some? <==> s.receiver == Exited
               case Releasing(left) =>
                 && (Next(s, ReleaseOne(c)).Some? <==> c in left) && (Next(s, CloseReturns).Some? <==> left == {})
               case Done => true
  {
    EveryRunKeepsInv(events);
    var s := Run(events).value;
    assert s.closer.Releasing? && c in s.closer.left ==> c in Held(s);
  }

  // ---- Sequence numbers ----

  predicate TakesNumber(e: Event) {
    e.Invoke? || e.NotifyTag?
  }

  /** How many sequence numbers were taken: one by each call and one by each notification. */
  function Taken(events: seq<Event>): nat {
    if events == [] then 0
    else Taken(events[..|events| - 1]) + if TakesNumber(events[|events| - 1]) then 1 else 0
  }

  lemma {:induction false} StepNumbers(s: State, e: Event)
    requires Next(s, e).Some?
    ensures Next(s, e).value.last == s.last + if TakesNumber(e) then 1 else 0
  {
  }

  lemma {:induction false} NumbersAreCounted(events: seq<Event>)
    requires Run(events).Some?
    ensures Run(events).value.last == Taken(events)
    decreases |events|
  {
    if events != [] {
      var before, s, e := RunBefore(events);
      NumbersAreCounted(before);
      StepNumbers(s, e);
    }
  }

  lemma {:induction false} StepKeepsNumber(s: State, e: Event, c: CallId)
    requires Next(s, e).Some? && c in s.calls
    ensures c in Next(s, e).value.calls
    ensures Next(s, e).value.calls[c].tag == s.calls[c].tag
    ensures Next(s, e).value.calls[c].wantsReply == s.calls[c].wantsReply
  {
  }

  /** A call's sequence number is its place among the calls and notifications, and stays so. */
  lemma {:induction false} NumberIsPlaceInOrder(events: seq<Event>, c: CallId, wantsReply: bool, more: seq<Event>)
    requires Run(events + [Invoke(c, wantsReply)] + more).Some?
    ensures var t := Run(events + [Invoke(c, wantsReply)] + more).value;
            c in t.calls && t.calls[c].tag == Taken(events) + 1 && t.calls[c].wantsReply == wantsReply
    decreases |more|
  {
    var called := events + [Invoke(c, wantsReply)];
    var all := called + more;
    var before, s, e := RunBefore(all);
    if more == [] {
      assert before == events;
      NumbersAreCounted(events);
      NewCall(s, e, c);
    } else {
      assert before == called + more[..|more| - 1];
      NumberIsPlaceInOrder(events, c, wantsReply, more[..|more| - 1]);
      StepKeepsNumber(s, e, c);
    }
  }

  // ---- When the receive loop ends ----

  /** Read errors since the last packet. */
  function ErrorsSincePacket(events: seq<Event>): nat {
    if events == [] then 0
    else
      match events[|events| - 1]
      case Receive(_) => 0
      case ReceiveGarbage => 0
      case ReadError => ErrorsSincePacket(events[..|events| - 1]) + 1
      case _ => ErrorsSincePacket(events[..|events| - 1])
  }

  /** A receive loop that reads, or that is giving up without a Close, has counted its errors right. */
  predicate CountsErrors(receiver: Receiver, errors: nat, closing: bool) {
    match receiver
    case Reading(n) => n == errors < 3
    case Failing => errors == 3
    case Draining(_) => errors == 3
    case Exited => closing || errors == 3
  }

  lemma {:induction false} StepCountsErrors(s: State, e: Event, errors: nat, closing: bool)
    requires Next(s, e).Some? && CountsErrors(s.receiver, errors, closing)
    requires s.closed && !s.receiver.Exited? ==> closing
    requires s.cancelled ==> closing
    ensures var now := match e case Receive(_) => 0 case ReceiveGarbage => 0 case ReadError => errors + 1 case _ => errors;
            CountsErrors(Next(s, e).value.receiver, now, closing || e == CloseCall)
  {
  }

  lemma {:induction false} ClosingNeedsClose(events: seq<Event>)
    requires Run(events).Some?
    ensures var s := Run(events).value;
            (s.closer != NotClosing || s.cancelled || (s.closed && !s.receiver.Exited?)) ==> CloseCall in events
    decreases |events|
  {
    if events != [] {
      var before, s, e := RunBefore(events);
      ClosingNeedsClose(before);
      InSnoc(events, CloseCall);
      if e != CloseCall {
        StepClosing(s, e);
      }
    }
  }

  lemma {:induction false} StepClosing(s: State, e: Event)
    requires Next(s, e).Some? && e != CloseCall
    ensures var t := Next(s, e).value;
            (t.closer != NotClosing || t.cancelled || (t.closed && !t.receiver.Exited?)) ==>
            (s.closer != NotClosing || s.cancelled || (s.closed && !s.receiver.Exited?))
  {
  }

  /** The receive loop reads on until the third error in a row and gives up then; it ends otherwise only by a Close. */
  lemma {:induction false} GivesUpAtTheThirdError(events: seq<Event>)
    requires Run(events).Some?
    ensures CountsErrors(Run(events).value.receiver, ErrorsSincePacket(events), CloseCall in events)
    decreases |events|
  {
    if events != [] {
      var before, s, e := RunBefore(events);
      GivesUpAtTheThirdError(before);
      ClosingNeedsClose(before);
      InSnoc(events, CloseCall);
      StepCountsErrors(s, e, ErrorsSincePacket(before), CloseCall in before);
    }
  }
}
