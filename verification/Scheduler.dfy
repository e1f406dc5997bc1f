/** The priority scheduler of scheduler/scheduler.go: any number of workers, adders and a Stop, at their lock regions. */
module Scheduler {
  import opened Prelude
  import opened TaskHeap

  type WorkerId = nat

  /** Ready: about to take the lock. Draining: emptying the queue after Stop, with the lock held. */
  datatype Phase = Ready | Sleeping | Processing(task: Task) | Draining | Exited

  /**
   * A task taken off the queue: when its expiry was checked, whether it was handed to processTask
   * (or thrown away), and what was queued just before.
   */
  datatype Record = Record(task: Task, at: int, processed: bool, queue: seq<Task>)

  datatype State = State(
    queue: seq<Task>,
    closed: bool,
    workers: map<WorkerId, Phase>,
    signalled: set<WorkerId>,     // the sleeping workers that the condition variable has woken
    holder: Option<WorkerId>,     // the draining worker keeps the lock over many steps
    added: multiset<Task>,        // history: all tasks ever added
    lateAdds: nat,                // history: tasks added after Stop
    log: seq<Record>)             // history: all tasks taken off the queue

  const INITIAL := State([], false, map[], {}, None, multiset{}, 0, [])

  /** Five minutes, in nanoseconds. */
  const DEFAULT_LIFE := 300_000_000_000

  datatype Event =
    | Start(w: WorkerId)
    | Add(task: Task, hasExpiry: bool, now: int, woken: WorkerId)
    | Turn(w: WorkerId, now: int)
    | Finish(w: WorkerId)
    | DrainOne(w: WorkerId, now: int)
    | Leave(w: WorkerId)
    | Stop

  /** Add gives a task without an expiry five minutes. */
  function Stamped(task: Task, hasExpiry: bool, now: int): Task {
    if hasExpiry then task else task.(expires := now + DEFAULT_LIFE)
  }

  function Enqueue(s: State, t: Task): State {
    s.(queue := Push(s.queue, t), added := s.added + multiset{t},
       lateAdds := if s.closed then s.lateAdds + 1 else s.lateAdds)
  }

  function Dequeue(s: State, now: int, processed: bool): State
    requires s.queue != []
  {
    var p := Pop(s.queue);
    s.(queue := p.rest, log := s.log + [Record(p.task, now, processed, s.queue)])
  }

  function Go(s: State, w: WorkerId, phase: Phase): State {
    s.(workers := s.workers[w := phase], signalled := s.signalled - {w})
  }

  /** The workers asleep that nobody has woken yet. */
  function Asleep(s: State): set<WorkerId> {
    set w | w in s.workers && s.workers[w] == Sleeping && w !in s.signalled
  }

  /** Signal wakes one of the workers asleep, if there is any; sync.Cond wakes nobody by itself. */
  function Signal(s: State, woken: WorkerId): State {
    if Asleep(s) == {} then s else s.(signalled := s.signalled + {woken})
  }

  function Next(s: State, e: Event): Option<State> {
    match e
    case Start(w) => if w in s.workers then None else Some(Go(s, w, Ready))
    case Add(task, hasExpiry, now, woken) =>
      if s.holder != None || (Asleep(s) != {} && woken !in Asleep(s)) then None
      else Some(Signal(Enqueue(s, Stamped(task, hasExpiry, now)), woken))
    case Turn(w, now) =>
      if s.holder != None || w !in s.workers || (s.workers[w] != Ready && w !in s.signalled) then None
      else if s.closed then Some(Go(s, w, Draining).(holder := Some(w)))
      else if s.queue == [] then Some(Go(s, w, Sleeping))
      else if now > s.queue[0].expires then Some(Go(Dequeue(s, now, false), w, Ready))
      else Some(Go(Dequeue(s, now, true), w, Processing(s.queue[0])))
    case Finish(w) => if w in s.workers && s.workers[w].Processing? then Some(Go(s, w, Ready)) else None
    case DrainOne(w, now) =>
      if s.holder == Some(w) && s.queue != [] then Some(Dequeue(s, now, !(now > s.queue[0].expires))) else None
    case Leave(w) =>
      if s.holder == Some(w) && s.queue == [] then Some(Go(s, w, Exited).(holder := None)) else None
    case Stop =>
      if s.holder != None then None else Some(s.(closed := true, signalled := s.signalled + Asleep(s)))
  }

  function Run(events: seq<Event>): Option<State> {
    if events == [] then Some(INITIAL)
    else
      match Run(events[..|events| - 1])
      case None => None
      case Some(s) => Next(s, events[|events| - 1])
  }

  function Taken(log: seq<Record>): multiset<Task> {
    if log == [] then multiset{} else Taken(log[..|log| - 1]) + multiset{log[|log| - 1].task}
  }

  /** No queued task had a higher priority, and the task was processed exactly if it had not expired. */
  ghost predicate Fair(r: Record) {
    && (r.processed <==> r.at <= r.task.expires)
    && r.task in r.queue
    && forall k :: 0 <= k < |r.queue| ==> r.queue[k].priority <= r.task.priority
  }

  ghost predicate Inv(s: State) {
    && IsHeap(s.queue)
    && s.added == multiset(s.queue) + Taken(s.log)
    && (forall i :: 0 <= i < |s.log| ==> Fair(s.log[i]))
    && (forall w :: w in s.workers && s.workers[w].Processing? ==>
          s.workers[w].task in Taken(s.log))
    && (forall w :: w in s.workers && s.workers[w].Exited? ==> s.closed && (s.lateAdds == 0 ==> s.queue == []))
    && (s.holder.Some? ==> s.closed)
    && (!s.closed ==> s.lateAdds == 0)
  }

  /** Taking the root off any heap, whatever order the rest is left in. */
  lemma {:induction false} RecordKeepsInv(s: State, p: Popped, now: int, processed: bool)
    requires Inv(s) && s.queue != [] && (processed <==> now <= p.task.expires)
    requires p.task == s.queue[0] && IsHeap(p.rest) && multiset(s.queue) == multiset(p.rest) + multiset{p.task}
    ensures var t := s.(queue := p.rest, log := s.log + [Record(p.task, now, processed, s.queue)]);
            Inv(t) && p.task in Taken(t.log)
  {
    var r := Record(p.task, now, processed, s.queue);
    RootIsFair(r);
    MoveToTaken(s.added, multiset(s.queue), multiset(p.rest), s.log, r);
  }

  /** Conservation when one task goes from the queue to the log. */
  lemma {:induction false} MoveToTaken(
      added: multiset<Task>, queue: multiset<Task>, rest: multiset<Task>, log: seq<Record>, r: Record)
    requires added == queue + Taken(log) && queue == rest + multiset{r.task}
    ensures added == rest + Taken(log + [r]) && r.task in Taken(log + [r])
    ensures forall t :: t in Taken(log) ==> t in Taken(log + [r])
  {
    TakenSnoc(log, r);
  }

  /** The root of a heap may be taken next. */
  lemma {:induction false} RootIsFair(r: Record)
    requires IsHeap(r.queue) && r.queue != [] && r.task == r.queue[0] && (r.processed <==> r.at <= r.task.expires)
    ensures Fair(r)
  {
    forall k | 0 <= k < |r.queue| ensures r.queue[k].priority <= r.task.priority {
      RootIsMaximal(r.queue, k);
    }
  }

  lemma {:induction false} TakenSnoc(log: seq<Record>, r: Record)
    ensures Taken(log + [r]) == Taken(log) + multiset{r.task}
  {
    assert (log + [r])[..|log|] == log;
  }

  lemma {:induction false} DequeueKeepsInv(s: State, now: int, processed: bool)
    requires Inv(s) && s.queue != [] && (processed <==> now <= s.queue[0].expires)
    ensures Inv(Dequeue(s, now, processed))
    ensures s.queue[0] in Taken(Dequeue(s, now, processed).log)
  {
    RecordKeepsInv(s, Pop(s.queue), now, processed);
  }

  lemma {:induction false} EnqueueKeepsInv(s: State, t: Task)
    requires Inv(s)
    ensures Inv(Enqueue(s, t))
  {
    assert multiset(Push(s.queue, t)) == multiset(s.queue) + multiset{t};
  }

  lemma {:induction false} GoKeepsInv(s: State, w: WorkerId, phase: Phase, holder: Option<WorkerId>)
    requires Inv(s)
    requires phase.Processing? ==> phase.task in Taken(s.log)
    requires phase.Exited? ==> s.closed && s.queue == []
    requires holder.Some? ==> s.closed
    ensures Inv(Go(s, w, phase).(holder := holder))
  {
  }

  /** The worker goes on; the lock's holder stays as it is. */
  lemma {:induction false} GoOnKeepsInv(s: State, w: WorkerId, phase: Phase)
    requires Inv(s) && !phase.Exited? && (phase.Processing? ==> phase.task in Taken(s.log))
    ensures Inv(Go(s, w, phase))
  {
    GoKeepsInv(s, w, phase, s.holder);
  }

  lemma {:induction false} TakeKeepsInv(s: State, w: WorkerId, now: int, processed: bool)
    requires Inv(s) && s.queue != [] && (processed <==> now <= s.queue[0].expires)
    ensures Inv(Go(Dequeue(s, now, processed), w, if processed then Processing(s.queue[0]) else Ready))
  {
    DequeueKeepsInv(s, now, processed);
    GoOnKeepsInv(Dequeue(s, now, processed), w, if processed then Processing(s.queue[0]) else Ready);
  }

  lemma {:induction false} TurnKeepsInv(s: State, w: WorkerId, now: int)
    requires Inv(s) && Next(s, Turn(w, now)).Some?
    ensures Inv(Next(s, Turn(w, now)).value)
  {
    if s.closed {
      GoKeepsInv(s, w, Draining, Some(w));
    } else if s.queue == [] {
      GoOnKeepsInv(s, w, Sleeping);
    } else {
      TakeKeepsInv(s, w, now, !(now > s.queue[0].expires));
    }
  }

  lemma {:induction false} StartKeepsInv(s: State, w: WorkerId)
    requires Inv(s) && Next(s, Start(w)).Some?
    ensures Inv(Next(s, Start(w)).value)
  {
    GoKeepsInv(s, w, Ready, s.holder);
  }

  lemma {:induction false} AddKeepsInv(s: State, task: Task, hasExpiry: bool, now: int, woken: WorkerId)
    requires Inv(s) && Next(s, Add(task, hasExpiry, now, woken)).Some?
    ensures Inv(Next(s, Add(task, hasExpiry, now, woken)).value)
  {
    EnqueueKeepsInv(s, Stamped(task, hasExpiry, now));
  }

  lemma {:induction false} FinishKeepsInv(s: State, w: WorkerId)
    requires Inv(s) && Next(s, Finish(w)).Some?
    ensures Inv(Next(s, Finish(w)).value)
  {
    GoKeepsInv(s, w, Ready, s.holder);
  }

  lemma {:induction false} DrainOneKeepsInv(s: State, w: WorkerId, now: int)
    requires Inv(s) && Next(s, DrainOne(w, now)).Some?
    ensures Inv(Next(s, DrainOne(w, now)).value)
  {
    DequeueKeepsInv(s, now, now <= s.queue[0].expires);
  }

  lemma {:induction false} LeaveKeepsInv(s: State, w: WorkerId)
    requires Inv(s) && Next(s, Leave(w)).Some?
    ensures Inv(Next(s, Leave(w)).value)
  {
    GoKeepsInv(s, w, Exited, None);
  }

  lemma {:induction false} StepKeepsInv(s: State, e: Event)
    requires Inv(s) && Next(s, e).Some?
    ensures Inv(Next(s, e).value)
  {
    match e {
      case Start(w) => StartKeepsInv(s, w);
      case Add(task, hasExpiry, now, woken) => AddKeepsInv(s, task, hasExpiry, now, woken);
      case Turn(w, now) => TurnKeepsInv(s, w, now);
      case Finish(w) => FinishKeepsInv(s, w);
      case DrainOne(w, now) => DrainOneKeepsInv(s, w, now);
      case Leave(w) => LeaveKeepsInv(s, w);
      case Stop =>
    }
  }

  lemma {:induction false} EveryRunKeepsInv(events: seq<Event>)
    requires Run(events).Some?
    ensures Inv(Run(events).value)
    decreases |events|
  {
    if events != [] {
      EveryRunKeepsInv(events[..|events| - 1]);
      StepKeepsInv(Run(events[..|events| - 1]).value, events[|events| - 1]);
    }
  }

  // ---- What callers can rely on ----

  function Split(log: seq<Record>, processed: bool): multiset<Task> {
    if log == [] then multiset{}
    else Split(log[..|log| - 1], processed)
         + if log[|log| - 1].processed == processed then multiset{log[|log| - 1].task} else multiset{}
  }

  lemma {:induction false} TakenSplits(log: seq<Record>)
    ensures Taken(log) == Split(log, true) + Split(log, false)
    decreases |log|
  {
    if log != [] {
      TakenSplits(log[..|log| - 1]);
    }
  }

  /** No task is lost or duplicated: added = processed + discarded as expired + still queued. */
  lemma {:induction false} TasksAreConserved(events: seq<Event>)
    requires Run(events).Some?
    ensures var s := Run(events).value;
            s.added == Split(s.log, true) + Split(s.log, false) + multiset(s.queue)
  {
    EveryRunKeepsInv(events);
    TakenSplits(Run(events).value.log);
  }

  /** Every task ever taken had the highest priority then queued, and was processed exactly if unexpired when checked. */
  lemma {:induction false} TakenByPriority(events: seq<Event>, i: nat)
    requires Run(events).Some? && i < |Run(events).value.log|
    ensures var r := Run(events).value.log[i];
            && (r.processed <==> r.at <= r.task.expires)
            && r.task in r.queue
            && forall k :: 0 <= k < |r.queue| ==> r.queue[k].priority <= r.task.priority
  {
    EveryRunKeepsInv(events);
    assert Fair(Run(events).value.log[i]);
  }

  /** When Stop returns (all workers, at least one, have exited) nothing is left, unless tasks were added after it. */
  lemma {:induction false} StopLeavesNothingQueued(events: seq<Event>)
    requires Run(events).Some?
    requires var s := Run(events).value;
             && s.workers != map[] && s.lateAdds == 0
             && forall w :: w in s.workers ==> s.workers[w] == Exited
    ensures var s := Run(events).value;
            && s.queue == []
            && s.added == Split(s.log, true) + Split(s.log, false)
  {
    TasksAreConserved(events);
    EveryRunKeepsInv(events);
    var s := Run(events).value;
    var w :| w in s.workers.Keys;
    assert s.workers[w].Exited?;
    assert multiset(s.queue) == multiset{};
  }

  // ---- What the steps are, by what happened ----

  /** The task as Add queues it: its own expiry, or five minutes from now. */
  function Queued(e: Event): Task
    requires e.Add?
  {
    Task(e.task.id, e.task.uid, e.task.priority, if e.hasExpiry then e.task.expires else e.now + 300_000_000_000)
  }

  function Adds(events: seq<Event>): multiset<Task> {
    if events == [] then multiset{}
    else
      var before, e := Adds(events[..|events| - 1]), events[|events| - 1];
      if e.Add? then before + multiset{Queued(e)} else before
  }

  /** How many tasks were added after a Stop. */
  function LateAdds(events: seq<Event>): nat {
    if events == [] then 0
    else
      var before, e := events[..|events| - 1], events[|events| - 1];
      LateAdds(before) + if e.Add? && Stop in before then 1 else 0
  }

  lemma {:induction false} AddHistory(s: State, e: Event)
    requires e.Add? && Next(s, e).Some?
    ensures var t := Next(s, e).value;
            && t.closed == s.closed && t.added == s.added + multiset{Queued(e)}
            && t.lateAdds == s.lateAdds + if s.closed then 1 else 0
  {
    assert Stamped(e.task, e.hasExpiry, e.now) == Queued(e);
  }

  lemma {:induction false} OtherHistory(s: State, e: Event)
    requires !e.Add? && Next(s, e).Some?
    ensures var t := Next(s, e).value;
            (t.closed <==> s.closed || e == Stop) && t.added == s.added && t.lateAdds == s.lateAdds
  {
  }

  lemma {:induction false} StopSnoc(events: seq<Event>)
    requires events != []
    ensures Stop in events <==> Stop in events[..|events| - 1] || events[|events| - 1] == Stop
  {
    assert events == events[..|events| - 1] + [events[|events| - 1]];
  }

  /** The tasks added, the late ones among them and the closing are those of the calls made. */
  lemma {:induction false} HistoriesComeFromEvents(events: seq<Event>)
    requires Run(events).Some?
    ensures var s := Run(events).value;
            s.added == Adds(events) && s.lateAdds == LateAdds(events) && (s.closed <==> Stop in events)
    decreases |events|
  {
    if events != [] {
      HistoriesComeFromEvents(events[..|events| - 1]);
      var s, e := Run(events[..|events| - 1]).value, events[|events| - 1];
      if e.Add? {
        AddHistory(s, e);
      } else {
        OtherHistory(s, e);
      }
      StopSnoc(events);
    }
  }

  /**
   * A worker that is ready or woken and gets the lock: after a Stop it drains; on an empty queue it goes to sleep;
   * otherwise it takes a task of the highest priority, and processes it exactly if it has not expired.
   */
  lemma {:induction false} TurnDoesExactly(s: State, w: WorkerId, now: int)
    requires Inv(s)
    ensures Next(s, Turn(w, now)).Some? <==>
              s.holder == None && w in s.workers && (s.workers[w] == Ready || w in s.signalled)
    ensures Next(s, Turn(w, now)).Some? ==>
              var t := Next(s, Turn(w, now)).value;
              && w in t.workers && t.closed == s.closed && t.added == s.added
              && if s.closed then t.workers[w] == Draining && t.holder == Some(w) && t.queue == s.queue && t.log == s.log
                 else if s.queue == [] then
                   t.workers[w] == Sleeping && w !in t.signalled && t.queue == [] && t.log == s.log
                 else
                   && |t.log| == |s.log| + 1 && t.log[..|s.log|] == s.log
                   && var r := t.log[|s.log|];
                      && multiset(s.queue) == multiset(t.queue) + multiset{r.task} && r.at == now
                      && (forall k :: 0 <= k < |s.queue| ==> s.queue[k].priority <= r.task.priority)
                      && (r.processed <==> now <= r.task.expires)
                      && t.workers[w] == if r.processed then Processing(r.task) else Ready
  {
    if Next(s, Turn(w, now)).Some? && !s.closed && s.queue != [] {
      RootIsFair(Record(s.queue[0], now, now <= s.queue[0].expires, s.queue));
    }
  }

  // ---- No task lies queued while everybody sleeps ----

  /** The worker will go on by itself. */
  predicate Awake(s: State, w: WorkerId) {
    && w in s.workers
    && (s.workers[w] == Ready || s.workers[w].Processing? || s.workers[w] == Draining || w in s.signalled)
  }

  ghost predicate Wakeful(s: State) {
    && (forall w :: w in s.signalled ==> w in s.workers && s.workers[w] == Sleeping)
    && (forall w :: w in s.workers ==> (s.workers[w] == Draining <==> s.holder == Some(w)))
    && (s.holder.Some? ==> s.holder.value in s.workers)
    && (s.closed ==> Asleep(s) == {})
    && (s.queue != [] ==> forall w :: w in s.workers && s.workers[w] != Exited ==> SomebodyAwake(s))
  }

  ghost predicate SomebodyAwake(s: State) {
    exists w :: Awake(s, w)
  }

  lemma {:induction false} AddKeepsWakeful(s: State, task: Task, hasExpiry: bool, now: int, woken: WorkerId)
    requires Wakeful(s) && Next(s, Add(task, hasExpiry, now, woken)).Some?
    ensures Wakeful(Next(s, Add(task, hasExpiry, now, woken)).value)
  {
    var t := Next(s, Add(task, hasExpiry, now, woken)).value;
    if Asleep(s) != {} {
      assert woken in Asleep(s);
      assert Awake(t, woken);
    } else {
      forall w | w in t.workers && t.workers[w] != Exited ensures SomebodyAwake(t) {
        assert s.workers[w] == Sleeping ==> w in s.signalled by {
          assert s.workers[w] == Sleeping && w !in s.signalled ==> w in Asleep(s);
        }
        assert Awake(t, w);
      }
    }
    assert forall w :: w in Asleep(t) ==> w in Asleep(s);
  }

  /** A worker goes on to a phase; it may take or give up the lock, and take from the queue. */
  lemma {:induction false} GoKeepsWakeful(
      s: State, w: WorkerId, phase: Phase, holder: Option<WorkerId>, queue: seq<Task>, log: seq<Record>)
    requires Wakeful(s)
    requires holder == s.holder || (s.holder == None && holder == Some(w)) || (s.holder == Some(w) && holder == None)
    requires phase == Draining <==> holder == Some(w)
    requires phase == Sleeping ==> queue == [] && !s.closed
    requires phase == Exited ==> queue == []
    ensures Wakeful(Go(s, w, phase).(holder := holder, queue := queue, log := log))
  {
    var t := Go(s, w, phase).(holder := holder, queue := queue, log := log);
    if queue != [] {
      assert Awake(t, w);
    }
    assert forall v :: v in Asleep(t) && v != w ==> v in Asleep(s);
  }

  lemma {:induction false} TurnKeepsWakeful(s: State, w: WorkerId, now: int)
    requires Wakeful(s) && Next(s, Turn(w, now)).Some?
    ensures Wakeful(Next(s, Turn(w, now)).value)
  {
    if s.closed {
      GoKeepsWakeful(s, w, Draining, Some(w), s.queue, s.log);
    } else if s.queue == [] {
      GoKeepsWakeful(s, w, Sleeping, s.holder, s.queue, s.log);
    } else {
      var expired := now > s.queue[0].expires;
      var t := Dequeue(s, now, !expired);
      GoKeepsWakeful(s, w, if expired then Ready else Processing(s.queue[0]), s.holder, t.queue, t.log);
    }
  }

  lemma {:induction false} DrainKeepsWakeful(s: State, w: WorkerId, now: int)
    requires Wakeful(s) && Next(s, DrainOne(w, now)).Some?
    ensures Wakeful(Next(s, DrainOne(w, now)).value)
  {
    var t := Next(s, DrainOne(w, now)).value;
    assert Asleep(t) == Asleep(s);
    assert Awake(t, w);
  }

  lemma {:induction false} StopKeepsWakeful(s: State)
    requires Wakeful(s) && Next(s, Stop).Some?
    ensures Wakeful(Next(s, Stop).value)
  {
    var t := Next(s, Stop).value;
    assert Asleep(t) == {};
    forall w | w in t.workers && t.workers[w] != Exited && t.queue != [] ensures SomebodyAwake(t) {
      assert SomebodyAwake(s);
      var v :| Awake(s, v);
      assert Awake(t, v);
    }
  }

  lemma {:induction false} EveryRunIsWakeful(events: seq<Event>)
    requires Run(events).Some?
    ensures Wakeful(Run(events).value)
    decreases |events|
  {
    if events != [] {
      var before, e := events[..|events| - 1], events[|events| - 1];
      EveryRunIsWakeful(before);
      var s := Run(before).value;
      match e {
        case Start(w) => GoKeepsWakeful(s, w, Ready, s.holder, s.queue, s.log);
        case Add(task, hasExpiry, now, woken) => AddKeepsWakeful(s, task, hasExpiry, now, woken);
        case Turn(w, now) => TurnKeepsWakeful(s, w, now);
        case Finish(w) => GoKeepsWakeful(s, w, Ready, s.holder, s.queue, s.log);
        case DrainOne(w, now) => DrainKeepsWakeful(s, w, now);
        case Leave(w) => GoKeepsWakeful(s, w, Exited, None, s.queue, s.log);
        case Stop => StopKeepsWakeful(s);
      }
    }
  }

  /** The worker's next step is possible now, whatever the clock says. */
  ghost predicate CanGoOn(s: State, w: WorkerId) {
    || (forall now :: Next(s, Turn(w, now)).Some?)
    || Next(s, Finish(w)).Some?
    || (forall now :: Next(s, DrainOne(w, now)).Some?)
    || Next(s, Leave(w)).Some?
  }

  /**
   * In every run: as long as a task is queued, or after a Stop, and not all workers have left, some worker can go
   * on. So no wake-up is lost and Stop does not wait in vain.
   */
  lemma {:induction false} SomeWorkerCanGoOn(events: seq<Event>, w: WorkerId)
    requires Run(events).Some?
    requires var s := Run(events).value;
             w in s.workers && s.workers[w] != Exited && (s.queue != [] || Stop in events)
    ensures exists v :: v in Run(events).value.workers && CanGoOn(Run(events).value, v)
  {
    var s := Run(events).value;
    EveryRunIsWakeful(events);
    HistoriesComeFromEvents(events);
    if s.holder.Some? {
      assert CanGoOn(s, s.holder.value);
    } else {
      var v := if s.queue != [] then AwakeOne(s, w) else w;
      assert s.workers[v] == Sleeping && v !in s.signalled ==> v in Asleep(s);
      assert CanGoOn(s, v);
    }
  }

  ghost function AwakeOne(s: State, w: WorkerId): (v: WorkerId)
    requires Wakeful(s) && s.queue != [] && w in s.workers && s.workers[w] != Exited
    ensures Awake(s, v)
  {
    assert SomebodyAwake(s);
    var v :| Awake(s, v);
    v
  }

  // ---- The lock regions as methods ----

  datatype Outcome = Sleep | Discard(task: Task) | Process(task: Task) | Drain

  class PriorityScheduler {
    var tasks: seq<Task>
    var closed: bool

    constructor ()
      ensures tasks == [] && !closed
    {
      tasks, closed := [], false;
    }

    method AddTask(task: Task, hasExpiry: bool, now: int)
      requires IsHeap(tasks)
      modifies this
      ensures IsHeap(tasks) && tasks == Push(old(tasks), Stamped(task, hasExpiry, now)) && closed == old(closed)
      ensures var expires := if hasExpiry then task.expires else now + 300_000_000_000;
              multiset(tasks) ==
              old(multiset(tasks)) + multiset{Task(task.id, task.uid, task.priority, expires)}
    {
      tasks := Push(tasks, if hasExpiry then task else task.(expires := now + DEFAULT_LIFE));
    }

    /** One turn of a worker that has the lock, as far as its unlock, wait or drain. */
    method TakeTurn(now: int) returns (r: Outcome)
      requires IsHeap(tasks)
      modifies this
      ensures IsHeap(tasks) && closed == old(closed)
      ensures r.Drain? <==> closed
      ensures r.Sleep? <==> !closed && old(tasks) == []
      ensures r.Drain? || r.Sleep? ==> tasks == old(tasks)
      ensures r.Discard? || r.Process? ==>
                && old(multiset(tasks)) == multiset(tasks) + multiset{r.task}
                && (forall k :: 0 <= k < |old(tasks)| ==> old(tasks)[k].priority <= r.task.priority)
                && (r.Process? <==> now <= r.task.expires)
    {
      if closed {
        return Drain;
      }
      if tasks == [] {
        return Sleep;
      }
      forall k | 0 <= k < |tasks| ensures tasks[k].priority <= tasks[0].priority {
        RootIsMaximal(tasks, k);
      }
      var p := Pop(tasks);
      tasks := p.rest;
      r := if now > p.task.expires then Discard(p.task) else Process(p.task);
    }

    /** The loop after Stop: every queued task is taken, in priority order, and processed unless it has expired. */
    method DrainAll(clock: seq<int>) returns (log: seq<Record>)
      requires IsHeap(tasks) && |clock| == |tasks|
      modifies this
      ensures tasks == [] && closed == old(closed)
      ensures Taken(log) == old(multiset(tasks)) && |log| == |clock|
      ensures forall i :: 0 <= i < |log| ==> Fair(log[i]) && log[i].at == clock[i]
      ensures forall i, j :: 0 <= i < j < |log| ==> log[i].task.priority >= log[j].task.priority
    {
      log := [];
      ghost var all := multiset(tasks);
      while tasks != []
        invariant closed == old(closed) && |log| + |tasks| == |clock|
        invariant IsHeap(tasks) && Conserves(log, tasks, all) && InTurn(log, tasks, clock)
        decreases |tasks|
      {
        var p := Pop(tasks);
        var now := clock[|log|];
        var r := Record(p.task, now, !(now > p.task.expires), tasks);
        PopConserves(log, tasks, all, r);
        PopInTurn(log, tasks, clock, r);
        tasks, log := p.rest, log + [r];
      }
      assert multiset(tasks) == multiset{};
    }
  }

  /** What was taken and what is still queued make up `all`. */
  ghost predicate Conserves(log: seq<Record>, queue: seq<Task>, all: multiset<Task>) {
    Taken(log) + multiset(queue) == all
  }

  /** Tasks were taken fairly, one per clock reading, and by falling priority down to what is still queued. */
  ghost predicate InTurn(log: seq<Record>, queue: seq<Task>, clock: seq<int>) {
    && |log| <= |clock|
    && (forall i :: 0 <= i < |log| ==> Fair(log[i]) && log[i].at == clock[i])
    && (forall i, j :: 0 <= i < j < |log| ==> log[i].task.priority >= log[j].task.priority)
    && (forall i, k :: 0 <= i < |log| && 0 <= k < |queue| ==> log[i].task.priority >= queue[k].priority)
  }

  lemma {:induction false} PopConserves(log: seq<Record>, queue: seq<Task>, all: multiset<Task>, r: Record)
    requires queue != [] && Conserves(log, queue, all) && r.task == Pop(queue).task
    ensures Conserves(log + [r], Pop(queue).rest, all)
  {
    TakenSnoc(log, r);
  }

  lemma {:induction false} PopInTurn(log: seq<Record>, queue: seq<Task>, clock: seq<int>, r: Record)
    requires IsHeap(queue) && queue != [] && InTurn(log, queue, clock) && |log| < |clock|
    requires r == Record(queue[0], clock[|log|], clock[|log|] <= queue[0].expires, queue)
    ensures InTurn(log + [r], Pop(queue).rest, clock)
  {
    var rest := Pop(queue).rest;
    PoppedIsFair(queue, Pop(queue), r);
    forall i, k | 0 <= i < |log| && 0 <= k < |rest| ensures log[i].task.priority >= rest[k].priority {
      assert rest[k] in queue;
    }
  }

  /** The popped task outranks the others, and what is left after a Pop was there before. */
  lemma {:induction false} PoppedIsFair(h: seq<Task>, p: Popped, r: Record)
    requires IsHeap(h) && h != [] && p == Pop(h)
    requires r.task == p.task && r.queue == h && (r.processed <==> r.at <= r.task.expires)
    ensures Fair(r)
    ensures forall k :: 0 <= k < |p.rest| ==> p.rest[k] in h && p.rest[k].priority <= p.task.priority
  {
    RootIsFair(r);
    SmallerQueue(h, p);
  }

  /** What is left after a Pop was there before. */
  lemma SmallerQueue(h: seq<Task>, p: Popped)
    requires h != [] && p == Pop(h)
    ensures forall k :: 0 <= k < |p.rest| ==> p.rest[k] in h
  {
    forall k | 0 <= k < |p.rest| ensures p.rest[k] in h {
      assert p.rest[k] in multiset(p.rest);
      assert p.rest[k] in multiset(h);
    }
  }
}
