/** The circuit breaker of lib/circuitbreaker.go: a small state that summarises the whole history of calls. */
module CircuitBreaker {

  datatype Mode = Closed | HalfOpen | Open

  datatype Options = Options(maxFailures: int, timeout: int, halfOpenMax: int)

  datatype Breaker = Breaker(mode: Mode, failures: int, lastFailure: int, trials: int)

  const NEW := Breaker(Closed, 0, 0, 0)

  /** Results may be recorded long after they were admitted, so the three kinds come in any order. */
  datatype Event = Ask(now: int) | Failure(now: int) | Success

  predicate Admits(o: Options, b: Breaker, now: int) {
    b.mode != Open || now - b.lastFailure >= o.timeout
  }

  function Step(o: Options, b: Breaker, e: Event): Breaker {
    match e
    case Ask(now) =>
      if b.mode == Open && Admits(o, b, now) then b.(mode := HalfOpen, trials := 0) else b
    case Failure(now) =>
      var c := b.(lastFailure := now, failures := b.failures + 1);
      if b.mode == HalfOpen || (b.mode == Closed && c.failures >= o.maxFailures) then c.(mode := Open) else c
    case Success =>
      match b.mode
      case Closed => b.(failures := 0)
      case HalfOpen =>
        if b.trials + 1 >= o.halfOpenMax then b.(mode := Closed, failures := 0, trials := 0)
        else b.(trials := b.trials + 1)
      case Open => b
  }

  function After(o: Options, h: seq<Event>): Breaker {
    if h == [] then NEW else Step(o, After(o, h[..|h| - 1]), h[|h| - 1])
  }

  // ---- Readings of the history that do not mention the breaker ----

  /** Failures recorded since the last recorded success. */
  function FailureRun(h: seq<Event>): nat {
    if h == [] then 0
    else
      match h[|h| - 1]
      case Ask(_) => FailureRun(h[..|h| - 1])
      case Failure(_) => FailureRun(h[..|h| - 1]) + 1
      case Success => 0
  }

  /** When the latest failure was recorded, whatever the breaker was doing then. */
  function LatestFailure(h: seq<Event>): int {
    if h == [] then 0
    else
      match h[|h| - 1]
      case Failure(now) => now
      case _ => LatestFailure(h[..|h| - 1])
  }

  function Successes(h: seq<Event>): nat {
    if h == [] then 0 else Successes(h[..|h| - 1]) + if h[|h| - 1].Success? then 1 else 0
  }

  predicate NoFailure(h: seq<Event>) {
    forall i :: 0 <= i < |h| ==> !h[i].Failure?
  }

  predicate SaneOptions(o: Options) {
    o.maxFailures >= 1 && o.halfOpenMax >= 1
  }

  // ---- What the state says about the history ----

  /** Closed: the counter is the current run of failures, and it has not reached the limit. */
  lemma {:induction false} StateSummarisesHistory(o: Options, h: seq<Event>)
    requires SaneOptions(o)
    ensures After(o, h).lastFailure == LatestFailure(h)
    ensures After(o, h).mode == Closed ==>
              After(o, h).failures == FailureRun(h) && FailureRun(h) < o.maxFailures
    ensures After(o, h).mode != Open ==> forall now :: Admits(o, After(o, h), now)
    decreases |h|
  {
    if h != [] {
      StateSummarisesHistory(o, h[..|h| - 1]);
    }
  }

  /** A closed breaker opens on exactly the failure that completes a run of maxFailures. */
  lemma {:induction false} OpensExactlyAtTheLimit(o: Options, h: seq<Event>, e: Event)
    requires SaneOptions(o) && After(o, h).mode == Closed
    ensures After(o, h + [e]).mode == Open <==> e.Failure? && FailureRun(h + [e]) == o.maxFailures
    ensures After(o, h + [e]).mode != HalfOpen
  {
    StateSummarisesHistory(o, h);
    assert (h + [e])[..|h|] == h;
  }

  /** Each request in g comes less than the timeout after the latest failure recorded before it. */
  ghost predicate AllTooEarly(o: Options, h: seq<Event>, g: seq<Event>) {
    forall k :: 0 <= k < |g| && g[k].Ask? ==> g[k].now - LatestFailure(h + g[..k]) < o.timeout
  }

  /** Once open, nothing is admitted until the timeout has passed since the latest failure, late ones included. */
  lemma {:induction false} OpenRefusesUntilTimeout(o: Options, h: seq<Event>, g: seq<Event>, now: int)
    requires SaneOptions(o) && After(o, h).mode == Open && AllTooEarly(o, h, g)
    ensures After(o, h + g).mode == Open
    ensures Admits(o, After(o, h + g), now) <==> now - LatestFailure(h + g) >= o.timeout
    decreases |g|
  {
    StateSummarisesHistory(o, h + g);
    if g == [] {
      assert h + g == h;
    } else {
      var n := |g| - 1;
      var before, e := g[..n], g[n];
      assert forall k :: 0 <= k < n ==> before[..k] == g[..k];
      assert (h + g)[..|h + g| - 1] == h + before;
      assert (h + g)[|h + g| - 1] == e;
      OpenRefusesUntilTimeout(o, h, before, if e.Ask? then e.now else 0);
    }
  }

  /** One more event of h. */
  lemma {:induction false} AfterNext(o: Options, h: seq<Event>, n: nat)
    requires 0 < n <= |h|
    ensures After(o, h[..n]) == Step(o, After(o, h[..n - 1]), h[n - 1])
  {
    assert h[..n][..n - 1] == h[..n - 1];
  }

  lemma {:induction false} SuccessesSnoc(h: seq<Event>, m: nat, n: nat)
    requires m <= n < |h|
    ensures Successes(h[m..n + 1]) == Successes(h[m..n]) + if h[n].Success? then 1 else 0
    ensures NoFailure(h[m..n + 1]) <==> NoFailure(h[m..n]) && !h[n].Failure?
  {
    var g := h[m..n + 1];
    assert g[..n - m] == h[m..n];
    assert g == h[m..n] + [h[n]];
  }

  /** While half-open: the request m that started the trial, and the successes counted since. */
  lemma {:induction false} TrialStart(o: Options, h: seq<Event>, n: nat) returns (m: nat)
    requires SaneOptions(o) && n <= |h| && After(o, h[..n]).mode == HalfOpen
    ensures m < n && h[m].Ask? && After(o, h[..m]).mode == Open && Admits(o, After(o, h[..m]), h[m].now)
    ensures forall k :: m < k <= n ==> After(o, h[..k]).mode == HalfOpen
    ensures NoFailure(h[m + 1..n])
    ensures Successes(h[m + 1..n]) == After(o, h[..n]).trials < o.halfOpenMax
    decreases n
  {
    AfterNext(o, h, n);
    if After(o, h[..n - 1]).mode == Open {
      m := n - 1;
      assert h[m + 1..n] == [];
    } else {
      m := TrialStart(o, h, n - 1);
      SuccessesSnoc(h, m + 1, n - 1);
    }
  }

  lemma {:induction false} CleanTrialWithin(o: Options, h: seq<Event>, i: nat, n: nat) returns (m: nat, j: nat)
    requires SaneOptions(o) && i <= n <= |h|
    requires After(o, h[..i]).mode == Open && After(o, h[..n]).mode == Closed
    ensures i <= m < j <= n
    ensures h[m].Ask? && After(o, h[..m]).mode == Open && Admits(o, After(o, h[..m]), h[m].now)
    ensures (forall k :: m < k < j ==> After(o, h[..k]).mode == HalfOpen) && After(o, h[..j]).mode == Closed
    ensures NoFailure(h[m + 1..j]) && Successes(h[m + 1..j]) == o.halfOpenMax
    decreases n
  {
    if After(o, h[..n - 1]).mode == Closed {
      m, j := CleanTrialWithin(o, h, i, n - 1);
    } else {
      m := ClosingTrial(o, h, n);
      j := n;
    }
  }

  /** The trial that ends with the breaker closing at the event before n. */
  lemma {:induction false} ClosingTrial(o: Options, h: seq<Event>, n: nat) returns (m: nat)
    requires SaneOptions(o) && 0 < n <= |h|
    requires After(o, h[..n - 1]).mode != Closed && After(o, h[..n]).mode == Closed
    ensures m < n - 1 && h[m].Ask? && After(o, h[..m]).mode == Open && Admits(o, After(o, h[..m]), h[m].now)
    ensures forall k :: m < k < n ==> After(o, h[..k]).mode == HalfOpen
    ensures NoFailure(h[m + 1..n]) && Successes(h[m + 1..n]) == o.halfOpenMax
  {
    AfterNext(o, h, n);
    m := TrialStart(o, h, n - 1);
    SuccessesSnoc(h, m + 1, n - 1);
  }

  /** Going from open back to closed takes an admitted request and then halfOpenMax successes with no failure among them. */
  lemma {:induction false} RecoveryTakesACleanTrial(o: Options, h: seq<Event>, i: nat) returns (m: nat, j: nat)
    requires SaneOptions(o) && i <= |h|
    requires After(o, h[..i]).mode == Open && After(o, h).mode == Closed
    ensures i <= m < j <= |h|
    ensures h[m].Ask? && After(o, h[..m]).mode == Open && Admits(o, After(o, h[..m]), h[m].now)
    ensures (forall k :: m < k < j ==> After(o, h[..k]).mode == HalfOpen) && After(o, h[..j]).mode == Closed
    ensures NoFailure(h[m + 1..j]) && Successes(h[m + 1..j]) == o.halfOpenMax
  {
    assert h[..|h|] == h;
    m, j := CleanTrialWithin(o, h, i, |h|);
  }

  lemma AfterSnoc(o: Options, h: seq<Event>, e: Event)
    ensures After(o, h + [e]) == Step(o, After(o, h), e)
  {
    assert (h + [e])[..|h|] == h;
  }

  /** The first request admitted by an open breaker starts a trial, which lasts while it is clean and incomplete. */
  lemma {:induction false} TrialProgress(o: Options, h: seq<Event>, now: int, g: seq<Event>)
    requires SaneOptions(o) && After(o, h).mode == Open && Admits(o, After(o, h), now)
    requires NoFailure(g) && Successes(g) < o.halfOpenMax
    ensures After(o, h + [Ask(now)] + g).mode == HalfOpen
    ensures After(o, h + [Ask(now)] + g).trials == Successes(g)
    decreases |g|
  {
    if g == [] {
      AfterSnoc(o, h, Ask(now));
      assert h + [Ask(now)] + g == h + [Ask(now)];
    } else {
      var before, e := g[..|g| - 1], g[|g| - 1];
      TrialProgress(o, h, now, before);
      AfterSnoc(o, h + [Ask(now)] + before, e);
      assert h + [Ask(now)] + g == h + [Ask(now)] + before + [e];
    }
  }

  /** The trial ends at the halfOpenMax-th success, closing the breaker, or at the first failure, opening it again. */
  lemma {:induction false} TrialOutcome(o: Options, h: seq<Event>, now: int, g: seq<Event>, e: Event)
    requires SaneOptions(o) && After(o, h).mode == Open && Admits(o, After(o, h), now)
    requires NoFailure(g) && Successes(g) < o.halfOpenMax
    ensures After(o, h + [Ask(now)] + g + [e]).mode == Closed <==> e.Success? && Successes(g) + 1 == o.halfOpenMax
    ensures After(o, h + [Ask(now)] + g + [e]).mode == Open <==> e.Failure?
  {
    TrialProgress(o, h, now, g);
    AfterSnoc(o, h + [Ask(now)] + g, e);
  }

  class CircuitBreaker {
    const opts: Options
    var state: Mode
    var failures: int
    var lastFailure: int
    var halfOpenSuccesses: int

    ghost function State(): Breaker
      reads this
    {
      Breaker(state, failures, lastFailure, halfOpenSuccesses)
    }

    constructor (opts: Options)
      ensures this.opts == opts && State() == NEW
    {
      this.opts := opts;
      state, failures, lastFailure, halfOpenSuccesses := Closed, 0, 0, 0;
    }

    method AllowRequest(now: int) returns (admitted: bool)
      modifies this
      ensures admitted == Admits(opts, old(State()), now)
      ensures State() == Step(opts, old(State()), Ask(now))
    {
      match state
      case Closed => return true;
      case HalfOpen => return true;
      case Open =>
        if now - lastFailure >= opts.timeout {
          state, halfOpenSuccesses := HalfOpen, 0;
          return true;
        }
        return false;
    }

    method RecordFailure(now: int)
      modifies this
      ensures State() == Step(opts, old(State()), Failure(now))
    {
      lastFailure := now;
      failures := failures + 1;
      match state
      case Closed =>
        if failures >= opts.maxFailures {
          state := Open;
        }
      case HalfOpen => state := Open;
      case Open =>
    }

    method RecordSuccess()
      modifies this
      ensures State() == Step(opts, old(State()), Success)
    {
      match state
      case Closed => failures := 0;
      case HalfOpen =>
        halfOpenSuccesses := halfOpenSuccesses + 1;
        if halfOpenSuccesses >= opts.halfOpenMax {
          state, failures, halfOpenSuccesses := Closed, 0, 0;
        }
      case Open =>
    }
  }
}
