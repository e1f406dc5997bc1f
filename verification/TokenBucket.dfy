/** The two token buckets of lib/ratelimit.go, over real numbers, with the clock as a parameter. */
module TokenBucket {

  /** One call, and how many tokens it took (zero when it was refused). */
  datatype Call = Call(time: real, granted: real)

  /** A bucket's calls; the first entry is its creation. */
  type History = h: seq<Call> | |h| > 0 && h[0].granted == 0.0 witness [Call(0.0, 0.0)]

  function Last(h: History): Call {
    h[|h| - 1]
  }

  // ---- The specification: every window since an earlier call ----

  /** Tokens taken by the calls from number i on. */
  function Spent(h: seq<Call>, i: nat): real {
    if |h| <= i then 0.0 else Spent(h[..|h| - 1], i) + h[|h| - 1].granted
  }

  /** What the rate allows between two moments. */
  function Accrued(rate: real, from: real, to: real): real {
    (to - from) * rate
  }

  lemma AccruedIsNonNegative(rate: real, a: real, b: real)
    requires rate >= 0.0 && a <= b
    ensures Accrued(rate, a, b) >= 0.0
  {
  }

  /** Taking n more tokens at time t keeps what was taken since call i within the burst and the rate. */
  predicate Fits(cap: real, rate: real, h: History, i: nat, t: real, n: real)
    requires i < |h|
  {
    Spent(h, i) + n <= cap + (t - h[i].time) * rate
  }

  /** The request fits by itself, and together with the grants since every earlier call. */
  ghost predicate WithinEveryWindow(cap: real, rate: real, h: History, t: real, n: real) {
    n <= cap && forall i :: 0 <= i < |h| ==> Fits(cap, rate, h, i, t, n)
  }

  // ---- The implementation: one running number ----

  function Capped(cap: real, tokens: real): real {
    if tokens > cap then cap else tokens
  }

  /** The tokens field right after the last call. */
  function Level(cap: real, rate: real, h: History): real
    decreases |h|, 0
  {
    if |h| == 1 then cap
    else
      var before: History := h[..|h| - 1];
      Refilled(cap, rate, before, Last(h).time) - Last(h).granted
  }

  function Refilled(cap: real, rate: real, h: History, t: real): real
    decreases |h|, 1
  {
    Capped(cap, Level(cap, rate, h) + Accrued(rate, Last(h).time, t))
  }

  lemma LevelAfter(cap: real, rate: real, h: History, call: Call)
    ensures Level(cap, rate, h + [call]) == Refilled(cap, rate, h, call.time) - call.granted
  {
    assert (h + [call])[..|h|] == h;
  }

  // ---- They agree ----

  lemma {:induction false} LevelIsTheTightestWindow(cap: real, rate: real, h: History, m: real)
    ensures Level(cap, rate, h) >= m <==> forall i :: 0 <= i < |h| ==> Fits(cap, rate, h, i, Last(h).time, m)
    decreases |h|, 0
  {
    if |h| > 1 {
      var before: History := h[..|h| - 1];
      var k, t, n := |h| - 1, Last(h).time, m + Last(h).granted;
      RunningNumberRefinesWindows(cap, rate, before, t, n);
      assert Level(cap, rate, h) >= m <==> Refilled(cap, rate, before, t) >= n;
      forall i | 0 <= i < k ensures Fits(cap, rate, h, i, t, m) <==> Fits(cap, rate, before, i, t, n) {
      }
      assert Fits(cap, rate, h, k, t, m) <==> n <= cap by {
        assert Spent(h, k) == Last(h).granted;
        assert Accrued(rate, t, t) == 0.0;
      }
      if Level(cap, rate, h) >= m {
        forall i | 0 <= i < |h| ensures Fits(cap, rate, h, i, t, m) {
          assert i < k ==> Fits(cap, rate, before, i, t, n);
        }
      }
    } else {
      assert Spent(h, 0) == 0.0;
      forall i | 0 <= i < |h| ensures Fits(cap, rate, h, i, Last(h).time, m) <==> m <= cap {
        assert Accrued(rate, h[i].time, Last(h).time) == 0.0;
      }
      assert Fits(cap, rate, h, 0, Last(h).time, m) <==> m <= cap;
    }
  }

  /** A request is covered by the running number exactly when it fits every window. */
  lemma {:induction false} RunningNumberRefinesWindows(cap: real, rate: real, h: History, t: real, n: real)
    ensures Refilled(cap, rate, h, t) >= n <==> WithinEveryWindow(cap, rate, h, t, n)
    decreases |h|, 1
  {
    var m := n - Accrued(rate, Last(h).time, t);
    LevelIsTheTightestWindow(cap, rate, h, m);
    forall i | 0 <= i < |h|
      ensures Fits(cap, rate, h, i, t, n) <==> Fits(cap, rate, h, i, Last(h).time, m)
    {
    }
    assert Refilled(cap, rate, h, t) >= n <==> n <= cap && Level(cap, rate, h) >= m;
  }

  /** Histories a bucket can produce when nobody asks for a negative amount: each grant was covered when given. */
  ghost predicate Produced(cap: real, rate: real, h: History) {
    forall k :: 1 <= k < |h| ==>
      && h[k - 1].time <= h[k].time
      && 0.0 <= h[k].granted
      && (h[k].granted == 0.0 || h[k].granted <= Refilled(cap, rate, h[..k], h[k].time))
  }

  lemma {:induction false} ProducedAfter(cap: real, rate: real, h: History, call: Call)
    requires Produced(cap, rate, h) && Last(h).time <= call.time
    requires call.granted == 0.0 || 0.0 <= call.granted <= Refilled(cap, rate, h, call.time)
    ensures Produced(cap, rate, h + [call])
  {
    var g := h + [call];
    assert forall k :: 1 <= k <= |h| ==> g[..k] == h[..k];
    assert g[..|h|] == h;
  }

  lemma {:induction false} LevelStaysNonNegative(cap: real, rate: real, h: History)
    requires cap >= 0.0 && rate >= 0.0 && Produced(cap, rate, h)
    ensures Level(cap, rate, h) >= 0.0
    decreases |h|
  {
    if |h| > 1 {
      var before: History := h[..|h| - 1];
      assert forall k :: 1 <= k < |before| ==> before[..k] == h[..k];
      LevelStaysNonNegative(cap, rate, before);
      var k := |h| - 1;
      assert h[..k] == before;
      AccruedIsNonNegative(rate, h[k - 1].time, h[k].time);
      var filled := Refilled(cap, rate, before, h[k].time);
      assert filled >= 0.0;
      assert Level(cap, rate, h) == filled - h[k].granted;
    }
  }

  /** So the grants from any call i to the latest one never exceed the burst plus the rate over that time. */
  lemma {:induction false} NoWindowIsOverspent(cap: real, rate: real, h: History, i: nat)
    requires cap >= 0.0 && rate >= 0.0 && Produced(cap, rate, h) && i < |h|
    ensures Spent(h, i) <= cap + (Last(h).time - h[i].time) * rate
  {
    LevelStaysNonNegative(cap, rate, h);
    LevelIsTheTightestWindow(cap, rate, h, 0.0);
    assert Fits(cap, rate, h, i, Last(h).time, 0.0);
  }

  // ---- The classes ----

  class Bucket {
    const capacity: real
    const refillRate: real
    var tokens: real
    var lastRefill: real
    ghost var history: History

    ghost predicate Valid()
      reads this
    {
      tokens == Level(capacity, refillRate, history) && lastRefill == Last(history).time
    }

    constructor (capacity: real, refillRate: real, now: real)
      ensures Valid() && this.capacity == capacity && this.refillRate == refillRate
      ensures history == [Call(now, 0.0)]
    {
      this.capacity, this.refillRate := capacity, refillRate;
      tokens, lastRefill := capacity, now;
      history := [Call(now, 0.0)];
    }

    /** TokenBucket.Take: granted exactly when every window has room. */
    method Take(n: real, now: real) returns (granted: bool)
      requires Valid()
      modifies this
      ensures Valid()
      ensures granted <==> WithinEveryWindow(capacity, refillRate, old(history), now, n)
      ensures history == old(history) + [Call(now, if granted then n else 0.0)]
      ensures n >= 0.0 && now >= old(lastRefill) && old(Produced(capacity, refillRate, history)) ==>
                Produced(capacity, refillRate, history)
    {
      RunningNumberRefinesWindows(capacity, refillRate, history, now, n);
      tokens := tokens + Accrued(refillRate, lastRefill, now);
      lastRefill := now;
      if tokens > capacity {
        tokens := capacity;
      }
      assert tokens == Refilled(capacity, refillRate, history, now);
      granted := tokens >= n;
      if granted {
        tokens := tokens - n;
      }
      LevelAfter(capacity, refillRate, history, Call(now, if granted then n else 0.0));
      if n >= 0.0 && now >= old(lastRefill) && Produced(capacity, refillRate, history) {
        ProducedAfter(capacity, refillRate, history, Call(now, if granted then n else 0.0));
      }
      history := history + [Call(now, if granted then n else 0.0)];
    }
  }

  class RateLimiter {
    const rate: real
    const burst: int
    var tokens: real
    var lastUpdate: real
    ghost var history: History

    ghost predicate Valid()
      reads this
    {
      tokens == Level(burst as real, rate, history) && lastUpdate == Last(history).time
    }

    constructor (rate: real, burst: int, now: real)
      ensures Valid() && this.rate == rate && this.burst == burst
      ensures history == [Call(now, 0.0)]
    {
      this.rate, this.burst := rate, burst;
      tokens, lastUpdate := burst as real, now;
      history := [Call(now, 0.0)];
    }

    method AllowN(n: int, now: real) returns (granted: bool)
      requires Valid()
      modifies this
      ensures Valid()
      ensures granted <==> WithinEveryWindow(burst as real, rate, old(history), now, n as real)
      ensures history == old(history) + [Call(now, if granted then n as real else 0.0)]
      ensures n >= 0 && now >= old(lastUpdate) && old(Produced(burst as real, rate, history)) ==>
                Produced(burst as real, rate, history)
    {
      RunningNumberRefinesWindows(burst as real, rate, history, now, n as real);
      tokens := tokens + Accrued(rate, lastUpdate, now);
      lastUpdate := now;
      if tokens > burst as real {
        tokens := burst as real;
      }
      assert tokens == Refilled(burst as real, rate, history, now);
      granted := tokens >= n as real;
      if granted {
        tokens := tokens - n as real;
      }
      LevelAfter(burst as real, rate, history, Call(now, if granted then n as real else 0.0));
      if n >= 0 && now >= old(lastUpdate) && Produced(burst as real, rate, history) {
        ProducedAfter(burst as real, rate, history, Call(now, if granted then n as real else 0.0));
      }
      history := history + [Call(now, if granted then n as real else 0.0)];
    }

    method Allow(now: real) returns (granted: bool)
      requires Valid()
      modifies this
      ensures Valid()
      ensures granted <==> WithinEveryWindow(burst as real, rate, old(history), now, 1.0)
      ensures history == old(history) + [Call(now, if granted then 1.0 else 0.0)]
      ensures now >= old(lastUpdate) && old(Produced(burst as real, rate, history)) ==>
                Produced(burst as real, rate, history)
    {
      granted := AllowN(1, now);
    }
  }
}
