/** The middleware pipeline of lib/router.go and the handler cursor of lib/app.go. */
module Pipeline {
  /** A HandlerFunc as the pipeline builds it; Nothing is a nil function. */
  datatype Chain<M, H> = Nothing | Run(h: H) | Then(h: H, next: Chain<M, H>) | Wrap(m: M, next: Chain<M, H>)

  function HandlerChain<M, H>(hs: seq<H>): Chain<M, H> {
    if hs == [] then Nothing
    else if |hs| == 1 then Run(hs[0])
    else Then(hs[0], HandlerChain(hs[1..]))
  }

  function WrapAll<M, H>(ms: seq<M>, chain: Chain<M, H>): Chain<M, H> {
    if ms == [] then chain else Wrap(ms[0], WrapAll(ms[1..], chain))
  }

  /** What GetHandlers builds when nothing is cached. */
  function Fresh<M, H>(ms: seq<M>, hs: seq<H>, route: string): seq<Chain<M, H>> {
    if hs == [] && route != "" then [] else [WrapAll(ms, HandlerChain(hs))]
  }

  // ---- What a chain means ----

  /** A handler as the set of its (before, after) pairs; a middleware as any function on such sets. */
  type Effect<!S(==)> = iset<(S, S)>
  datatype Semantics<!M, !H, !S(==)> = Semantics(handler: H -> Effect<S>, middleware: (M, Effect<S>) -> Effect<S>)

  ghost function Compose<S(!new)>(a: Effect<S>, b: Effect<S>): Effect<S> {
    iset x, y, z | (x, y) in a && (y, z) in b :: (x, z)
  }

  ghost function Identity<S(!new)>(): Effect<S> {
    iset x :: (x, x)
  }

  /** Running the built function; a nil function has no result. */
  ghost function Meaning<M, H, S(!new)>(sem: Semantics<M, H, S>, c: Chain<M, H>): Effect<S> {
    match c
    case Nothing => iset{}
    case Run(h) => (sem.handler)(h)
    case Then(h, next) => Compose((sem.handler)(h), Meaning(sem, next))
    case Wrap(m, next) => (sem.middleware)(m, Meaning(sem, next))
  }

  /** The handlers one after another, in the order of their On calls. */
  ghost function InOrder<M, H, S(!new)>(sem: Semantics<M, H, S>, hs: seq<H>): Effect<S> {
    if hs == [] then Identity()
    else Compose(InOrder(sem, hs[..|hs| - 1]), (sem.handler)(hs[|hs| - 1]))
  }

  /** The middlewares around a body, the one of the first Use call outermost. */
  ghost function Around<M, H, S(!new)>(sem: Semantics<M, H, S>, ms: seq<M>, body: Effect<S>): Effect<S> {
    if ms == [] then body
    else Around(sem, ms[..|ms| - 1], (sem.middleware)(ms[|ms| - 1], body))
  }

  lemma ComposeIdentity<S(!new)>(a: Effect<S>)
    ensures Compose(Identity(), a) == a && Compose(a, Identity()) == a
  {
    forall p: (S, S) ensures p in Compose(Identity(), a) <==> p in a {
      assert p == (p.0, p.1) && (p.0, p.0) in Identity<S>();
    }
    forall p: (S, S) ensures p in Compose(a, Identity()) <==> p in a {
      assert p == (p.0, p.1) && (p.1, p.1) in Identity<S>();
    }
  }

  lemma ComposeAssociates<S(!new)>(a: Effect<S>, b: Effect<S>, c: Effect<S>)
    ensures Compose(Compose(a, b), c) == Compose(a, Compose(b, c))
  {
    forall x: S, z: S ensures (x, z) in Compose(Compose(a, b), c) <==> (x, z) in Compose(a, Compose(b, c)) {
      if (x, z) in Compose(Compose(a, b), c) {
        var y :| (x, y) in Compose(a, b) && (y, z) in c;
        var w :| (x, w) in a && (w, y) in b;
        assert (w, z) in Compose(b, c);
      }
      if (x, z) in Compose(a, Compose(b, c)) {
        var w :| (x, w) in a && (w, z) in Compose(b, c);
        var y :| (w, y) in b && (y, z) in c;
        assert (x, y) in Compose(a, b);
      }
    }
  }

  lemma {:induction false} InOrderCons<M, H, S(!new)>(sem: Semantics<M, H, S>, hs: seq<H>)
    requires hs != []
    ensures InOrder(sem, hs) == Compose((sem.handler)(hs[0]), InOrder(sem, hs[1..]))
    decreases |hs|
  {
    var n := |hs| - 1;
    if n == 0 {
      assert hs[..0] == [] && hs[1..] == [];
      ComposeIdentity((sem.handler)(hs[0]));
    } else {
      InOrderCons(sem, hs[..n]);
      assert hs[..n][1..] == hs[1..][..n - 1];
      ComposeAssociates((sem.handler)(hs[0]), InOrder(sem, hs[1..][..n - 1]), (sem.handler)(hs[n]));
    }
  }

  lemma {:induction false} HandlersRunInOrder<M, H, S(!new)>(sem: Semantics<M, H, S>, hs: seq<H>)
    requires hs != []
    ensures Meaning(sem, HandlerChain<M, H>(hs)) == InOrder(sem, hs)
    decreases |hs|
  {
    InOrderCons(sem, hs);
    if |hs| == 1 {
      assert hs[1..] == [];
      ComposeIdentity((sem.handler)(hs[0]));
    } else {
      HandlersRunInOrder(sem, hs[1..]);
    }
  }

  lemma {:induction false} AroundCons<M, H, S(!new)>(sem: Semantics<M, H, S>, ms: seq<M>, body: Effect<S>)
    requires ms != []
    ensures Around(sem, ms, body) == (sem.middleware)(ms[0], Around(sem, ms[1..], body))
    decreases |ms|
  {
    var n := |ms| - 1;
    if n > 0 {
      AroundCons(sem, ms[..n], (sem.middleware)(ms[n], body));
      assert ms[..n][1..] == ms[1..][..n - 1];
    }
  }

  lemma {:induction false} MiddlewaresNest<M, H, S(!new)>(sem: Semantics<M, H, S>, ms: seq<M>, c: Chain<M, H>)
    ensures Meaning(sem, WrapAll(ms, c)) == Around(sem, ms, Meaning(sem, c))
    decreases |ms|
  {
    if ms != [] {
      MiddlewaresNest(sem, ms[1..], c);
      AroundCons(sem, ms, Meaning(sem, c));
    }
  }

  /**
   * A freshly built chain runs the middlewares outermost in Use order around the handlers in On order. Without
   * handlers there is no chain, except for the empty route: there the middlewares are put around a nil function.
   */
  lemma {:induction false} FreshChainMeansUseThenOn<M, H, S(!new)>(
      sem: Semantics<M, H, S>, ms: seq<M>, hs: seq<H>, route: string)
    ensures |Fresh(ms, hs, route)| == if hs == [] && route != "" then 0 else 1
    ensures hs != [] ==> Meaning(sem, Fresh(ms, hs, route)[0]) == Around(sem, ms, InOrder(sem, hs))
    ensures hs == [] && route == "" ==> Meaning(sem, Fresh(ms, hs, route)[0]) == Around(sem, ms, iset{})
  {
    if hs != [] {
      HandlersRunInOrder<M, H, S>(sem, hs);
    }
    MiddlewaresNest(sem, ms, HandlerChain(hs));
  }

  // ---- The pipeline and its cache ----

  datatype CacheEntry<M, H> = CacheEntry(handlers: seq<Chain<M, H>>, generation: nat)

  /** A call of On. */
  datatype OnCall<H> = OnCall(route: string, handler: H)

  /** The handlers given to On for this route, in the order of the calls. */
  function Given<H>(calls: seq<OnCall<H>>, route: string): seq<H> {
    if calls == [] then []
    else
      var before, last := Given(calls[..|calls| - 1], route), calls[|calls| - 1];
      if last.route == route then before + [last.handler] else before
  }

  /** How many of the first i calls were for this route. */
  function Rank<H>(calls: seq<OnCall<H>>, route: string, i: nat): nat
    requires i <= |calls|
  {
    if i == 0 then 0 else Rank(calls, route, i - 1) + if calls[i - 1].route == route then 1 else 0
  }

  lemma {:induction false} GivenAsManyAsCalled<H>(calls: seq<OnCall<H>>, route: string, n: nat)
    requires n <= |calls|
    ensures |Given(calls[..n], route)| == Rank(calls, route, n)
    decreases n
  {
    if n > 0 {
      assert calls[..n][..n - 1] == calls[..n - 1];
      GivenAsManyAsCalled(calls, route, n - 1);
    }
  }

  lemma {:induction false} GivenGrows<H>(calls: seq<OnCall<H>>, route: string, i: nat, n: nat)
    requires i <= n <= |calls|
    ensures Given(calls[..i], route) <= Given(calls[..n], route)
    decreases n
  {
    if i < n {
      assert calls[..n][..n - 1] == calls[..n - 1];
      GivenGrows(calls, route, i, n - 1);
    }
  }

  /** No handler is missing, added or out of place: the handler of each call stands at the call's rank. */
  lemma {:induction false} EveryHandlerHasItsPlace<H>(calls: seq<OnCall<H>>, route: string, i: nat)
    requires i < |calls| && calls[i].route == route
    ensures |Given(calls, route)| == Rank(calls, route, |calls|)
    ensures Rank(calls, route, i) < |Given(calls, route)|
    ensures Given(calls, route)[Rank(calls, route, i)] == calls[i].handler
  {
    assert calls[..|calls|] == calls && calls[..i + 1][..i] == calls[..i];
    GivenAsManyAsCalled(calls, route, |calls|);
    GivenAsManyAsCalled(calls, route, i);
    GivenGrows(calls, route, i + 1, |calls|);
  }

  class Pipeline<M, H> {
    var middlewares: seq<M>
    var handlers: map<string, seq<H>>
    var cache: map<string, CacheEntry<M, H>>
    var generation: nat
    /** The calls of On so far. */
    ghost var calls: seq<OnCall<H>>

    /**
     * The table holds what On was given; an entry of the current generation is what a rebuild would give; no entry
     * is from the future.
     */
    ghost predicate Valid()
      reads this
    {
      && (forall route :: Given(calls, route) == if route in handlers then handlers[route] else [])
      && (forall route :: route in cache ==>
            && cache[route].generation <= generation
            && (cache[route].generation == generation ==>
                  cache[route].handlers == Fresh(middlewares, Given(calls, route), route)))
    }

    constructor ()
      ensures Valid() && middlewares == [] && calls == []
    {
      middlewares, handlers, cache, generation := [], map[], map[], 0;
      calls := [];
    }

    method Use(m: M)
      requires Valid()
      modifies this
      ensures Valid() && middlewares == old(middlewares) + [m] && calls == old(calls)
    {
      middlewares := middlewares + [m];
      generation := generation + 1;
    }

    method On(route: string, handler: H)
      requires Valid()
      modifies this
      ensures Valid() && middlewares == old(middlewares) && calls == old(calls) + [OnCall(route, handler)]
    {
      var before := if route in handlers then handlers[route] else [];
      handlers := handlers[route := before + [handler]];
      cache := cache - {route};
      calls := calls + [OnCall(route, handler)];
      assert calls[..|calls| - 1] == old(calls);
      assert forall r :: Given(calls, r) == if r == route then Given(old(calls), r) + [handler] else Given(old(calls), r);
    }

    /** Caching is invisible: every call returns what a fresh build from the calls of Use and On would. */
    method GetHandlers(route: string) returns (r: seq<Chain<M, H>>)
      requires Valid()
      modifies this`cache
      ensures Valid()
      ensures r == Fresh(middlewares, Given(calls, route), route)
    {
      if route in cache && cache[route].generation == generation {
        return cache[route].handlers;
      }
      var hs := if route in handlers then handlers[route] else [];
      assert hs == Given(calls, route);
      if |hs| == 0 && route != "" {
        cache := cache[route := CacheEntry([], generation)];
        return [];
      }
      var chain: Chain<M, H> := Nothing;
      var i := |hs|;
      while i > 0
        invariant 0 <= i <= |hs| && chain == HandlerChain(hs[i..])
      {
        i := i - 1;
        assert hs[i..][1..] == hs[i + 1..];
        chain := if chain.Nothing? then Run(hs[i]) else Then(hs[i], chain);
      }
      assert hs[0..] == hs;
      ghost var inner := chain;
      i := |middlewares|;
      while i > 0
        invariant 0 <= i <= |middlewares| && chain == WrapAll(middlewares[i..], inner)
      {
        i := i - 1;
        assert middlewares[i..][1..] == middlewares[i + 1..];
        chain := Wrap(middlewares[i], chain);
      }
      assert middlewares[0..] == middlewares;
      cache := cache[route := CacheEntry([chain], generation)];
      return [chain];
    }
  }

  // ---- Context.Next ----

  /** The numbers from a up to but not including b. */
  function Range(a: int, b: int): (r: seq<int>)
    ensures |r| == if a < b then b - a else 0
    ensures forall k :: 0 <= k < |r| ==> r[k] == a + k
    decreases b - a
  {
    if a >= b then [] else Range(a, b - 1) + [b - 1]
  }

  class Context {
    /** For each handler, how often its body calls Next. */
    const nextCalls: seq<nat>
    var index: int
    /** The handlers started so far. */
    var log: seq<int>

    constructor (nextCalls: seq<nat>)
      ensures this.nextCalls == nextCalls && index == -1 && log == []
    {
      this.nextCalls := nextCalls;
      index, log := -1, [];
    }

    function Left(): nat
      reads this
    {
      if index < |nextCalls| && index >= -1 then |nextCalls| - index else 0
    }

    /** Each remaining handler is run exactly once, in order, however often handlers call Next themselves. */
    method Next()
      requires index >= -1
      modifies this
      ensures index > old(index) && index >= |nextCalls|
      ensures log == old(log) + Range(old(index) + 1, |nextCalls|)
      decreases Left(), 0
    {
      ghost var from, n := index + 1, |nextCalls|;
      index := index + 1;
      while index < |nextCalls|
        invariant index >= from
        invariant log == old(log) + Range(from, if index < n then index else n)
        decreases Left()
      {
        CallHandler();
        index := index + 1;
      }
    }

    /** The call c.handlers[c.index](c). */
    method CallHandler()
      requires 0 <= index < |nextCalls|
      modifies this
      ensures if nextCalls[old(index)] == 0
              then index == old(index) && log == old(log) + [index]
              else index >= |nextCalls| && log == old(log) + Range(old(index), |nextCalls|)
      decreases Left(), 1
    {
      var i := index;
      log := log + [i];
      for k := 0 to nextCalls[i]
        invariant k == 0 ==> index == i && log == old(log) + [i]
        invariant k > 0 ==> index >= |nextCalls| && log == old(log) + Range(i, |nextCalls|)
      {
        ghost var from := index;
        Next();
        if k == 0 {
          assert Range(i, i + 1) == [i];
        } else {
          assert Range(from + 1, |nextCalls|) == [];
        }
      }
    }
  }
}
