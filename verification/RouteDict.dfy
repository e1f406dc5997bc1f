/** The route dictionary shared by codec/codec.go and route/route.go: 16-bit ids handed out by a wrapping counter. */
module RouteDict {
  import opened Bytes
  import opened Prelude

  type Route = seq<Byte>

  datatype Dict = Dict(routes: map<Route, nat>, ids: map<nat, Route>, nextId: nat)

  const EMPTY := Dict(map[], map[], 0)

  /** RegisterRoute (and Compressor.Register, Compressor.Compress): a known route keeps its id. */
  function Register(d: Dict, route: Route): Dict {
    if route in d.routes then d
    else
      var id := (d.nextId + 1) % TWO_16;
      Dict(d.routes[route := id], d.ids[id := route], id)
  }

  function RegisterAll(d: Dict, routes: seq<Route>): Dict {
    if routes == [] then d
    else Register(RegisterAll(d, routes[..|routes| - 1]), routes[|routes| - 1])
  }

  /** Every registered route is what its id stands for. */
  ghost predicate Resolves(d: Dict) {
    forall r :: r in d.routes ==> d.routes[r] in d.ids && d.ids[d.routes[r]] == r
  }

  /** Reached by registrations; until the ids run out they are 1, 2, ... 65535, 0 in order. */
  ghost predicate Sound(d: Dict) {
    && d.nextId == |d.routes| % TWO_16
    && (forall r :: r in d.routes ==> d.routes[r] < TWO_16)
    && (|d.routes| <= TWO_16 ==>
          && Resolves(d)
          && forall id :: id in d.ids ==> 1 <= id <= |d.routes| || (id == 0 && |d.routes| == TWO_16))
  }

  lemma {:induction false} RegisterIsSound(d: Dict, route: Route)
    requires Sound(d)
    ensures Sound(Register(d, route))
  {
    if route !in d.routes {
      var n := |d.routes|;
      var id := (d.nextId + 1) % TWO_16;
      assert |d.routes[route := id]| == n + 1;
      CounterStep(n);
      assert n < TWO_16 ==> id !in d.ids;
    }
  }

  lemma CounterStep(n: nat)
    ensures (n % TWO_16 + 1) % TWO_16 == (n + 1) % TWO_16
    ensures n < TWO_16 ==> (n + 1) % TWO_16 == if n + 1 == TWO_16 then 0 else n + 1
  {
  }

  lemma {:induction false} RegisterAllIsSound(d: Dict, routes: seq<Route>)
    requires Sound(d)
    ensures Sound(RegisterAll(d, routes))
    ensures forall r :: r in d.routes ==>
              r in RegisterAll(d, routes).routes && RegisterAll(d, routes).routes[r] == d.routes[r]
    ensures forall r :: r in routes ==> r in RegisterAll(d, routes).routes
    decreases |routes|
  {
    if routes != [] {
      var before, last := routes[..|routes| - 1], routes[|routes| - 1];
      RegisterAllIsSound(d, before);
      RegisterIsSound(RegisterAll(d, before), last);
      assert routes == before + [last];
    }
  }

  /** A map into 0 .. n-1 that can be undone has at most n entries. */
  lemma {:induction false} Pigeonhole(m: map<Route, nat>, back: map<nat, Route>, n: nat)
    requires forall r :: r in m ==> m[r] < n && m[r] in back && back[m[r]] == r
    ensures |m| <= n
    decreases n
  {
    if n == 0 {
      assert m.Keys == {};
    } else if n - 1 in back {
      var rest := m - {back[n - 1]};
      assert rest.Keys == m.Keys - {back[n - 1]};
      Pigeonhole(rest, back, n - 1);
    } else {
      Pigeonhole(m, back, n - 1);
    }
  }

  /** Ids stand for their routes exactly as long as there are no more routes than ids. */
  lemma {:induction false} ResolvesUntilIdsRunOut(routes: seq<Route>)
    ensures Resolves(RegisterAll(EMPTY, routes)) <==> |RegisterAll(EMPTY, routes).routes| <= TWO_16
  {
    var d := RegisterAll(EMPTY, routes);
    RegisterAllIsSound(EMPTY, routes);
    if Resolves(d) {
      Pigeonhole(d.routes, d.ids, TWO_16);
    }
  }

  /** An id given out earlier still stands for its route after any further registrations. */
  lemma {:induction false} IdsAreStable(d: Dict, more: seq<Route>, route: Route)
    requires Sound(d) && route in d.routes
    requires |RegisterAll(d, more).routes| <= TWO_16
    ensures var later := RegisterAll(d, more);
            && route in later.routes && later.routes[route] == d.routes[route]
            && d.routes[route] in later.ids && later.ids[d.routes[route]] == route
  {
    RegisterAllIsSound(d, more);
  }

  // ---- route.RouterTable ----

  datatype Table<H> = Table(dict: Dict, handlers: map<Route, H>)

  function RegisterId<H>(t: Table<H>, route: Route, handler: H): Table<H> {
    Table(Register(t.dict, route), t.handlers[route := handler])
  }

  function HandlerById<H>(t: Table<H>, id: nat): Option<H> {
    if id in t.dict.ids && t.dict.ids[id] in t.handlers then Some(t.handlers[t.dict.ids[id]]) else None
  }

  datatype Entry<H> = Entry(route: Route, handler: H)

  function RegisterEntries<H>(entries: seq<Entry<H>>): Table<H> {
    if entries == [] then Table(EMPTY, map[])
    else
      var last := entries[|entries| - 1];
      RegisterId(RegisterEntries(entries[..|entries| - 1]), last.route, last.handler)
  }

  lemma {:induction false} TableIsSound<H>(entries: seq<Entry<H>>)
    ensures Sound(RegisterEntries(entries).dict)
    ensures RegisterEntries(entries).handlers.Keys == RegisterEntries(entries).dict.routes.Keys
    decreases |entries|
  {
    if entries != [] {
      TableIsSound(entries[..|entries| - 1]);
      RegisterIsSound(RegisterEntries(entries[..|entries| - 1]).dict, entries[|entries| - 1].route);
    }
  }

  /** The id returned for a route finds the handler registered for it last. */
  lemma {:induction false} LastHandlerIsFoundById<H>(entries: seq<Entry<H>>, i: nat)
    requires i < |entries|
    requires forall j :: i < j < |entries| ==> entries[j].route != entries[i].route
    requires |RegisterEntries(entries).dict.routes| <= TWO_16
    ensures var t := RegisterEntries(entries);
            && entries[i].route in t.dict.routes
            && HandlerById(t, t.dict.routes[entries[i].route]) == Some(entries[i].handler)
  {
    TableIsSound(entries);
    LastHandler(entries, i);
  }

  /** All ids up to the number of routes have been handed out. */
  ghost predicate NoGaps(d: Dict) {
    forall id :: 1 <= id <= |d.routes| ==> id in d.ids && d.ids[id] in d.routes
  }

  lemma {:induction false} RegisterCounts(d: Dict, route: Route)
    requires d.nextId == |d.routes| % TWO_16 && route !in d.routes && |d.routes| + 1 < TWO_16
    ensures var t := Register(d, route);
            |t.routes| == |d.routes| + 1 == t.nextId && t.ids == d.ids[|d.routes| + 1 := route]
  {
    RoutesGrow(d, route);
    SmallNumber(|d.routes|);
    SmallNumber(|d.routes| + 1);
  }

  lemma {:induction false} SmallNumber(n: nat)
    requires n < TWO_16
    ensures n % TWO_16 == n
  {
  }

  lemma {:induction false} RegisterLeavesNoGaps(d: Dict, route: Route)
    requires Sound(d) && NoGaps(d) && |d.routes| + 1 < TWO_16
    ensures NoGaps(Register(d, route))
  {
    if route !in d.routes {
      RegisterCounts(d, route);
      var t := Register(d, route);
      forall id | 1 <= id <= |t.routes| ensures id in t.ids && t.ids[id] in t.routes {
        assert id <= |d.routes| ==> id in d.ids && d.ids[id] in d.routes;
      }
    }
  }

  lemma {:induction false} RoutesGrow(d: Dict, route: Route)
    ensures |Register(d, route).routes| == |d.routes| + if route in d.routes then 0 else 1
  {
    if route !in d.routes {
      assert Register(d, route).routes.Keys == d.routes.Keys + {route};
    }
  }

  lemma {:induction false} TableHasNoGaps<H>(entries: seq<Entry<H>>)
    requires |RegisterEntries(entries).dict.routes| < TWO_16
    ensures NoGaps(RegisterEntries(entries).dict)
    decreases |entries|
  {
    if entries != [] {
      var before, route := entries[..|entries| - 1], entries[|entries| - 1].route;
      TableIsSound(before);
      RoutesGrow(RegisterEntries(before).dict, route);
      TableHasNoGaps(before);
      if route !in RegisterEntries(before).dict.routes {
        RegisterLeavesNoGaps(RegisterEntries(before).dict, route);
      }
    }
  }

  /** An id has a handler exactly if it was handed out, which until they run out are those from 1 to the number of routes. */
  lemma {:induction false} HandlerExactlyForIdsInUse<H>(entries: seq<Entry<H>>, id: nat)
    requires |RegisterEntries(entries).dict.routes| < TWO_16
    ensures HandlerById(RegisterEntries(entries), id).Some? <==> 1 <= id <= |RegisterEntries(entries).dict.routes|
  {
    TableIsSound(entries);
    TableHasNoGaps(entries);
  }

  lemma {:induction false} LastHandler<H>(entries: seq<Entry<H>>, i: nat)
    requires i < |entries|
    requires forall j :: i < j < |entries| ==> entries[j].route != entries[i].route
    ensures entries[i].route in RegisterEntries(entries).handlers
    ensures RegisterEntries(entries).handlers[entries[i].route] == entries[i].handler
    decreases |entries|
  {
    if i < |entries| - 1 {
      LastHandler(entries[..|entries| - 1], i);
    }
  }

  class Compressor {
    var routes: map<Route, nat>
    var ids: map<nat, Route>
    var nextId: nat

    ghost function State(): Dict
      reads this
    {
      Dict(routes, ids, nextId)
    }

    constructor ()
      ensures State() == EMPTY
    {
      routes, ids, nextId := map[], map[], 0;
    }

    /** Compress, and Register, whose body is the same. */
    method Compress(route: Route) returns (id: nat)
      modifies this
      ensures State() == Register(old(State()), route)
      ensures route in routes && id == routes[route]
    {
      if route in routes {
        return routes[route];
      }
      nextId := (nextId + 1) % TWO_16;
      id := nextId;
      routes := routes[route := id];
      ids := ids[id := route];
    }

    /** None stands for the empty string of Decompress, or the false of GetRoute. */
    method GetRoute(id: nat) returns (route: Option<Route>)
      ensures route == if id in ids then Some(ids[id]) else None
      ensures Sound(State()) && |routes| <= TWO_16 ==>
                forall r :: r in routes && routes[r] == id ==> route == Some(r)
    {
      route := if id in ids then Some(ids[id]) else None;
    }
  }

  class RouterTable<H> {
    const compressor: Compressor
    var handlers: map<Route, H>

    ghost function State(): Table<H>
      reads this, compressor
    {
      Table(compressor.State(), handlers)
    }

    constructor ()
      ensures State() == Table(EMPTY, map[]) && fresh(compressor)
    {
      compressor := new Compressor();
      handlers := map[];
    }

    method RegisterID(route: Route, handler: H) returns (id: nat)
      modifies this, compressor
      ensures State() == RegisterId(old(State()), route, handler)
      ensures route in compressor.routes && id == compressor.routes[route]
    {
      id := compressor.Compress(route);
      handlers := handlers[route := handler];
    }

    method GetHandlerByID(id: nat) returns (handler: Option<H>)
      ensures handler == HandlerById(State(), id)
    {
      var route := compressor.GetRoute(id);
      handler := if route.Some? && route.value in handlers then Some(handlers[route.value]) else None;
    }
  }
}
