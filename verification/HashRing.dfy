/** The consistent-hash ring of selector/selector.go. */
module HashRing {
  import opened Prelude
  import opened Decimals

  datatype ServerInfo = ServerInfo(id: string, serverType: string, host: string, port: int)

  function Address(server: ServerInfo): string {
    server.host + ":" + Decimal(server.port)
  }

  /** Two servers have the same address exactly if they have the same host and the same port. */
  lemma {:induction false} AddressIsHostAndPort(x: ServerInfo, y: ServerInfo)
    ensures Address(x) == Address(y) <==> x.host == y.host && x.port == y.port
  {
    DecimalHas(x.port, ':');
    DecimalHas(y.port, ':');
    DecimalIsInjective(x.port, y.port);
    if Address(x) == Address(y) {
      CutAtLast(x.host, Decimal(x.port), y.host, Decimal(y.port), ':');
    }
  }

  /** The key hashed for one replica of an address. */
  function ReplicaKey(address: string, i: nat): string {
    address + "-" + Decimal(i)
  }

  /** Every replica of every server has a key of its own. */
  lemma {:induction false} ReplicaKeysAreDistinct(x: ServerInfo, i: nat, y: ServerInfo, j: nat)
    ensures ReplicaKey(Address(x), i) == ReplicaKey(Address(y), j)
       <==> x.host == y.host && x.port == y.port && i == j
  {
    AddressIsHostAndPort(x, y);
    DecimalHas(i, '-');
    DecimalHas(j, '-');
    DecimalIsInjective(i, j);
    if ReplicaKey(Address(x), i) == ReplicaKey(Address(y), j) {
      CutAtLast(Address(x), Decimal(i), Address(y), Decimal(j), '-');
    }
  }

  /** Go's conversion to int64. */
  function Wrap64(x: int): int {
    (x + 0x8000_0000_0000_0000) % 0x1_0000_0000_0000_0000 - 0x8000_0000_0000_0000
  }

  /** defaultHash, taken for a nil hash function: h = h*31 + c over the characters, in int64. */
  function DefaultHash(key: string): int {
    if key == "" then 0 else Wrap64(DefaultHash(key[..|key| - 1]) * 31 + key[|key| - 1] as int)
  }

  /** The same polynomial without a limit on its size. */
  function Polynomial(key: string): int {
    if key == "" then 0 else Polynomial(key[..|key| - 1]) * 31 + key[|key| - 1] as int
  }

  /** The default hash is that polynomial reduced to an int64: in range, and a multiple of 2^64 away. */
  lemma {:induction false} DefaultHashIsThePolynomial(key: string) returns (k: int)
    ensures -0x8000_0000_0000_0000 <= DefaultHash(key) < 0x8000_0000_0000_0000
    ensures DefaultHash(key) == Polynomial(key) + k * 0x1_0000_0000_0000_0000
    decreases |key|
  {
    k := 0;
    if key != "" {
      var n := |key| - 1;
      var j := DefaultHashIsThePolynomial(key[..n]);
      var x := DefaultHash(key[..n]) * 31 + key[n] as int;
      k := 31 * j - (x + 0x8000_0000_0000_0000) / 0x1_0000_0000_0000_0000;
    }
  }

  /** Keys that collide still collide with anything appended. */
  lemma {:induction false} CollisionsExtend(x: string, y: string, t: string)
    requires DefaultHash(x) == DefaultHash(y)
    ensures DefaultHash(x + t) == DefaultHash(y + t)
    decreases |t|
  {
    if t == "" {
      assert x + t == x && y + t == y;
    } else {
      var n := |t| - 1;
      CollisionsExtend(x, y, t[..n]);
      assert (x + t)[..|x + t| - 1] == x + t[..n] && (y + t)[..|y + t| - 1] == y + t[..n];
    }
  }

  /** The replica points of an address: `replicas` of them, wherever the hash function puts them. */
  function Points(replicas: nat, hash: string -> int, address: string): (points: seq<int>)
    ensures |points| == replicas
    ensures forall i :: 0 <= i < replicas ==> points[i] == hash(ReplicaKey(address, i))
  {
    seq(replicas, i requires 0 <= i => hash(ReplicaKey(address, i)))
  }

  /** A placement: any map from addresses to points, so any hash function, collisions included. */
  type Placement = string -> seq<int>

  datatype Ring = Ring(ring: map<int, string>, keys: seq<int>, nodes: map<string, ServerInfo>)

  const EMPTY := Ring(map[], [], map[])

  function ToSet(s: seq<int>): set<int> {
    set x | x in s
  }

  // ---- Sorted keys ----

  predicate Sorted(s: seq<int>) {
    forall i, j :: 0 <= i < j < |s| ==> s[i] <= s[j]
  }

  function Insert(x: int, s: seq<int>): (r: seq<int>)
    requires Sorted(s)
    ensures Sorted(r) && forall y :: y in r <==> y == x || y in s
  {
    if s == [] || x <= s[0] then
      SortedCons(x, s);
      [x] + s
    else
      var r := Insert(x, s[1..]);
      SortedCons(s[0], r);
      [s[0]] + r
  }

  lemma SortedCons(x: int, s: seq<int>)
    ensures Sorted(s) && (forall y :: y in s ==> x <= y) ==> Sorted([x] + s)
  {
    var r := [x] + s;
    forall i, j | 0 <= i < j < |r| && Sorted(s) && (forall y :: y in s ==> x <= y)
      ensures r[i] <= r[j]
    {
      assert r[j] == s[j - 1] && s[j - 1] in s;
      assert i > 0 ==> r[i] == s[i - 1];
    }
  }

  /** What sort.Slice leaves behind. */
  function Sort(s: seq<int>): (r: seq<int>)
    ensures Sorted(r) && forall y :: y in r <==> y in s
  {
    if s == [] then [] else Insert(s[0], Sort(s[1..]))
  }

  function Without(s: seq<int>, drop: set<int>): (r: seq<int>)
    ensures forall y :: y in r <==> y in s && y !in drop
    ensures Sorted(s) ==> Sorted(r)
  {
    if s == [] then []
    else
      var r := Without(s[1..], drop);
      SortedCons(s[0], r);
      if s[0] in drop then r else [s[0]] + r
  }

  /** How many entries of s lie in `these`; with singletons it counts each value. */
  function Count(s: seq<int>, these: set<int>): (n: nat)
    ensures n <= |s|
  {
    if s == [] then 0 else (if s[0] in these then 1 else 0) + Count(s[1..], these)
  }

  lemma {:induction false} InsertCounts(x: int, s: seq<int>, these: set<int>)
    requires Sorted(s)
    ensures Count(Insert(x, s), these) == Count([x] + s, these)
  {
    if s != [] && x > s[0] {
      InsertCounts(x, s[1..], these);
    }
  }

  /** Sorting loses and invents nothing. */
  lemma {:induction false} SortCounts(s: seq<int>, these: set<int>)
    ensures Count(Sort(s), these) == Count(s, these)
  {
    if s != [] {
      SortCounts(s[1..], these);
      InsertCounts(s[0], Sort(s[1..]), these);
    }
  }

  lemma {:induction false} CountConcat(s: seq<int>, t: seq<int>, these: set<int>)
    ensures Count(s + t, these) == Count(s, these) + Count(t, these)
  {
    if s == [] {
      assert s + t == t;
    } else {
      assert (s + t)[1..] == s[1..] + t;
      CountConcat(s[1..], t, these);
    }
  }

  lemma {:induction false} CountAll(s: seq<int>)
    ensures forall these :: ToSet(s) <= these ==> Count(s, these) == |s|
  {
    if s != [] {
      CountAll(s[1..]);
      assert ToSet(s[1..]) <= ToSet(s) && s[0] in ToSet(s);
    }
  }

  lemma {:induction false} CountWithout(s: seq<int>, drop: set<int>, these: set<int>)
    requires drop !! these
    ensures Count(Without(s, drop), these) == Count(s, these)
  {
    if s != [] {
      CountWithout(s[1..], drop, these);
    }
  }

  lemma {:induction false} WithoutInsert(x: int, s: seq<int>, drop: set<int>)
    requires Sorted(s)
    ensures Without(Insert(x, s), drop) ==
            if x in drop then Without(s, drop) else Insert(x, Without(s, drop))
  {
    if s != [] && x > s[0] {
      WithoutInsert(x, s[1..], drop);
    } else if s != [] {
      var r := Without(s, drop);
      assert r != [] ==> r[0] in s;
      assert ([x] + s)[1..] == s;
    }
  }

  lemma {:induction false} WithoutSort(s: seq<int>, drop: set<int>)
    ensures Without(Sort(s), drop) == Sort(Without(s, drop))
  {
    if s != [] {
      WithoutSort(s[1..], drop);
      WithoutInsert(s[0], Sort(s[1..]), drop);
    }
  }

  lemma {:induction false} SortOfSorted(s: seq<int>)
    requires Sorted(s)
    ensures Sort(s) == s
  {
    if s != [] {
      SortOfSorted(s[1..]);
    }
  }

  lemma {:induction false} WithoutConcat(keys: seq<int>, added: seq<int>, drop: set<int>)
    requires ToSet(keys) !! drop && ToSet(added) <= drop
    ensures Without(keys + added, drop) == keys
  {
    if keys != [] {
      assert keys[0] in ToSet(keys) && ToSet(keys[1..]) <= ToSet(keys);
      assert (keys + added)[1..] == keys[1..] + added;
      WithoutConcat(keys[1..], added, drop);
    } else if added != [] {
      assert added[0] in ToSet(added) && ToSet(added[1..]) <= ToSet(added);
      assert (keys + added)[1..] == keys + added[1..];
      WithoutConcat(keys, added[1..], drop);
    }
  }

  // ---- Adding and removing ----

  /** The ring after `a` was written at each of the points in turn. */
  function Write(ring: map<int, string>, points: seq<int>, a: string): (r: map<int, string>)
    ensures forall p :: p in r <==> p in ring || p in points
    ensures forall p :: p in r ==> r[p] == if p in points then a else ring[p]
  {
    if points == [] then ring else Write(ring, points[..|points| - 1], a)[points[|points| - 1] := a]
  }

  function Add(place: Placement, s: Ring, a: string, server: ServerInfo): Ring {
    Ring(Write(s.ring, place(a), a), Sort(s.keys + place(a)), s.nodes[a := server])
  }

  function Remove(place: Placement, s: Ring, a: string): Ring {
    Ring(s.ring - ToSet(place(a)), Without(s.keys, ToSet(place(a))), s.nodes - {a})
  }

  ghost predicate Valid(place: Placement, s: Ring) {
    && Sorted(s.keys)
    && ToSet(s.keys) == s.ring.Keys
    && (forall p :: p in s.ring ==> s.ring[p] in s.nodes && p in place(s.ring[p]))
  }

  lemma SortedSet(s: seq<int>, t: seq<int>)
    ensures ToSet(Sort(s + t)) == ToSet(s) + ToSet(t)
  {
  }

  lemma WithoutSet(s: seq<int>, drop: set<int>)
    ensures ToSet(Without(s, drop)) == ToSet(s) - drop
  {
  }

  lemma AddValid(place: Placement, s: Ring, a: string, server: ServerInfo)
    requires Valid(place, s)
    ensures Valid(place, Add(place, s, a, server))
    ensures Add(place, s, a, server).ring.Keys == s.ring.Keys + ToSet(place(a))
  {
    SortedSet(s.keys, place(a));
  }

  lemma RemoveValid(place: Placement, s: Ring, a: string)
    requires Valid(place, s)
    ensures Valid(place, Remove(place, s, a))
    ensures Remove(place, s, a).ring.Keys == s.ring.Keys - ToSet(place(a))
  {
    WithoutSet(s.keys, ToSet(place(a)));
  }

  // ---- Selection ----

  /** The point met first when going clockwise from h, with wrap-around, among `points`. */
  ghost predicate Clockwise(points: set<int>, h: int, p: int) {
    && p in points
    && if exists q :: q in points && q >= h
       then p >= h && forall q :: q in points && q >= h ==> p <= q
       else forall q :: q in points ==> p <= q
  }

  /** The linear scan over the sorted keys. */
  function Scan(keys: seq<int>, h: int, first: int): int {
    if keys == [] then first
    else if keys[0] >= h then keys[0]
    else Scan(keys[1..], h, first)
  }

  function Closest(keys: seq<int>, h: int): int {
    if keys == [] then h else Scan(keys, h, keys[0])
  }

  lemma {:induction false} ScanFinds(keys: seq<int>, h: int, first: int, idx: nat)
    requires idx <= |keys|
    requires forall i :: 0 <= i < idx ==> keys[i] < h
    requires idx < |keys| ==> keys[idx] >= h
    ensures Scan(keys, h, first) == if idx < |keys| then keys[idx] else first
    decreases |keys|
  {
    if keys != [] && idx > 0 {
      ScanFinds(keys[1..], h, first, idx - 1);
    }
  }

  lemma {:induction false} ScanIsClockwise(keys: seq<int>, h: int)
    requires Sorted(keys) && keys != []
    ensures Clockwise(ToSet(keys), h, Closest(keys, h))
  {
    var idx := 0;
    while idx < |keys| && keys[idx] < h
      invariant idx <= |keys|
      invariant forall i :: 0 <= i < idx ==> keys[i] < h
    {
      idx := idx + 1;
    }
    ScanFinds(keys, h, keys[0], idx);
    if idx < |keys| {
      assert keys[idx] in ToSet(keys) && keys[idx] >= h;
    } else {
      assert keys[0] in ToSet(keys);
    }
  }

  /** The address that owns position h of the ring. */
  function Owner(s: Ring, h: int): Option<string> {
    var p := Closest(s.keys, h);
    if s.ring != map[] && p in s.ring then Some(s.ring[p]) else None
  }

  function Choice(s: Ring, h: int): Option<ServerInfo> {
    match Owner(s, h)
    case Some(a) => if a in s.nodes then Some(s.nodes[a]) else None
    case None => None
  }

  lemma ClockwiseIsUnique(points: set<int>, h: int, p: int, q: int)
    requires Clockwise(points, h, p) && Clockwise(points, h, q)
    ensures p == q
  {
  }

  lemma {:induction false} OwnerAt(place: Placement, s: Ring, h: int, p: int)
    requires Valid(place, s) && Clockwise(s.ring.Keys, h, p)
    ensures Owner(s, h) == Some(s.ring[p]) && Choice(s, h) == Some(s.nodes[s.ring[p]])
  {
    assert p in ToSet(s.keys);
    ScanIsClockwise(s.keys, h);
    ClockwiseIsUnique(s.ring.Keys, h, p, Closest(s.keys, h));
  }

  lemma {:induction false} ClockwisePoint(place: Placement, s: Ring, h: int) returns (p: int)
    requires Valid(place, s) && s.ring != map[]
    ensures Clockwise(s.ring.Keys, h, p)
    ensures Owner(s, h) == Some(s.ring[p]) && Choice(s, h) == Some(s.nodes[s.ring[p]])
  {
    var q :| q in s.ring.Keys;
    assert q in ToSet(s.keys);
    ScanIsClockwise(s.keys, h);
    p := Closest(s.keys, h);
    OwnerAt(place, s, h, p);
  }

  // ---- Only the keys that must move do ----

  /** Adding a server, even at points already taken, moves a key to that server or not at all. */
  lemma {:induction false} AddMovesOnlyToTheNewServer(
      place: Placement, s: Ring, a: string, server: ServerInfo, h: int)
    requires Valid(place, s)
    ensures Owner(Add(place, s, a, server), h) in {Owner(s, h), Some(a)}
    ensures Choice(Add(place, s, a, server), h) in {Choice(s, h), Some(server)}
  {
    var t := Add(place, s, a, server);
    AddValid(place, s, a, server);
    if t.ring == map[] {
      assert s.ring.Keys <= t.ring.Keys;
      assert s.ring == map[];
    } else {
      var p := ClockwisePoint(place, t, h);
      if p !in ToSet(place(a)) {
        SmallerCircle(t.ring.Keys, s.ring.Keys, h, p);
        OwnerAt(place, s, h, p);
      }
    }
  }

  /** The point met first stays first when others are taken away. */
  lemma SmallerCircle(points: set<int>, some: set<int>, h: int, p: int)
    requires Clockwise(points, h, p) && some <= points && p in some
    ensures Clockwise(some, h, p)
  {
  }

  /** Leaving a removed point p, the next survivor met from h is the one met from p itself. */
  lemma HopFromPoint(points: set<int>, left: set<int>, h: int, p: int, n: int)
    requires Clockwise(points, h, p) && left <= points
    ensures Clockwise(left, h, n) <==> Clockwise(left, p, n)
  {
    if exists q :: q in points && q >= h {
      assert forall q :: q in left ==> (q >= h <==> q >= p);
    } else {
      assert forall q :: q in left ==> q >= p && q < h;
    }
  }

  /** Removing the server at `a` leaves every position owned by another server where it was. */
  ghost predicate OthersUnmoved(place: Placement, s: Ring, a: string) {
    forall h :: Owner(s, h) != Some(a) ==> Owner(Remove(place, s, a), h) == Owner(s, h)
  }

  /** Every point of `a` that another server has taken over is followed by a surviving point of the same owner. */
  ghost predicate TakenPointsFallBack(place: Placement, s: Ring, a: string) {
    forall p :: p in place(a) && p in s.ring && s.ring[p] != a ==>
      exists n :: n in s.ring && Clockwise(s.ring.Keys - ToSet(place(a)), p, n) && s.ring[n] == s.ring[p]
  }

  lemma {:induction false} TakenPointsFallBackSuffices(place: Placement, s: Ring, a: string, h: int)
    requires Valid(place, s) && TakenPointsFallBack(place, s, a)
    requires Owner(s, h) != Some(a)
    ensures Owner(Remove(place, s, a), h) == Owner(s, h)
    ensures Choice(Remove(place, s, a), h) == Choice(s, h)
  {
    var t := Remove(place, s, a);
    RemoveValid(place, s, a);
    if s.ring == map[] {
      assert t.ring == map[];
    } else {
      var p := ClockwisePoint(place, s, h);
      var n := p;
      if p in place(a) {
        n :| n in s.ring && Clockwise(t.ring.Keys, p, n) && s.ring[n] == s.ring[p];
        HopFromPoint(s.ring.Keys, t.ring.Keys, h, p, n);
      } else {
        SmallerCircle(s.ring.Keys, t.ring.Keys, h, p);
      }
      OwnerAt(place, t, h, n);
    }
  }

  lemma {:induction false} TakenPointsFallBackNeeded(place: Placement, s: Ring, a: string, p: int) returns (n: int)
    requires Valid(place, s) && OthersUnmoved(place, s, a)
    requires p in s.ring && s.ring[p] != a
    ensures n in s.ring && Clockwise(s.ring.Keys - ToSet(place(a)), p, n) && s.ring[n] == s.ring[p]
  {
    var t := Remove(place, s, a);
    RemoveValid(place, s, a);
    assert Clockwise(s.ring.Keys, p, p);
    OwnerAt(place, s, p, p);
    assert Owner(t, p) == Some(s.ring[p]);
    n := ClockwisePoint(place, t, p);
  }

  /** Exactly when removal moves only the keys the removed server owned. */
  lemma {:induction false} RemoveMovesOnlyItsOwnKeys(place: Placement, s: Ring, a: string)
    requires Valid(place, s)
    ensures OthersUnmoved(place, s, a) <==> TakenPointsFallBack(place, s, a)
  {
    if TakenPointsFallBack(place, s, a) {
      forall h | Owner(s, h) != Some(a) ensures Owner(Remove(place, s, a), h) == Owner(s, h) {
        TakenPointsFallBackSuffices(place, s, a, h);
      }
    }
    if OthersUnmoved(place, s, a) {
      forall p | p in place(a) && p in s.ring && s.ring[p] != a
        ensures exists n :: n in s.ring && Clockwise(s.ring.Keys - ToSet(place(a)), p, n) && s.ring[n] == s.ring[p]
      {
        var n := TakenPointsFallBackNeeded(place, s, a, p);
      }
    }
  }

  ghost predicate SharesNoPoint(place: Placement, s: Ring, a: string) {
    forall b :: b in s.nodes && b != a ==> ToSet(place(a)) !! ToSet(place(b))
  }

  /** The caller's usual case: a server that shares no point with another live one. */
  lemma {:induction false} UnsharedRemovalMovesOnlyItsOwnKeys(place: Placement, s: Ring, a: string, h: int)
    requires Valid(place, s) && SharesNoPoint(place, s, a)
    requires Owner(s, h) != Some(a)
    ensures Choice(Remove(place, s, a), h) == Choice(s, h)
  {
    forall p | p in place(a) && p in s.ring ensures s.ring[p] == a {
      assert p in ToSet(place(a)) && p in ToSet(place(s.ring[p]));
    }
    TakenPointsFallBackSuffices(place, s, a, h);
  }

  /** Adding and then removing gives back the very same ring exactly for a new address at unused points. */
  lemma {:induction false} AddThenRemove(place: Placement, s: Ring, a: string, server: ServerInfo)
    requires Valid(place, s)
    ensures Remove(place, Add(place, s, a, server), a) == s
       <==> a !in s.nodes && ToSet(place(a)) !! s.ring.Keys
  {
    var u := Remove(place, Add(place, s, a, server), a);
    WriteThenErase(s.ring, place(a), a);
    InsertThenErase(s.nodes, a, server);
    if ToSet(place(a)) !! s.ring.Keys {
      DropWhatWasAdded(s.keys, place(a));
    }
  }

  lemma {:induction false} WriteThenErase(m: map<int, string>, points: seq<int>, a: string)
    ensures Write(m, points, a) - ToSet(points) == m <==> ToSet(points) !! m.Keys
  {
    var r := Write(m, points, a) - ToSet(points);
    assert forall p :: p in r <==> p in m && p !in ToSet(points);
    if r == m {
      assert forall p :: p in m ==> p in r;
    }
  }

  lemma InsertThenErase(m: map<string, ServerInfo>, a: string, server: ServerInfo)
    ensures m[a := server] - {a} == m <==> a !in m
  {
    assert a !in m[a := server] - {a};
  }

  lemma {:induction false} DropWhatWasAdded(keys: seq<int>, added: seq<int>)
    requires Sorted(keys) && ToSet(added) !! ToSet(keys)
    ensures Without(Sort(keys + added), ToSet(added)) == keys
  {
    WithoutSort(keys + added, ToSet(added));
    WithoutConcat(keys, added, ToSet(added));
    SortOfSorted(keys);
  }

  // ---- Which servers can be chosen at all ----

  /** A server is chosen for some key exactly if the ring still names it at some point. */
  lemma {:induction false} ChosenExactlyIfOnTheRing(place: Placement, s: Ring, a: string)
    requires Valid(place, s)
    ensures (exists h :: Owner(s, h) == Some(a)) <==> (exists p :: p in s.ring && s.ring[p] == a)
  {
    if h :| Owner(s, h) == Some(a) {
      var p := ClockwisePoint(place, s, h);
      assert p in s.ring && s.ring[p] == a;
    }
    if p :| p in s.ring && s.ring[p] == a {
      assert Clockwise(s.ring.Keys, p, p);
      OwnerAt(place, s, p, p);
    }
  }

  /** Adding a server at all the points of another one leaves no key to that other one, live as it is. */
  lemma {:induction false} CoveredServerIsHidden(
      place: Placement, s: Ring, a: string, b: string, server: ServerInfo, h: int)
    requires Valid(place, s) && a != b && ToSet(place(a)) <= ToSet(place(b))
    ensures Owner(Add(place, s, b, server), h) != Some(a)
    ensures a in s.nodes ==> a in Add(place, s, b, server).nodes
  {
    var t := Add(place, s, b, server);
    AddValid(place, s, b, server);
    assert forall p :: p in t.ring && p in ToSet(place(a)) ==> t.ring[p] == b;
    ChosenExactlyIfOnTheRing(place, t, a);
  }

  lemma {:induction false} BasicCollision()
    ensures DefaultHash("Aa") == DefaultHash("BB")
  {
    TwoCharacters('A', 'a');
    TwoCharacters('B', 'B');
    assert "Aa" == ['A', 'a'] && "BB" == ['B', 'B'];
  }

  lemma {:induction false} Associates(a: string, b: string, c: string)
    ensures a + b + c == a + (b + c)
  {
  }

  lemma {:induction false} KeyBehindHost(x: ServerInfo, i: nat)
    ensures ReplicaKey(Address(x), i) == x.host + (":" + Decimal(x.port) + "-" + Decimal(i))
  {
    var p, d := Decimal(x.port), Decimal(i);
    Associates(x.host, ":", p);
    Associates(x.host, ":" + p, "-");
    Associates(x.host, ":" + p + "-", d);
  }

  lemma {:induction false} CollidingReplica(x: ServerInfo, y: ServerInfo, i: nat)
    requires x.host == "Aa" && y.host == "BB" && x.port == y.port
    ensures DefaultHash(ReplicaKey(Address(x), i)) == DefaultHash(ReplicaKey(Address(y), i))
  {
    KeyBehindHost(x, i);
    KeyBehindHost(y, i);
    BasicCollision();
    CollisionsExtend(x.host, y.host, ":" + Decimal(x.port) + "-" + Decimal(i));
  }

  /** With the default hash the hosts Aa and BB share all their points, on every port. */
  lemma {:induction false} DefaultHashCollides(replicas: nat, x: ServerInfo, y: ServerInfo)
    requires x.host == "Aa" && y.host == "BB" && x.port == y.port
    ensures Address(x) != Address(y)
    ensures Points(replicas, DefaultHash, Address(x)) == Points(replicas, DefaultHash, Address(y))
  {
    AddressIsHostAndPort(x, y);
    assert x.host[0] != y.host[0];
    var a, b := Points(replicas, DefaultHash, Address(x)), Points(replicas, DefaultHash, Address(y));
    forall i | 0 <= i < replicas ensures a[i] == b[i] {
      CollidingReplica(x, y, i);
    }
  }

  lemma TwoCharacters(c: char, d: char)
    requires c < 'z' && d < 'z'
    ensures DefaultHash([c, d]) == c as int * 31 + d as int
  {
    assert [c, d][..1] == [c] && [c][..0] == [];
    assert DefaultHash([c]) == c as int;
  }

  // ---- Whole runs ----

  datatype Op = AddOp(address: string, server: ServerInfo) | RemoveOp(address: string)

  /** The slice for the surviving keys has capacity len(keys) - replicas, which Go needs to be non-negative. */
  predicate CanRemove(place: Placement, s: Ring, a: string) {
    |s.keys| >= |place(a)|
  }

  /** One call; None is Go's panic on a negative capacity. */
  function Step(place: Placement, s: Ring, op: Op): Option<Ring> {
    match op
    case AddOp(a, server) => Some(Add(place, s, a, server))
    case RemoveOp(a) => if CanRemove(place, s, a) then Some(Remove(place, s, a)) else None
  }

  function Run(place: Placement, ops: seq<Op>): Option<Ring> {
    if ops == [] then Some(EMPTY)
    else
      match Run(place, ops[..|ops| - 1])
      case None => None
      case Some(s) => Step(place, s, ops[|ops| - 1])
  }

  lemma {:induction false} RunIsValid(place: Placement, ops: seq<Op>)
    requires Run(place, ops).Some?
    ensures Valid(place, Run(place, ops).value)
    decreases |ops|
  {
    if ops != [] {
      RunIsValid(place, ops[..|ops| - 1]);
      var s := Run(place, ops[..|ops| - 1]).value;
      match ops[|ops| - 1] {
        case AddOp(a, server) => AddValid(place, s, a, server);
        case RemoveOp(a) => RemoveValid(place, s, a);
      }
    }
  }

  /** In every state a run can reach, a non-empty ring sends each position to a live server, clockwise. */
  lemma {:induction false} EveryRunSelectsALiveServer(place: Placement, ops: seq<Op>, h: int)
    ensures Run(place, ops).Some? && Run(place, ops).value.ring != map[] ==>
              var s := Run(place, ops).value;
              exists p :: Clockwise(s.ring.Keys, h, p) && p in s.ring && p in place(s.ring[p])
                          && s.ring[p] in s.nodes && Choice(s, h) == Some(s.nodes[s.ring[p]])
  {
    if Run(place, ops).Some? && Run(place, ops).value.ring != map[] {
      RunIsValid(place, ops);
      var p := ClockwisePoint(place, Run(place, ops).value, h);
    }
  }

  /** Who last wrote the point: the latest call whose server has it, if that call was an addition. */
  function LastWriter(place: Placement, ops: seq<Op>, p: int): Option<string> {
    if ops == [] then None
    else
      var op := ops[|ops| - 1];
      if p !in place(op.address) then LastWriter(place, ops[..|ops| - 1], p)
      else if op.AddOp? then Some(op.address)
      else None
  }

  lemma {:induction false} RingHoldsTheLastWriters(place: Placement, ops: seq<Op>, p: int)
    requires Run(place, ops).Some?
    ensures var ring := Run(place, ops).value.ring;
            LastWriter(place, ops, p) == if p in ring then Some(ring[p]) else None
    decreases |ops|
  {
    if ops != [] {
      RingHoldsTheLastWriters(place, ops[..|ops| - 1], p);
    }
  }

  /** Over every run: a server is chosen for some key exactly if it was the last to write one of its points. */
  lemma {:induction false} ChosenExactlyIfLastWriter(place: Placement, ops: seq<Op>, a: string)
    requires Run(place, ops).Some?
    ensures (exists h :: Owner(Run(place, ops).value, h) == Some(a))
       <==> (exists p :: LastWriter(place, ops, p) == Some(a))
  {
    var s := Run(place, ops).value;
    RunIsValid(place, ops);
    ChosenExactlyIfOnTheRing(place, s, a);
    if p :| p in s.ring && s.ring[p] == a {
      RingHoldsTheLastWriters(place, ops, p);
    }
    if p :| LastWriter(place, ops, p) == Some(a) {
      RingHoldsTheLastWriters(place, ops, p);
    }
  }

  lemma {:induction false} PanicNeedsAnUnguardedRemoval(place: Placement, ops: seq<Op>) returns (i: nat)
    requires Run(place, ops) == None
    ensures i < |ops| && Unguarded(place, ops[..i], ops[i])
    decreases |ops|
  {
    var n := |ops| - 1;
    if Run(place, ops[..n]) == None {
      i := PanicNeedsAnUnguardedRemoval(place, ops[..n]);
      assert ops[..n][..i] == ops[..i];
    } else {
      i := n;
    }
  }

  lemma {:induction false} PanicLasts(place: Placement, ops: seq<Op>)
    requires ops != [] && Run(place, ops[..|ops| - 1]) == None
    ensures Run(place, ops) == None
  {
  }

  lemma {:induction false} UnguardedRemovalPanics(place: Placement, before: seq<Op>, op: Op, later: seq<Op>)
    requires Unguarded(place, before, op)
    ensures Run(place, before + [op] + later) == None
    decreases |later|
  {
    if later == [] {
      RunSnoc(place, before, op, Run(place, before).value);
      assert before + [op] + [] == before + [op];
    } else {
      var n := |later| - 1;
      UnguardedRemovalPanics(place, before, op, later[..n]);
      var ops := before + [op] + later;
      assert ops[..|ops| - 1] == before + [op] + later[..n];
      PanicLasts(place, ops);
    }
  }

  lemma {:induction false} PanicsAt(place: Placement, ops: seq<Op>, i: nat)
    requires i < |ops| && Unguarded(place, ops[..i], ops[i])
    ensures Run(place, ops) == None
  {
    UnguardedRemovalPanics(place, ops[..i], ops[i], ops[i + 1..]);
    assert ops == ops[..i] + [ops[i]] + ops[i + 1..];
  }

  /** A run panics exactly if it makes a removal without the capacity: CanRemove is the guard of each call. */
  lemma {:induction false} PanicsExactlyAtAnUnguardedRemoval(place: Placement, ops: seq<Op>)
    ensures Run(place, ops) == None <==> exists i :: 0 <= i < |ops| && Unguarded(place, ops[..i], ops[i])
  {
    if Run(place, ops) == None {
      var i := PanicNeedsAnUnguardedRemoval(place, ops);
    }
    if i :| 0 <= i < |ops| && Unguarded(place, ops[..i], ops[i]) {
      PanicsAt(place, ops, i);
    }
  }

  ghost predicate Unguarded(place: Placement, before: seq<Op>, op: Op) {
    op.RemoveOp? && Run(place, before).Some? && !CanRemove(place, Run(place, before).value, op.address)
  }

  // ---- Which servers are live ----

  /** A call of AddServer or RemoveServer. */
  datatype Call = AddCall(server: ServerInfo) | RemoveCall(server: ServerInfo)

  function AsOp(call: Call): Op {
    if call.AddCall? then AddOp(Address(call.server), call.server) else RemoveOp(Address(call.server))
  }

  function AsOps(calls: seq<Call>): seq<Op> {
    seq(|calls|, i requires 0 <= i < |calls| => AsOp(calls[i]))
  }

  /** The server that the latest call for this host and port has added. */
  function LatestAt(calls: seq<Call>, host: string, port: int): Option<ServerInfo> {
    if calls == [] then None
    else
      var call := calls[|calls| - 1];
      if call.server.host != host || call.server.port != port then LatestAt(calls[..|calls| - 1], host, port)
      else if call.AddCall? then Some(call.server)
      else None
  }

  /** In every run the live server at a host and port is the one last added there and not removed since. */
  lemma {:induction false} LiveExactlyIfLatest(place: Placement, calls: seq<Call>, x: ServerInfo)
    ensures Run(place, AsOps(calls)).Some? ==>
              var nodes := Run(place, AsOps(calls)).value.nodes;
              LatestAt(calls, x.host, x.port) == if Address(x) in nodes then Some(nodes[Address(x)]) else None
    decreases |calls|
  {
    if calls != [] {
      var n := |calls| - 1;
      assert AsOps(calls)[..n] == AsOps(calls[..n]);
      LiveExactlyIfLatest(place, calls[..n], x);
      AddressIsHostAndPort(calls[n].server, x);
    }
  }

  /** So servers that differ in host or port live side by side, and a second one at the same place replaces the first. */
  lemma {:induction false} AddedServersLiveSideBySide(place: Placement, calls: seq<Call>, x: ServerInfo, y: ServerInfo)
    ensures var run := Run(place, AsOps(calls + [AddCall(x)] + [AddCall(y)]));
            run.Some? ==>
              && Address(y) in run.value.nodes && run.value.nodes[Address(y)] == y
              && Address(x) in run.value.nodes
              && run.value.nodes[Address(x)] == if x.host == y.host && x.port == y.port then y else x
  {
    var one := calls + [AddCall(x)];
    assert one[..|calls|] == calls && (one + [AddCall(y)])[..|one|] == one;
    LiveExactlyIfLatest(place, one + [AddCall(y)], x);
    LiveExactlyIfLatest(place, one + [AddCall(y)], y);
  }

  /** Every live server still has all of its points in the key list. */
  ghost predicate Full(place: Placement, s: Ring) {
    forall a :: a in s.nodes ==> Count(s.keys, ToSet(place(a))) >= |place(a)|
  }

  /** Addresses that occur in the run have disjoint points, and removals name live servers only. */
  ghost predicate Orderly(place: Placement, ops: seq<Op>) {
    && (forall i, j :: 0 <= i < |ops| && 0 <= j < |ops| && ops[i].address != ops[j].address ==>
          ToSet(place(ops[i].address)) !! ToSet(place(ops[j].address)))
    && (forall i :: 0 <= i < |ops| && ops[i].RemoveOp? && Run(place, ops[..i]).Some? ==>
          ops[i].address in Run(place, ops[..i]).value.nodes)
  }

  lemma {:induction false} RemoveKeepsFull(place: Placement, s: Ring, a: string)
    requires Full(place, s) && SharesNoPoint(place, s, a)
    ensures Full(place, Remove(place, s, a))
  {
    forall b | b in s.nodes && b != a
      ensures Count(Without(s.keys, ToSet(place(a))), ToSet(place(b))) >= |place(b)|
    {
      CountWithout(s.keys, ToSet(place(a)), ToSet(place(b)));
    }
  }

  lemma {:induction false} AddKeepsFull(place: Placement, s: Ring, a: string, server: ServerInfo)
    requires Full(place, s)
    ensures Full(place, Add(place, s, a, server))
  {
    forall b | b in s.nodes || b == a
      ensures Count(Sort(s.keys + place(a)), ToSet(place(b))) >= |place(b)|
    {
      SortCounts(s.keys + place(a), ToSet(place(b)));
      CountConcat(s.keys, place(a), ToSet(place(b)));
      CountAll(place(a));
    }
  }

  lemma {:induction false} OrderlyBefore(place: Placement, ops: seq<Op>)
    requires ops != [] && Orderly(place, ops)
    ensures Orderly(place, ops[..|ops| - 1])
  {
    var before := ops[..|ops| - 1];
    assert forall i :: 0 <= i < |before| ==> before[..i] == ops[..i] && before[i] == ops[i];
  }

  /** Without shared points the capacity computed by RemoveServer is never negative. */
  lemma {:induction false} OrderlyRunNeverPanics(place: Placement, ops: seq<Op>)
    requires Orderly(place, ops)
    ensures Run(place, ops).Some?
    ensures Full(place, Run(place, ops).value)
    ensures forall a :: a in Run(place, ops).value.nodes ==> exists i :: 0 <= i < |ops| && ops[i].address == a
    decreases |ops|
  {
    if ops != [] {
      var before, op := ops[..|ops| - 1], ops[|ops| - 1];
      OrderlyBefore(place, ops);
      OrderlyRunNeverPanics(place, before);
      var s := Run(place, before).value;
      forall b | b in s.nodes ensures exists i :: 0 <= i < |ops| && ops[i].address == b {
        var i :| 0 <= i < |before| && before[i].address == b;
        assert ops[i].address == b;
      }
      match op {
        case AddOp(a, server) =>
          AddKeepsFull(place, s, a, server);
        case RemoveOp(a) =>
          assert a in s.nodes;
          assert SharesNoPoint(place, s, a);
          RemoveKeepsFull(place, s, a);
      }
    }
  }

  /** Every live server owns each of its points. */
  ghost predicate AllOwned(place: Placement, s: Ring) {
    forall a, p :: a in s.nodes && p in place(a) ==> p in s.ring && s.ring[p] == a
  }

  /** Without shared points every live server owns all of its points, so with at least one it is chosen for some key. */
  lemma {:induction false} OrderlyRunOwnsEveryPoint(place: Placement, ops: seq<Op>)
    requires Orderly(place, ops)
    ensures Run(place, ops).Some? && AllOwned(place, Run(place, ops).value)
    decreases |ops|
  {
    OrderlyRunNeverPanics(place, ops);
    if ops != [] {
      var before, op := ops[..|ops| - 1], ops[|ops| - 1];
      OrderlyBefore(place, ops);
      OrderlyRunOwnsEveryPoint(place, before);
      OrderlyRunNeverPanics(place, before);
      var s := Run(place, before).value;
      forall b | b in s.nodes && b != op.address ensures ToSet(place(b)) !! ToSet(place(op.address)) {
        var i :| 0 <= i < |before| && before[i].address == b;
        assert ops[i].address == b;
      }
      StepKeepsAllOwned(place, s, op);
    }
  }

  lemma {:induction false} StepKeepsAllOwned(place: Placement, s: Ring, op: Op)
    requires AllOwned(place, s) && SharesNoPoint(place, s, op.address) && Step(place, s, op).Some?
    ensures AllOwned(place, Step(place, s, op).value)
  {
    var t := Step(place, s, op).value;
    forall b, p | b in t.nodes && p in place(b) ensures p in t.ring && t.ring[p] == b {
      assert p in ToSet(place(b));
      assert b != op.address ==> p !in ToSet(place(op.address));
    }
  }

  lemma {:induction false} OrderlyRunChoosesEveryLiveServer(place: Placement, ops: seq<Op>, a: string)
    requires Orderly(place, ops)
    requires Run(place, ops).Some? && a in Run(place, ops).value.nodes && place(a) != []
    ensures exists h :: Owner(Run(place, ops).value, h) == Some(a)
  {
    OrderlyRunOwnsEveryPoint(place, ops);
    RunIsValid(place, ops);
    OwnedPointIsChosen(place, Run(place, ops).value, a);
  }

  lemma {:induction false} OwnedPointIsChosen(place: Placement, s: Ring, a: string)
    requires Valid(place, s) && AllOwned(place, s) && a in s.nodes && place(a) != []
    ensures exists h :: Owner(s, h) == Some(a)
  {
    var p := place(a)[0];
    assert p in place(a);
    assert p in s.ring && s.ring[p] == a;
    ChosenExactlyIfOnTheRing(place, s, a);
  }

  function EverythingAtZero(a: string): seq<int> {
    [0]
  }

  lemma {:induction false} WriteZero(m: map<int, string>, a: string)
    ensures Write(m, [0], a) == m[0 := a]
  {
    assert [0][..0] == [];
  }

  lemma {:induction false} FirstAtZero(a: string, x: ServerInfo)
    ensures Add(EverythingAtZero, EMPTY, a, x) == Ring(map[0 := a], [0], map[a := x])
  {
    WriteZero(map[], a);
    SortOfSorted([0]);
    assert [] + [0] == [0];
  }

  lemma {:induction false} SecondAtZero(a: string, b: string, x: ServerInfo, y: ServerInfo)
    ensures Add(EverythingAtZero, Ring(map[0 := a], [0], map[a := x]), b, y)
         == Ring(map[0 := b], [0, 0], map[a := x, b := y])
  {
    WriteZero(map[0 := a], b);
    SortOfSorted([0, 0]);
    assert [0] + [0] == [0, 0];
  }

  lemma {:induction false} RemoveAtZero(a: string, b: string, x: ServerInfo, y: ServerInfo)
    requires a != b
    ensures Remove(EverythingAtZero, Ring(map[0 := b], [0, 0], map[a := x, b := y]), a)
         == Ring(map[], [], map[b := y])
  {
    WithoutConcat([], [0, 0], {0});
    assert ToSet([0]) == {0} && [] + [0, 0] == [0, 0];
  }

  /** Two additions that share their points already hide the first server, for every key. */
  lemma {:induction false} SharedPointHidesALiveServer(a: string, b: string, x: ServerInfo, y: ServerInfo, h: int)
    requires a != b
    ensures var run := [AddOp(a, x)] + [AddOp(b, y)];
            && Run(EverythingAtZero, run).Some?
            && a in Run(EverythingAtZero, run).value.nodes
            && Owner(Run(EverythingAtZero, run).value, h) == Some(b)
  {
    FirstAtZero(a, x);
    SecondAtZero(a, b, x, y);
    assert [] + [AddOp(a, x)] == [AddOp(a, x)];
    RunSnoc(EverythingAtZero, [], AddOp(a, x), EMPTY);
    RunSnoc(EverythingAtZero, [AddOp(a, x)], AddOp(b, y), Ring(map[0 := a], [0], map[a := x]));
    assert Owner(Ring(map[0 := b], [0, 0], map[a := x, b := y]), h) == Some(b) by {
      ScanIsClockwise([0, 0], h);
    }
  }

  /** With a shared point, removing one server makes the other unreachable, and removing that one panics. */
  lemma {:induction false} SharedPointLosesALiveServer(a: string, b: string, x: ServerInfo, y: ServerInfo, h: int)
    requires a != b
    ensures var run := [AddOp(a, x)] + [AddOp(b, y)] + [RemoveOp(a)];
            && Run(EverythingAtZero, run).Some?
            && b in Run(EverythingAtZero, run).value.nodes
            && Choice(Run(EverythingAtZero, run).value, h) == None
            && Run(EverythingAtZero, run + [RemoveOp(b)]) == None
  {
    FirstAtZero(a, x);
    SecondAtZero(a, b, x, y);
    RemoveAtZero(a, b, x, y);
    RunSnoc(EverythingAtZero, [], AddOp(a, x), EMPTY);
    assert [] + [AddOp(a, x)] == [AddOp(a, x)];
    RunSnoc(EverythingAtZero, [AddOp(a, x)], AddOp(b, y), Ring(map[0 := a], [0], map[a := x]));
    RunSnoc(EverythingAtZero, [AddOp(a, x)] + [AddOp(b, y)], RemoveOp(a),
            Ring(map[0 := b], [0, 0], map[a := x, b := y]));
    RunSnoc(EverythingAtZero, [AddOp(a, x)] + [AddOp(b, y)] + [RemoveOp(a)], RemoveOp(b),
            Ring(map[], [], map[b := y]));
  }

  lemma {:induction false} RunSnoc(place: Placement, ops: seq<Op>, op: Op, s: Ring)
    requires Run(place, ops) == Some(s)
    ensures Run(place, ops + [op]) == Step(place, s, op)
  {
    assert (ops + [op])[..|ops|] == ops;
  }

  // ---- The selector itself ----

  lemma {:induction false} WriteSnoc(ring: map<int, string>, points: seq<int>, i: nat, a: string)
    requires i < |points|
    ensures Write(ring, points[..i + 1], a) == Write(ring, points[..i], a)[points[i] := a]
    ensures points[..i + 1] == points[..i] + [points[i]]
  {
    assert points[..i + 1][..i] == points[..i];
  }

  lemma {:induction false} EraseOneMore(ring: map<int, string>, removed: set<int>, point: int)
    ensures (ring - removed) - {point} == ring - (removed + {point})
  {
  }

  lemma {:induction false} ToSetSnoc(points: seq<int>, i: nat)
    requires i < |points|
    ensures ToSet(points[..i + 1]) == ToSet(points[..i]) + {points[i]}
  {
    assert points[..i + 1] == points[..i] + [points[i]];
  }

  lemma {:induction false} WithoutLast(keys: seq<int>, x: int, gone: set<int>)
    ensures Without(keys + [x], gone) == Without(keys, gone) + if x in gone then [] else [x]
    decreases |keys|
  {
    if keys == [] {
      assert keys + [x] == [x] && [x][1..] == [];
    } else {
      assert (keys + [x])[1..] == keys[1..] + [x];
      WithoutLast(keys[1..], x, gone);
    }
  }

  lemma {:induction false} WithoutSnoc(keys: seq<int>, i: nat, gone: set<int>)
    requires i < |keys|
    ensures Without(keys[..i + 1], gone) ==
            Without(keys[..i], gone) + if keys[i] in gone then [] else [keys[i]]
  {
    assert keys[..i + 1] == keys[..i] + [keys[i]];
    WithoutLast(keys[..i], keys[i], gone);
  }

  /** The loop over the key array. */
  method KeysWithout(keys: seq<int>, removed: set<int>) returns (newKeys: seq<int>)
    ensures newKeys == Without(keys, removed)
  {
    newKeys := [];
    for i := 0 to |keys|
      invariant newKeys == Without(keys[..i], removed)
    {
      WithoutSnoc(keys, i, removed);
      if keys[i] !in removed {
        newKeys := newKeys + [keys[i]];
      }
    }
    assert keys[..|keys|] == keys;
  }

  class ConsistentHashSelector {
    const replicas: nat
    const hash: string -> int
    var ring: map<int, string>
    var sortedKeys: seq<int>
    var nodes: map<string, ServerInfo>

    ghost function State(): Ring
      reads this
    {
      Ring(ring, sortedKeys, nodes)
    }

    ghost function Place(): Placement {
      address => Points(replicas, hash, address)
    }

    /** None is a nil hash function. */
    constructor (replicas: nat, hash: Option<string -> int>)
      ensures this.replicas == replicas && State() == EMPTY
      ensures this.hash == if hash.Some? then hash.value else DefaultHash
    {
      var f: string -> int := if hash.Some? then hash.value else DefaultHash;
      this.replicas, this.hash := replicas, f;
      ring, sortedKeys, nodes := map[], [], map[];
    }

    /** The loop over the replicas: the key is written at each of their points. */
    method WritePoints(key: string) returns (added: seq<int>)
      modifies this`ring
      ensures added == Points(replicas, hash, key) && ring == Write(old(ring), added, key)
    {
      ghost var points := Points(replicas, hash, key);
      added := [];
      for i := 0 to replicas
        invariant added == points[..i] && ring == Write(old(ring), points[..i], key)
      {
        var point := hash(ReplicaKey(key, i));
        WriteSnoc(old(ring), points, i, key);
        ring := ring[point := key];
        added := added + [point];
      }
      assert points[..replicas] == points;
    }

    method AddServer(server: ServerInfo)
      modifies this
      ensures State() == Add(Place(), old(State()), Address(server), server)
    {
      var key := Address(server);
      nodes := nodes[key := server];
      var added := WritePoints(key);
      sortedKeys := Sort(sortedKeys + added);
    }

    /** The loop over the replicas: their points leave the ring. */
    method ErasePoints(key: string) returns (removed: set<int>)
      modifies this`ring
      ensures removed == ToSet(Points(replicas, hash, key)) && ring == old(ring) - removed
    {
      ghost var points := Points(replicas, hash, key);
      removed := {};
      for i := 0 to replicas
        invariant removed == ToSet(points[..i]) && ring == old(ring) - removed
      {
        var point := hash(ReplicaKey(key, i));
        ToSetSnoc(points, i);
        EraseOneMore(old(ring), removed, point);
        ring := ring - {point};
        removed := removed + {point};
      }
      assert points[..replicas] == points;
    }

    method RemoveServer(server: ServerInfo)
      requires CanRemove(Place(), State(), Address(server))
      modifies this
      ensures State() == Remove(Place(), old(State()), Address(server))
    {
      var key := Address(server);
      nodes := nodes - {key};
      var removed := ErasePoints(key);
      sortedKeys := KeysWithout(sortedKeys, removed);
    }

    /** findClosest: sort.Search's binary search gives what the linear scan gives. */
    method FindClosest(h: int) returns (closest: int)
      requires Sorted(sortedKeys)
      ensures closest == Closest(sortedKeys, h)
    {
      if |sortedKeys| == 0 {
        return h;
      }
      var i, j := 0, |sortedKeys|;
      while i < j
        invariant 0 <= i <= j <= |sortedKeys|
        invariant forall k :: 0 <= k < i ==> sortedKeys[k] < h
        invariant forall k :: j <= k < |sortedKeys| ==> sortedKeys[k] >= h
      {
        var mid := (i + j) / 2;
        if sortedKeys[mid] >= h {
          j := mid;
        } else {
          i := mid + 1;
        }
      }
      ScanFinds(sortedKeys, h, sortedKeys[0], i);
      closest := if i < |sortedKeys| then sortedKeys[i] else sortedKeys[0];
    }

    /** None stands for the zero ServerInfo. */
    method Select(keys: seq<string>) returns (server: Option<ServerInfo>)
      requires Valid(Place(), State())
      ensures server == if keys == [] then None else Choice(State(), hash(keys[0]))
      ensures keys != [] && ring != map[] ==> server.Some? && server.value in nodes.Values
    {
      if keys == [] || ring == map[] {
        return None;
      }
      ghost var p := ClockwisePoint(Place(), State(), hash(keys[0]));
      var closest := FindClosest(hash(keys[0]));
      if closest in ring && ring[closest] in nodes {
        return Some(nodes[ring[closest]]);
      }
      return None;
    }
  }
}
