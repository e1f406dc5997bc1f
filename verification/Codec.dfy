/** The binary message codec of codec/codec.go, with bodies as opaque bytes and no registered body types. */
module Codec {
  import opened Bytes
  import opened Prelude
  import opened RouteDict

  /** What lib.Message.Body holds: a protobuf message by its encoding, one that fails to encode, or something else. */
  datatype Body = NoBody | Proto(bytes: seq<Byte>) | BrokenProto | NotProto

  type Uint64 = x: int | 0 <= x < 0x1_0000_0000_0000_0000

  datatype Message = Message(kind: int, route: Route, number: Uint64, body: Body)

  /** A decoded message; a body of unregistered type stays raw bytes, and an empty one is absent. */
  datatype Decoded = Decoded(kind: int, route: Route, number: Uint64, body: Option<seq<Byte>>)

  datatype Error = MarshalBody | BodyNotProto | TooShort | InvalidSeq
  datatype Result<T> = Ok(value: T) | Err(error: Error)

  /** Ids are uint16 values. */
  ghost predicate ShortIds(d: Dict) {
    forall x :: x in d.routes ==> d.routes[x] < TWO_16
  }

  function RouteField(d: Dict, route: Route): (r: seq<Byte>)
    requires ShortIds(d)
  {
    if route in d.routes then [1] + Put16(d.routes[route]) else [0] + route + [0]
  }

  function BodyBytes(body: Body): seq<Byte> {
    if body.Proto? then body.bytes else []
  }

  function Encode(d: Dict, m: Message): Result<seq<Byte>>
    requires ShortIds(d)
  {
    match m.body
    case BrokenProto => Err(MarshalBody)
    case NotProto => Err(BodyNotProto)
    case _ => Ok([m.kind % 256] + RouteField(d, m.route) + Put64(m.number) + BodyBytes(m.body))
  }

  /** Index of the first NUL at or after `from`, or the length. */
  function FirstNul(data: seq<Byte>, from: nat): (i: nat)
    requires from <= |data|
    ensures from <= i <= |data|
    ensures forall j :: from <= j < i ==> data[j] != 0
    ensures i < |data| ==> data[i] == 0
    decreases |data| - from
  {
    if from == |data| || data[from] == 0 then from else FirstNul(data, from + 1)
  }

  /** The route that a message carries, and where its sequence number starts. */
  function RouteOf(ids: map<nat, Route>, data: seq<Byte>): (Route, nat)
    requires |data| >= 10
  {
    if data[1] == 1 then
      var id := Uint(data[2..4]);
      (if id in ids then ids[id] else [], 4)
    else if data[1] == 0 then
      var i := FirstNul(data, 2);
      if i < |data| then (data[2..i], i + 1) else ([], 2)
    else ([], 2)
  }

  function Decode(ids: map<nat, Route>, data: seq<Byte>): Result<Decoded> {
    if |data| < 10 then Err(TooShort)
    else
      var (route, offset) := RouteOf(ids, data);
      if |data| < offset + 8 then Err(InvalidSeq)
      else
        EightBytes(data[offset..offset + 8]);
        var rest := data[offset + 8..];
        Ok(Decoded(data[0], route, Uint(data[offset..offset + 8]), if rest == [] then None else Some(rest)))
  }

  /** What a faithful decoder returns for m. */
  function Expected(m: Message): Decoded {
    Decoded(m.kind, m.route, m.number, if BodyBytes(m.body) == [] then None else Some(BodyBytes(m.body)))
  }

  lemma {:induction false} EightBytes(b: seq<Byte>)
    requires |b| == 8
    ensures Uint(b) < TWO_64
  {
    var w0, w1, w2, w3 := b[..2], b[2..4], b[4..6], b[6..];
    assert b == [] + w0 + w1 + w2 + w3;
    UintConcat2([], w0);
    UintConcat2([] + w0, w1);
    UintConcat2([] + w0 + w1, w2);
    UintConcat2([] + w0 + w1 + w2, w3);
    TwoBytes(w0);
    TwoBytes(w1);
    TwoBytes(w2);
    TwoBytes(w3);
  }

  // ---- Layout and errors ----

  /** Encoding fails exactly for a body that is no protobuf message, or one that cannot be marshalled. */
  lemma {:induction false} EncodeFailsExactly(d: Dict, m: Message)
    requires ShortIds(d)
    ensures Encode(d, m) == Err(MarshalBody) <==> m.body == BrokenProto
    ensures Encode(d, m) == Err(BodyNotProto) <==> m.body == NotProto
    ensures Encode(d, m).Ok? <==> m.body == NoBody || m.body.Proto?
  {
  }

  /** The wire format: type, flag, route id or terminated route, sequence number most significant byte first, body. */
  lemma {:induction false} WireFormat(d: Dict, m: Message)
    requires ShortIds(d) && Encode(d, m).Ok?
    ensures var data := Encode(d, m).value;
            var body := if m.body.Proto? then m.body.bytes else [];
            && |data| >= 10 && data[0] == m.kind % 256
            && if m.route in d.routes then
                 var id := d.routes[m.route];
                 && |data| == 12 + |body| && data[1..4] == [1, id / 256, id % 256]
                 && data[4..12] == Put64(m.number) && data[12..] == body
               else
                 var n := |m.route|;
                 && |data| == 11 + n + |body| && data[1] == 0 && data[2..2 + n] == m.route && data[2 + n] == 0
                 && data[3 + n..11 + n] == Put64(m.number) && data[11 + n..] == body
  {
    var body := BodyBytes(m.body);
    var field := RouteField(d, m.route);
    var head := [m.kind % 256] + field;
    assert Encode(d, m).value == head + Put64(m.number) + body;
    if m.route in d.routes {
      BigEndian16(d.routes[m.route]);
      assert head == [m.kind % 256] + [1, d.routes[m.route] / 256, d.routes[m.route] % 256];
    }
  }

  /** The first NUL of the route string is at i. */
  predicate EndsRoute(data: seq<Byte>, i: int) {
    2 <= i < |data| && data[i] == 0 && 0 !in data[2..i]
  }

  /** Fewer than eight bytes follow the route id, or the end of the route string. */
  ghost predicate NumberMissing(data: seq<Byte>) {
    |data| >= 10 && ((data[1] == 1 && |data| < 12) || (data[1] == 0 && exists i :: EndsRoute(data, i) && |data| < i + 9))
  }

  /** Decoding fails exactly if there are fewer than ten bytes, or fewer than eight behind the route. */
  lemma {:induction false} DecodeFailsExactly(ids: map<nat, Route>, data: seq<Byte>)
    ensures Decode(ids, data) == Err(TooShort) <==> |data| < 10
    ensures Decode(ids, data) == Err(InvalidSeq) <==> NumberMissing(data)
    ensures Decode(ids, data).Err? ==> Decode(ids, data).error == TooShort || Decode(ids, data).error == InvalidSeq
  {
    if |data| >= 10 && data[1] == 0 {
      assert FirstNul(data, 2) < |data| ==> EndsRoute(data, FirstNul(data, 2));
    }
  }

  /** A message whose sequence number starts at `offset`. */
  ghost predicate ReadFrom(r: Decoded, data: seq<Byte>, route: Route, offset: nat) {
    && offset + 8 <= |data| && r.kind == data[0] && r.route == route
    && Put64(r.number) == data[offset..offset + 8]
    && (r.body == None <==> |data| == offset + 8) && (r.body.Some? ==> r.body.value == data[offset + 8..])
  }

  /**
   * What decoding any bytes gives: behind flag 1 the route that the two-byte id stands for, or none; behind flag 0
   * the bytes up to the first NUL; without such a NUL, or with any other flag, no route and the number right behind
   * the flag.
   */
  lemma {:induction false} DecodeReadsExactly(ids: map<nat, Route>, data: seq<Byte>)
    requires Decode(ids, data).Ok?
    ensures var r := Decode(ids, data).value;
            && |data| >= 10
            && (data[1] == 1 ==>
                  var id := data[2] as int * 256 + data[3] as int;
                  ReadFrom(r, data, if id in ids then ids[id] else [], 4))
            && (forall i :: data[1] == 0 && EndsRoute(data, i) ==> ReadFrom(r, data, data[2..i], i + 1))
            && (data[1] > 1 || (data[1] == 0 && 0 !in data[2..]) ==> ReadFrom(r, data, [], 2))
  {
    var (route, offset) := RouteOf(ids, data);
    Respell(data, offset);
    TwoBytes(data[2..4]);
    var n := FirstNul(data, 2);
    if data[1] == 0 && n < |data| {
      assert data[2..][n - 2] == 0;
    }
  }

  // ---- Printing and parsing undo each other ----

  lemma {:induction false} RegisteredRoute(ids: map<nat, Route>, kind: Byte, id: nat, tail: seq<Byte>)
    requires id < TWO_16 && |tail| >= 8
    ensures RouteOf(ids, [kind] + ([1] + Put16(id)) + tail) == (if id in ids then ids[id] else [], 4)
  {
    var data := [kind] + ([1] + Put16(id)) + tail;
    assert data[2..4] == Put16(id);
  }

  /** An unregistered route is read back up to its first NUL. */
  lemma {:induction false} PlainRoute(ids: map<nat, Route>, kind: Byte, route: Route, tail: seq<Byte>)
    requires |tail| >= 8
    ensures var data := [kind] + ([0] + route + [0]) + tail;
            var n := FirstNul(route, 0);
            RouteOf(ids, data) == (route[..n], 3 + n)
  {
    var data := [kind] + ([0] + route + [0]) + tail;
    var n, i := FirstNul(route, 0), FirstNul(data, 2);
    assert data[2..2 + |route|] == route;
    assert forall j :: 0 <= j < |route| ==> data[2 + j] == route[j];
    assert data[2 + |route|] == 0;
    assert data[2 + n] == 0;
    assert i == 2 + n;
    assert data[2..i] == route[..n];
  }

  /** Decoding, with the ids of a possibly later dictionary, gives back the message exactly when it can. */
  lemma {:induction false} RoundTrip(d: Dict, ids: map<nat, Route>, m: Message)
    requires ShortIds(d)
    requires Encode(d, m).Ok?
    ensures Decode(ids, Encode(d, m).value) == Ok(Expected(m))
       <==> && 0 <= m.kind < 256
            && if m.route in d.routes then
                 (if d.routes[m.route] in ids then ids[d.routes[m.route]] else []) == m.route
               else 0 !in m.route
  {
    var data := Encode(d, m).value;
    var field, body := RouteField(d, m.route), BodyBytes(m.body);
    var head, tail := [m.kind % 256] + field, Put64(m.number) + body;
    assert data == head + tail;
    assert data == head + Put64(m.number) + body;
    if m.route in d.routes {
      RegisteredRoute(ids, m.kind % 256, d.routes[m.route], tail);
      assert |head| == 4;
    } else {
      PlainRoute(ids, m.kind % 256, m.route, tail);
      var n := FirstNul(m.route, 0);
      if n == |m.route| {
        assert m.route[..n] == m.route;
        assert |head| == 3 + n;
        assert 0 !in m.route;
      } else {
        assert m.route[n] == 0;
        assert |m.route[..n]| < |m.route|;
      }
    }
    assert data[0] == m.kind % 256;
  }

  /** Over a codec's life: encode at one time, decode after any further registrations. */
  lemma {:induction false} RoundTripAcrossRegistrations(before: seq<Route>, more: seq<Route>, m: Message)
    requires m.body.NoBody? || m.body.Proto?
    requires |RegisterAll(RegisterAll(EMPTY, before), more).routes| <= TWO_16
    ensures Sound(RegisterAll(EMPTY, before))
    ensures var d := RegisterAll(EMPTY, before);
            Decode(RegisterAll(d, more).ids, Encode(d, m).value) == Ok(Expected(m))
            <==> 0 <= m.kind < 256 && (m.route in d.routes || 0 !in m.route)
  {
    var d := RegisterAll(EMPTY, before);
    RegisterAllIsSound(EMPTY, before);
    RoundTrip(d, RegisterAll(d, more).ids, m);
    if m.route in d.routes {
      IdsAreStable(d, more, m.route);
    }
  }

  /** The message that a decoded one stands for. */
  function AsMessage(m: Decoded): Message {
    Message(m.kind, m.route, m.number, match m.body case None => NoBody case Some(b) => Proto(b))
  }

  /** Written the way Encode writes: an id that the dictionary gives to its route, or a terminated unregistered route. */
  predicate Canonical(d: Dict, data: seq<Byte>)
    requires |data| >= 10
  {
    || (data[1] == 1 && var id := Uint(data[2..4]);
        id in d.ids && d.ids[id] in d.routes && d.routes[d.ids[id]] == id)
    || (data[1] == 0 && var i := FirstNul(data, 2); i < |data| && data[2..i] !in d.routes)
  }

  lemma {:induction false} Respell(data: seq<Byte>, offset: nat)
    requires offset + 8 <= |data|
    ensures Uint(data[offset..offset + 8]) < TWO_64
    ensures Put64(Uint(data[offset..offset + 8])) == data[offset..offset + 8]
  {
    EightBytes(data[offset..offset + 8]);
    UintIsInjective(Put64(Uint(data[offset..offset + 8])), data[offset..offset + 8]);
  }

  lemma {:induction false} EncodeDecoded(d: Dict, m: Decoded, rest: seq<Byte>)
    requires ShortIds(d) && 0 <= m.kind < 256
    requires m.body == if rest == [] then None else Some(rest)
    ensures Encode(d, AsMessage(m)) == Ok([m.kind] + RouteField(d, m.route) + Put64(m.number) + rest)
  {
    assert BodyBytes(AsMessage(m).body) == rest;
    assert m.kind % 256 == m.kind;
  }

  lemma {:induction false} ReEncodedBytes(d: Dict, data: seq<Byte>)
    requires ShortIds(d)
    requires Decode(d.ids, data).Ok?
    ensures var (route, offset) := RouteOf(d.ids, data);
            Encode(d, AsMessage(Decode(d.ids, data).value)) == Ok([data[0]] + RouteField(d, route) + data[offset..])
  {
    var (route, offset) := RouteOf(d.ids, data);
    Respell(data, offset);
    var number, rest := data[offset..offset + 8], data[offset + 8..];
    var head := [data[0]] + RouteField(d, route);
    EncodeDecoded(d, Decode(d.ids, data).value, rest);
    JoinAfter(head, data, offset, offset + 8);
  }

  lemma JoinAfter(head: seq<Byte>, data: seq<Byte>, i: nat, j: nat)
    requires i <= j <= |data|
    ensures head + data[i..j] + data[j..] == head + data[i..]
  {
    assert data[i..] == data[i..j] + data[j..];
  }

  lemma {:induction false} ReEncodeId(d: Dict, data: seq<Byte>)
    requires Sound(d) && |d.routes| <= TWO_16 && |data| >= 12 && data[1] == 1
    ensures [data[0]] + RouteField(d, RouteOf(d.ids, data).0) + data[4..] == data <==> Canonical(d, data)
  {
    var route := RouteOf(d.ids, data).0;
    var again := [data[0]] + RouteField(d, route) + data[4..];
    var id := Uint(data[2..4]);
    if again == data {
      assert again[1] == RouteField(d, route)[0];
      assert route in d.routes;
      assert again[2..4] == Put16(d.routes[route]);
      assert d.routes[route] == id;
    }
    if Canonical(d, data) {
      UintIsInjective(Put16(id), data[2..4]);
      assert RouteField(d, route) == [1] + data[2..4];
      assert data == [data[0]] + ([1] + data[2..4]) + data[4..];
    }
  }

  lemma {:induction false} ReEncodePlain(d: Dict, data: seq<Byte>)
    requires Sound(d) && |data| >= 10 && data[1] != 1
    ensures [data[0]] + RouteField(d, RouteOf(d.ids, data).0) + data[RouteOf(d.ids, data).1..] == data
       <==> Canonical(d, data)
  {
    var (route, offset) := RouteOf(d.ids, data);
    var again := [data[0]] + RouteField(d, route) + data[offset..];
    assert again[1] == RouteField(d, route)[0];
    if again == data {
      assert route !in d.routes;
      assert data[1] == 0;
      assert |again| == 3 + |route| + |data| - offset;
    }
    if Canonical(d, data) {
      var i := FirstNul(data, 2);
      assert data == [data[0]] + ([0] + data[2..i] + [0]) + data[i + 1..];
    }
  }

  /** Parsing and printing back: the same bytes come out exactly when they were written canonically. */
  lemma {:induction false} ReEncode(d: Dict, data: seq<Byte>)
    requires Sound(d) && |d.routes| <= TWO_16
    requires Decode(d.ids, data).Ok?
    ensures Encode(d, AsMessage(Decode(d.ids, data).value)) == Ok(data) <==> Canonical(d, data)
  {
    ReEncodedBytes(d, data);
    if data[1] == 1 {
      ReEncodeId(d, data);
    } else {
      ReEncodePlain(d, data);
    }
  }

  // ---- The codec itself ----

  class ProtobufCodec {
    var routes: map<Route, nat>
    var ids: map<nat, Route>
    var nextID: nat

    ghost function State(): Dict
      reads this
    {
      Dict(routes, ids, nextID)
    }

    constructor ()
      ensures State() == EMPTY
    {
      routes, ids, nextID := map[], map[], 0;
    }

    method RegisterRoute(route: Route) returns (id: nat)
      modifies this
      ensures State() == Register(old(State()), route)
      ensures route in routes && id == routes[route]
    {
      if route in routes {
        return routes[route];
      }
      nextID := (nextID + 1) % TWO_16;
      id := nextID;
      routes := routes[route := id];
      ids := ids[id := route];
    }

    method EncodeMessage(m: Message) returns (r: Result<seq<Byte>>)
      requires Sound(State())
      ensures r == Encode(State(), m)
    {
      var body: seq<Byte> := [];
      match m.body {
        case BrokenProto => return Err(MarshalBody);
        case NotProto => return Err(BodyNotProto);
        case Proto(bytes) => body := bytes;
        case NoBody =>
      }
      var result: seq<Byte> := [m.kind % 256];
      if m.route in routes {
        result := result + [1];
        result := result + Put16(routes[m.route]);
      } else {
        result := result + [0];
        result := result + m.route;
        result := result + [0];
      }
      assert result == [m.kind % 256] + RouteField(State(), m.route);
      result := result + Put64(m.number);
      result := result + body;
      return Ok(result);
    }

    method DecodeMessage(data: seq<Byte>) returns (r: Result<Decoded>)
      ensures r == Decode(ids, data)
    {
      if |data| < 10 {
        return Err(TooShort);
      }
      var offset := 2;
      var route: Route := [];
      if data[1] == 1 {
        var id := Uint(data[2..4]);
        offset := 4;
        route := if id in ids then ids[id] else [];
      } else if data[1] == 0 {
        var i := 2;
        while i < |data| && data[i] != 0
          invariant 2 <= i <= |data|
          invariant FirstNul(data, 2) == FirstNul(data, i)
        {
          i := i + 1;
        }
        if i < |data| {
          route := data[2..i];
          offset := i + 1;
        }
      }
      if |data| < offset + 8 {
        return Err(InvalidSeq);
      }
      EightBytes(data[offset..offset + 8]);
      var number := Uint(data[offset..offset + 8]);
      offset := offset + 8;
      var body := if offset < |data| then Some(data[offset..]) else None;
      return Ok(Decoded(data[0], route, number, body));
    }
  }
}
