/**
 * How the multiplexing RPC client reads packets (readPacket, readFull and the error count of receiveLoop in
 * rpc/client.go): a read that fails in the middle of a packet drops what was read of it, and reading goes on.
 */
module PacketReader {
  import opened Bytes
  import opened Framing

  /** What the successive reads deliver: a byte, or an error such as a timeout. */
  datatype Item = Got(b: Byte) | Failure

  const MAX_ERRORS: nat := 3

  datatype Reader = Reader(
    got: seq<Byte>,            // the bytes read of the current packet, header included
    errors: nat,               // errors since the last packet
    failed: bool,              // too many errors: the loop has ended
    packets: seq<seq<Byte>>,   // handed to handleResponse
    lost: nat)                 // history: bytes that are in no packet and never will be

  const START := Reader([], 0, false, [], 0)

  /** An error from readPacket. */
  function Fail(r: Reader): Reader {
    r.(got := [], errors := r.errors + 1, failed := r.errors + 1 >= MAX_ERRORS, lost := r.lost + |r.got|)
  }

  /** The reader wants more bytes. */
  predicate Partial(max: nat, got: seq<Byte>) {
    |got| < 4 || (Uint(got[..4]) <= max && |got| < 4 + Uint(got[..4]))
  }

  /** The last byte has just been added. */
  function Advance(max: nat, r: Reader): Reader {
    if Partial(max, r.got) then r
    else if Uint(r.got[..4]) > max then Fail(r)
    else r.(got := [], errors := 0, packets := r.packets + [r.got[4..]])
  }

  function Step(max: nat, r: Reader, item: Item): Reader {
    match item
    case Failure => if r.failed then r else Fail(r)
    case Got(b) => if r.failed then r.(lost := r.lost + 1) else Advance(max, r.(got := r.got + [b]))
  }

  function Resume(max: nat, r: Reader, items: seq<Item>): Reader
    decreases |items|
  {
    if items == [] then r else Resume(max, Step(max, r, items[0]), items[1..])
  }

  function AsItems(bytes: seq<Byte>): seq<Item> {
    seq(|bytes|, i requires 0 <= i < |bytes| => Got(bytes[i]))
  }

  /** The bytes among the items. */
  function Payload(items: seq<Item>): seq<Byte> {
    if items == [] then []
    else if items[0].Got? then [items[0].b] + Payload(items[1..])
    else Payload(items[1..])
  }

  // ---- Bytes are accounted for ----

  function Size(packets: seq<seq<Byte>>): nat {
    if packets == [] then 0 else Size(packets[..|packets| - 1]) + 4 + |packets[|packets| - 1]|
  }

  /** What the reader has taken in. */
  function Taken(r: Reader): nat {
    Size(r.packets) + |r.got| + r.lost
  }

  lemma {:induction false} StepCounts(max: nat, r: Reader, item: Item)
    ensures var t := Step(max, r, item);
            && Taken(t) == Taken(r) + (if item.Got? then 1 else 0)
            && r.lost <= t.lost && r.packets <= t.packets
  {
    if item.Got? && !r.failed {
      var got := r.got + [item.b];
      var packets := r.packets + [got[|got| - (if |got| >= 4 then |got| - 4 else 0)..]];
      assert packets[..|packets| - 1] == r.packets;
      if !Partial(max, got) && Uint(got[..4]) <= max {
        assert Step(max, r, item).packets == packets;
      }
    }
  }

  /** Every byte is in a packet, in the packet being read, or lost; nothing handed on is taken back. */
  lemma {:induction false} EveryByteIsAccountedFor(max: nat, r: Reader, items: seq<Item>)
    ensures var t := Resume(max, r, items);
            && Taken(t) == Taken(r) + |Payload(items)|
            && r.lost <= t.lost && r.packets <= t.packets
    decreases |items|
  {
    if items != [] {
      StepCounts(max, r, items[0]);
      EveryByteIsAccountedFor(max, Step(max, r, items[0]), items[1..]);
    }
  }

  lemma {:induction false} ResumeOn(max: nat, r: Reader, a: seq<Item>, b: seq<Item>)
    ensures Resume(max, r, a + b) == Resume(max, Resume(max, r, a), b)
    decreases |a|
  {
    if a == [] {
      assert a + b == b;
    } else {
      assert (a + b)[1..] == a[1..] + b;
      ResumeOn(max, Step(max, r, a[0]), a[1..], b);
    }
  }

  lemma {:induction false} PayloadConcat(a: seq<Item>, b: seq<Item>)
    ensures Payload(a + b) == Payload(a) + Payload(b)
    decreases |a|
  {
    if a == [] {
      assert a + b == b;
    } else {
      assert (a + b)[1..] == a[1..] + b;
      PayloadConcat(a[1..], b);
    }
  }

  lemma {:induction false} PayloadOfBytes(bytes: seq<Byte>)
    ensures Payload(AsItems(bytes)) == bytes
    decreases |bytes|
  {
    if bytes != [] {
      assert AsItems(bytes)[1..] == AsItems(bytes[1..]);
      PayloadOfBytes(bytes[1..]);
    }
  }

  // ---- One packet ----

  /** Bytes are gathered as long as more are wanted. */
  lemma {:induction false} Gather(max: nat, r: Reader, bytes: seq<Byte>)
    requires !r.failed
    requires forall i :: 0 < i <= |bytes| ==> Partial(max, r.got + bytes[..i])
    ensures Resume(max, r, AsItems(bytes)) == r.(got := r.got + bytes)
    decreases |bytes|
  {
    if bytes == [] {
      assert r.got + bytes == r.got;
    } else {
      var t := r.(got := r.got + [bytes[0]]);
      assert bytes[..1] == [bytes[0]];
      assert Partial(max, r.got + bytes[..1]);
      assert AsItems(bytes)[1..] == AsItems(bytes[1..]);
      forall i | 0 < i <= |bytes[1..]| ensures Partial(max, t.got + bytes[1..][..i]) {
        assert t.got + bytes[1..][..i] == r.got + bytes[..i + 1];
      }
      Gather(max, t, bytes[1..]);
      assert t.got + bytes[1..] == r.got + bytes;
    }
  }

  /** A started packet, with no more to come. */
  lemma {:induction false} Waits(max: nat, r: Reader, bytes: seq<Byte>)
    requires !r.failed && r.got == [] && forall i :: 0 < i <= |bytes| ==> Partial(max, bytes[..i])
    ensures Resume(max, r, AsItems(bytes)) == r.(got := bytes)
  {
    forall i | 0 < i <= |bytes| ensures Partial(max, r.got + bytes[..i]) {
      assert r.got + bytes[..i] == bytes[..i];
    }
    Gather(max, r, bytes);
    assert r.got + bytes == bytes;
  }

  /** Proper prefixes of what a header asks for are partial. */
  lemma {:induction false} PrefixIsPartial(max: nat, bytes: seq<Byte>, i: nat)
    requires i < |bytes| && (|bytes| <= 4 || (Uint(bytes[..4]) <= max && |bytes| <= 4 + Uint(bytes[..4])))
    ensures Partial(max, bytes[..i])
  {
    if i >= 4 {
      assert bytes[..i][..4] == bytes[..4];
    }
  }

  /** Up to the last byte that a header asks for the reader gathers; then it hands on a packet or fails. */
  lemma {:induction false} OnePacket(max: nat, r: Reader, bytes: seq<Byte>)
    requires !r.failed && r.got == [] && |bytes| >= 4
    requires |bytes| == if Uint(bytes[..4]) > max then 4 else 4 + Uint(bytes[..4])
    ensures Resume(max, r, AsItems(bytes)) ==
            if Uint(bytes[..4]) > max then Fail(r.(got := bytes))
            else r.(errors := 0, packets := r.packets + [bytes[4..]])
  {
    var n := |bytes| - 1;
    var most := bytes[..n];
    assert Resume(max, r, AsItems(most)) == r.(got := most) by {
      forall i | 0 < i <= n ensures Partial(max, most[..i]) {
        PrefixIsPartial(max, bytes, i);
        assert most[..i] == bytes[..i];
      }
      Waits(max, r, most);
    }
    assert AsItems(bytes) == AsItems(most) + [Got(bytes[n])];
    ResumeOn(max, r, AsItems(most), [Got(bytes[n])]);
    ResumeOne(max, r.(got := most), Got(bytes[n]));
    LastByte(max, r, bytes);
  }

  lemma {:induction false} LastByte(max: nat, r: Reader, bytes: seq<Byte>)
    requires !r.failed && r.got == [] && |bytes| >= 4
    requires |bytes| == if Uint(bytes[..4]) > max then 4 else 4 + Uint(bytes[..4])
    ensures Step(max, r.(got := bytes[..|bytes| - 1]), Got(bytes[|bytes| - 1])) ==
            if Uint(bytes[..4]) > max then Fail(r.(got := bytes))
            else r.(errors := 0, packets := r.packets + [bytes[4..]])
  {
    assert bytes[..|bytes| - 1] + [bytes[|bytes| - 1]] == bytes;
    assert !Partial(max, bytes);
  }

  lemma {:induction false} ResumeOne(max: nat, r: Reader, item: Item)
    ensures Resume(max, r, [item]) == Step(max, r, item)
  {
    assert [item][1..] == [];
  }

  lemma {:induction false} FrameArrives(max: nat, r: Reader, p: seq<Byte>)
    requires !r.failed && r.got == [] && |p| <= max && |p| < TWO_32
    ensures Resume(max, r, AsItems(EncodeFrame(p))) == r.(errors := 0, packets := r.packets + [p])
  {
    assert EncodeFrame(p) == EncodeFrame(p) + [];
    HeaderOf(p, []);
    assert p + [] == p;
    OnePacket(max, r, EncodeFrame(p));
  }

  // ---- Which packets arrive ----

  function LeadingFailures(items: seq<Item>): (k: nat)
    ensures k <= |items|
    ensures forall i :: 0 <= i < k ==> items[i] == Failure
    ensures k < |items| ==> items[k].Got?
  {
    if items == [] || items[0].Got? then 0 else 1 + LeadingFailures(items[1..])
  }

  /** The packet comes whole and is not too large, and in front of it are fewer failures than would end the loop. */
  predicate FirstWhole(max: nat, p: seq<Byte>, items: seq<Item>) {
    var k := LeadingFailures(items);
    k < 3 && |p| <= max && |p| < TWO_32 && AsItems(EncodeFrame(p)) <= items[k..]
  }

  function BehindFirst(p: seq<Byte>, items: seq<Item>): seq<Item>
    requires LeadingFailures(items) + 4 + |p| <= |items|
  {
    items[LeadingFailures(items) + 4 + |p|..]
  }

  /** All the packets come so, in order. */
  predicate Calm(max: nat, payloads: seq<seq<Byte>>, items: seq<Item>)
    decreases |payloads|
  {
    payloads == [] ||
    (FirstWhole(max, payloads[0], items) && Calm(max, payloads[1..], BehindFirst(payloads[0], items)))
  }

  /** Failures alone: they are counted, and from the third on nothing more is read. */
  lemma {:induction false} Failures(max: nat, r: Reader, items: seq<Item>)
    requires !r.failed && r.got == [] && forall i :: 0 <= i < |items| ==> items[i] == Failure
    requires r.errors < MAX_ERRORS
    ensures var t := Resume(max, r, items);
            && t.packets == r.packets && t.lost == r.lost && t.got == []
            && (t.failed <==> r.errors + |items| >= MAX_ERRORS)
            && (!t.failed ==> t.errors == r.errors + |items|)
    decreases |items|
  {
    if items != [] {
      var t := Step(max, r, Failure);
      if t.failed {
        AfterTheEnd(max, t, items[1..]);
        FailuresAreNoBytes(items[1..]);
      } else {
        Failures(max, t, items[1..]);
      }
    }
  }

  lemma {:induction false} FailuresAreNoBytes(items: seq<Item>)
    requires forall i :: 0 <= i < |items| ==> items[i] == Failure
    ensures Payload(items) == []
    decreases |items|
  {
    if items != [] {
      FailuresAreNoBytes(items[1..]);
    }
  }

  lemma {:induction false} AfterTheEnd(max: nat, r: Reader, items: seq<Item>)
    requires r.failed
    ensures Resume(max, r, items) == r.(lost := r.lost + |Payload(items)|)
    decreases |items|
  {
    if items != [] {
      AfterTheEnd(max, Step(max, r, items[0]), items[1..]);
    }
  }

  /** Without bytes nothing arrives. */
  lemma {:induction false} NoBytes(items: seq<Item>)
    requires Payload(items) == []
    ensures forall i :: 0 <= i < |items| ==> items[i] == Failure
    decreases |items|
  {
    if items != [] {
      NoBytes(items[1..]);
    }
  }

  predicate Fresh(r: Reader) {
    !r.failed && r.got == [] && r.errors == 0
  }

  lemma {:induction false} SkipFailures(items: seq<Item>)
    ensures Payload(items) == Payload(items[LeadingFailures(items)..])
    decreases |items|
  {
    if items != [] && items[0] == Failure {
      SkipFailures(items[1..]);
      assert items[1..][LeadingFailures(items[1..])..] == items[LeadingFailures(items)..];
    } else {
      assert items[0..] == items;
    }
  }

  /** The items are k failures, then this frame, then the rest. */
  predicate Starts(items: seq<Item>, k: nat, p: seq<Byte>) {
    && k <= |items| && (forall i :: 0 <= i < k ==> items[i] == Failure)
    && AsItems(EncodeFrame(p)) <= items[k..]
  }

  /** The first packet of a calm stream arrives and leaves the reader fresh. */
  lemma {:induction false} FirstArrives(max: nat, r: Reader, k: nat, p: seq<Byte>, items: seq<Item>)
    requires Fresh(r) && |p| <= max && |p| < TWO_32 && k < MAX_ERRORS && Starts(items, k, p)
    ensures Resume(max, r, items) == Resume(max, r.(packets := r.packets + [p]), items[k + 4 + |p|..])
  {
    var gap, frame, later := items[..k], AsItems(EncodeFrame(p)), items[k + 4 + |p|..];
    var t := Resume(max, r, gap);
    assert t == r.(errors := k) by {
      Failures(max, r, gap);
    }
    assert Resume(max, t, frame) == r.(packets := r.packets + [p]) by {
      FrameArrives(max, t, p);
    }
    assert items == gap + (frame + later);
    ResumeOn(max, r, gap, frame + later);
    ResumeOn(max, t, frame, later);
  }

  lemma {:induction false} FirstCarries(k: nat, p: seq<Byte>, items: seq<Item>)
    requires Starts(items, k, p)
    ensures Payload(items) == EncodeFrame(p) + Payload(items[k + 4 + |p|..])
  {
    var gap, frame, later := items[..k], AsItems(EncodeFrame(p)), items[k + 4 + |p|..];
    assert items == gap + (frame + later);
    PayloadConcat(gap, frame + later);
    PayloadConcat(frame, later);
    PayloadOfBytes(EncodeFrame(p));
    FailuresAreNoBytes(gap);
  }

  /** What follows the first packet carries the packets after it. */
  lemma {:induction false} PeelFirst(payloads: seq<seq<Byte>>, rest: seq<Byte>)
    requires payloads != [] && Stream(payloads) == EncodeFrame(payloads[0]) + rest
    ensures rest == Stream(payloads[1..])
  {
    TakeDrop(EncodeFrame(payloads[0]), rest);
    TakeDrop(EncodeFrame(payloads[0]), Stream(payloads[1..]));
  }

  lemma {:induction false} HandedOn(packets: seq<seq<Byte>>, payloads: seq<seq<Byte>>)
    requires payloads != []
    ensures packets + [payloads[0]] + payloads[1..] == packets + payloads
    ensures packets + [payloads[0]] <= packets + payloads
  {
  }

  /** What is still to come behind a first packet that came whole, and the reader there. */
  lemma {:induction false} GoOn(max: nat, r: Reader, payloads: seq<seq<Byte>>, items: seq<Item>)
    requires Fresh(r) && payloads != [] && Payload(items) == Stream(payloads)
    requires FirstWhole(max, payloads[0], items)
    ensures var later := BehindFirst(payloads[0], items);
            && Payload(later) == Stream(payloads[1..])
            && Resume(max, r, items) == Resume(max, r.(packets := r.packets + [payloads[0]]), later)
  {
    var p, k := payloads[0], LeadingFailures(items);
    FirstArrives(max, r, k, p, items);
    assert Payload(BehindFirst(p, items)) == Stream(payloads[1..]) by {
      FirstCarries(k, p, items);
      PeelFirst(payloads, Payload(BehindFirst(p, items)));
    }
  }

  lemma {:induction false} NothingArrives(max: nat, r: Reader, items: seq<Item>)
    requires Fresh(r) && Payload(items) == []
    ensures Resume(max, r, items).packets == r.packets
  {
    NoBytes(items);
    Failures(max, r, items);
  }

  lemma {:induction false} CalmArrives(max: nat, r: Reader, payloads: seq<seq<Byte>>, items: seq<Item>)
    requires Fresh(r) && Payload(items) == Stream(payloads) && Calm(max, payloads, items)
    ensures Resume(max, r, items).packets == r.packets + payloads
    decreases |payloads|
  {
    if payloads == [] {
      NothingArrives(max, r, items);
      assert r.packets + payloads == r.packets;
    } else {
      GoOn(max, r, payloads, items);
      CalmArrives(max, r.(packets := r.packets + [payloads[0]]), payloads[1..], BehindFirst(payloads[0], items));
      HandedOn(r.packets, payloads);
    }
  }

  // ---- and only they do ----

  /** How many bytes come before the next failure or the end. */
  function LeadingBytes(items: seq<Item>): (m: nat)
    ensures m <= |items|
    ensures forall i :: 0 <= i < m ==> items[i].Got?
    ensures m < |items| ==> items[m] == Failure
  {
    if items == [] || items[0].Failure? then 0 else 1 + LeadingBytes(items[1..])
  }

  lemma {:induction false} LeadingAreBytes(items: seq<Item>, m: nat)
    requires m <= LeadingBytes(items)
    ensures m <= |Payload(items)| && items[..m] == AsItems(Payload(items)[..m])
    ensures m == |items| ==> |Payload(items)| == m
  {
    forall i | 0 <= i < m ensures items[i].Got? {
    }
    BytesOnly(items[..m]);
    assert items == items[..m] + items[m..];
    PayloadConcat(items[..m], items[m..]);
    assert Payload(items)[..m] == Payload(items[..m]);
  }

  lemma {:induction false} BytesOnly(items: seq<Item>)
    requires forall i :: 0 <= i < |items| ==> items[i].Got?
    ensures |Payload(items)| == |items| && items == AsItems(Payload(items))
    decreases |items|
  {
    if items != [] {
      BytesOnly(items[1..]);
      var rest := Payload(items[1..]);
      assert Payload(items) == [items[0].b] + rest;
      assert AsItems(Payload(items)) == [items[0]] + AsItems(rest);
      assert items == [items[0]] + items[1..];
    }
  }

  /** A failure in the middle of a packet drops what was read of it. */
  lemma {:induction false} Interrupted(max: nat, r: Reader, bytes: seq<Byte>, rest: seq<Item>)
    requires !r.failed && r.got == [] && forall i :: 0 < i <= |bytes| ==> Partial(max, bytes[..i])
    ensures Resume(max, r, AsItems(bytes) + ([Failure] + rest)) == Resume(max, Fail(r.(got := bytes)), rest)
  {
    ResumeOn(max, r, AsItems(bytes), [Failure] + rest);
    forall i | 0 < i <= |bytes| ensures Partial(max, r.got + bytes[..i]) {
      assert r.got + bytes[..i] == bytes[..i];
    }
    Gather(max, r, bytes);
    assert r.got + bytes == bytes;
    ResumeOn(max, r.(got := bytes), [Failure], rest);
    ResumeOne(max, r.(got := bytes), Failure);
  }

  /** Fewer bytes than the first packet wants, and then a failure. */
  lemma {:induction false} CutShort(max: nat, r: Reader, bytes: seq<Byte>, want: nat, items: seq<Item>)
    requires !r.failed && r.got == [] && 4 <= want <= |bytes|
    requires want == if Uint(bytes[..4]) > max then 4 else 4 + Uint(bytes[..4])
    requires 0 < LeadingBytes(items) < want && LeadingBytes(items) < |items| && bytes == Payload(items)
    ensures Resume(max, r, items).lost > r.lost
  {
    var m := LeadingBytes(items);
    var rest := items[m + 1..];
    LeadingAreBytes(items, m);
    assert items == AsItems(bytes[..m]) + ([Failure] + rest);
    forall i | 0 < i <= m ensures Partial(max, bytes[..m][..i]) {
      assert bytes[..m][..i] == bytes[..want][..i];
      assert bytes[..want][..4] == bytes[..4];
      PrefixIsPartial(max, bytes[..want], i);
    }
    Interrupted(max, r, bytes[..m], rest);
    EveryByteIsAccountedFor(max, Fail(r.(got := bytes[..m])), rest);
  }

  /** As many bytes as the first packet wants. */
  lemma {:induction false} ReadThrough(max: nat, r: Reader, bytes: seq<Byte>, want: nat, items: seq<Item>)
    requires !r.failed && r.got == [] && 4 <= want <= |bytes|
    requires want == if Uint(bytes[..4]) > max then 4 else 4 + Uint(bytes[..4])
    requires want <= LeadingBytes(items) && bytes == Payload(items)
    ensures AsItems(bytes[..want]) <= items
    ensures Uint(bytes[..4]) > max ==> Resume(max, r, items).lost > r.lost
    ensures Uint(bytes[..4]) <= max ==> r.packets + [bytes[4..want]] <= Resume(max, r, items).packets
  {
    LeadingAreBytes(items, want);
    var first, later := bytes[..want], items[want..];
    assert first[..4] == bytes[..4] && first[4..] == bytes[4..want];
    assert items == AsItems(first) + later;
    ResumeOn(max, r, AsItems(first), later);
    OnePacket(max, r, first);
    EveryByteIsAccountedFor(max, Resume(max, r, AsItems(first)), later);
  }

  /** The first packet either comes whole, or bytes are lost, or another packet comes instead. */
  lemma {:induction false} WholeOrNot(max: nat, r: Reader, p: seq<Byte>, items: seq<Item>)
    requires !r.failed && r.got == [] && items != [] && items[0].Got? && EncodeFrame(p) <= Payload(items)
    ensures var t := Resume(max, r, items);
            || (|p| <= max && |p| < TWO_32 && AsItems(EncodeFrame(p)) <= items)
            || t.lost > r.lost
            || !(r.packets + [p] <= t.packets)
  {
    var bytes, frame := Payload(items), EncodeFrame(p);
    HeaderOf(p, bytes[|frame|..]);
    assert bytes == frame + bytes[|frame|..];
    var n := |p| % TWO_32;
    assert n <= |p|;
    var want := if n > max then 4 else 4 + n;
    if LeadingBytes(items) < want {
      LeadingAreBytes(items, LeadingBytes(items));
      CutShort(max, r, bytes, want, items);
    } else {
      ReadThrough(max, r, bytes, want, items);
      if n == |p| {
        assert bytes[..4 + n] == frame;
      } else if n <= max {
        OtherPacket(r.packets, bytes[4..want], p, Resume(max, r, items).packets);
      }
    }
  }

  lemma {:induction false} OtherPacket(packets: seq<seq<Byte>>, q: seq<Byte>, p: seq<Byte>, all: seq<seq<Byte>>)
    requires packets + [q] <= all && p != q
    ensures !(packets + [p] <= all)
  {
    var n := |packets|;
    assert all[n] == (packets + [q])[n] == q;
    assert (packets + [p])[n] == p;
  }

  /** A gap of three failures ends the loop, and the bytes behind it are lost. */
  lemma {:induction false} LongGapIsLost(max: nat, r: Reader, items: seq<Item>)
    requires Fresh(r) && LeadingFailures(items) >= MAX_ERRORS && Payload(items) != []
    ensures Resume(max, r, items).lost > r.lost
  {
    var k := LeadingFailures(items);
    assert items == items[..k] + items[k..];
    ResumeOn(max, r, items[..k], items[k..]);
    Failures(max, r, items[..k]);
    AfterTheEnd(max, Resume(max, r, items[..k]), items[k..]);
    SkipFailures(items);
  }

  /** If nothing is lost and p is handed on first, it came whole, behind a short enough gap. */
  lemma {:induction false} FirstIsCalm(max: nat, r: Reader, p: seq<Byte>, items: seq<Item>)
    requires Fresh(r) && EncodeFrame(p) <= Payload(items)
    requires r.packets + [p] <= Resume(max, r, items).packets && Resume(max, r, items).lost == r.lost
    ensures FirstWhole(max, p, items)
  {
    var k := LeadingFailures(items);
    SkipFailures(items);
    if k >= MAX_ERRORS {
      LongGapIsLost(max, r, items);
    } else {
      assert items == items[..k] + items[k..];
      ResumeOn(max, r, items[..k], items[k..]);
      Failures(max, r, items[..k]);
      assert items[k..] != [];
      WholeOrNot(max, Resume(max, r, items[..k]), p, items[k..]);
    }
  }

  lemma {:induction false} ArrivedIsCalm(max: nat, r: Reader, payloads: seq<seq<Byte>>, items: seq<Item>)
    requires Fresh(r) && Payload(items) == Stream(payloads)
    requires Resume(max, r, items).packets == r.packets + payloads && Resume(max, r, items).lost == r.lost
    ensures Calm(max, payloads, items)
    decreases |payloads|
  {
    if payloads != [] {
      var p := payloads[0];
      HandedOn(r.packets, payloads);
      assert EncodeFrame(p) <= Stream(payloads);
      FirstIsCalm(max, r, p, items);
      GoOn(max, r, payloads, items);
      ArrivedIsCalm(max, r.(packets := r.packets + [p]), payloads[1..], BehindFirst(p, items));
    }
  }

  lemma {:induction false} StreamSize(payloads: seq<seq<Byte>>)
    ensures |Stream(payloads)| == Size(payloads)
    decreases |payloads|
  {
    if payloads != [] {
      var n := |payloads| - 1;
      StreamSize(payloads[..n]);
      StreamSnoc(payloads[..n], payloads[n]);
      assert payloads == payloads[..n] + [payloads[n]];
    }
  }

  lemma {:induction false} StreamSnoc(payloads: seq<seq<Byte>>, p: seq<Byte>)
    ensures |Stream(payloads + [p])| == |Stream(payloads)| + 4 + |p|
    decreases |payloads|
  {
    if payloads == [] {
      assert (payloads + [p])[1..] == [];
    } else {
      assert (payloads + [p])[1..] == payloads[1..] + [p];
      StreamSnoc(payloads[1..], p);
    }
  }

  /** If exactly these packets are handed on, no byte was lost. */
  lemma {:induction false} NothingIsLost(max: nat, payloads: seq<seq<Byte>>, items: seq<Item>)
    requires Payload(items) == Stream(payloads) && Resume(max, START, items).packets == payloads
    ensures Resume(max, START, items).lost == 0
  {
    EveryByteIsAccountedFor(max, START, items);
    StreamSize(payloads);
  }

  /**
   * However failures fall between the bytes of a stream of packets, exactly those packets are handed on if and only
   * if every failure falls between two packets, never three in a row before a further packet, and none is too large.
   */
  lemma {:induction false} ArrivesExactlyIfCalm(max: nat, payloads: seq<seq<Byte>>, items: seq<Item>)
    requires Payload(items) == Stream(payloads)
    ensures Resume(max, START, items).packets == payloads <==> Calm(max, payloads, items)
  {
    assert START.packets + payloads == payloads;
    if Calm(max, payloads, items) {
      CalmArrives(max, START, payloads, items);
    } else if Resume(max, START, items).packets == payloads {
      NothingIsLost(max, payloads, items);
      ArrivedIsCalm(max, START, payloads, items);
    }
  }

  /** The header of a frame has been read when the read fails; the body follows. */
  function BrokenAfterHeader(p: seq<Byte>): seq<Item> {
    AsItems(EncodeFrame(p)[..4]) + ([Failure] + AsItems(p))
  }

  lemma {:induction false} BrokenCarries(p: seq<Byte>)
    ensures Payload(BrokenAfterHeader(p)) == Stream([p])
  {
    var frame := EncodeFrame(p);
    assert frame + [] == frame;
    HeaderOf(p, []);
    PayloadConcat(AsItems(frame[..4]), [Failure] + AsItems(p));
    PayloadConcat([Failure], AsItems(p));
    PayloadOfBytes(frame[..4]);
    PayloadOfBytes(p);
    FailuresAreNoBytes([Failure]);
    var one: seq<seq<Byte>> := [p];
    assert Stream(one) == frame + Stream(one[1..]) && Stream(one[1..]) == [];
  }

  /** The reader drops the header and takes the body for the start of a packet. */
  lemma {:induction false} BrokenIsDropped(max: nat, p: seq<Byte>)
    requires 0 < |p| <= max && |p| < TWO_32
    ensures Resume(max, START, BrokenAfterHeader(p)) == Resume(max, START.(errors := 1, lost := 4), AsItems(p))
  {
    var frame := EncodeFrame(p);
    assert frame + [] == frame;
    HeaderOf(p, []);
    var header := frame[..4];
    forall i | 0 < i <= |header| ensures Partial(max, header[..i]) {
      PrefixIsPartial(max, frame, i);
      assert frame[..i] == header[..i];
    }
    Interrupted(max, START, header, AsItems(p));
  }

  /** One failure behind a header, and a packet that nobody sent is handed on: the one spelt by the body. */
  lemma {:induction false} FailureDeliversAPacketNeverSent(max: nat, q: seq<Byte>)
    requires |q| + 4 <= max && |q| + 4 < TWO_32
    ensures var sent := EncodeFrame(q);
            && Payload(BrokenAfterHeader(sent)) == Stream([sent])
            && Resume(max, START, BrokenAfterHeader(sent)).packets == [q]
  {
    var sent := EncodeFrame(q);
    BrokenCarries(sent);
    BrokenIsDropped(max, sent);
    var t := START.(errors := 1, lost := 4);
    FrameArrives(max, t, q);
    assert t.packets + [q] == [q];
  }

  // ---- The loops of the source ----

  /** Blocked: all that will ever arrive has been read. */
  datatype Read = Done(bytes: seq<Byte>) | Failed(bytes: seq<Byte>) | Blocked(bytes: seq<Byte>)

  method ReadFull(input: seq<Item>, n: nat) returns (r: Read, rest: seq<Item>)
    ensures r.Done? ==> |r.bytes| == n && input == AsItems(r.bytes) + rest
    ensures r.Failed? ==> |r.bytes| < n && input == AsItems(r.bytes) + ([Failure] + rest)
    ensures r.Blocked? ==> |r.bytes| < n && input == AsItems(r.bytes) && rest == []
  {
    var bytes: seq<Byte> := [];
    rest := input;
    assert input == AsItems([]) + input;
    while |bytes| < n
      invariant |bytes| <= n && input == AsItems(bytes) + rest
    {
      if rest == [] {
        return Blocked(bytes), [];
      }
      if rest[0] == Failure {
        assert rest == [Failure] + rest[1..];
        return Failed(bytes), rest[1..];
      }
      assert rest == [Got(rest[0].b)] + rest[1..];
      assert AsItems(bytes + [rest[0].b]) == AsItems(bytes) + [Got(rest[0].b)];
      bytes, rest := bytes + [rest[0].b], rest[1..];
    }
    r := Done(bytes);
  }

  datatype Packet = Whole(data: seq<Byte>) | Error(dropped: nat) | Waiting(got: seq<Byte>)

  /** What a reader at the start of a packet becomes by what readPacket returns. */
  function Received(r: Reader, p: Packet): Reader {
    match p
    case Whole(data) => r.(errors := 0, packets := r.packets + [data])
    case Error(dropped) =>
      r.(errors := r.errors + 1, failed := r.errors + 1 >= MAX_ERRORS, lost := r.lost + dropped)
    case Waiting(got) => r.(got := got)
  }

  lemma {:induction false} BodyIsPartial(max: nat, header: seq<Byte>, body: seq<Byte>, i: nat)
    requires |header| == 4 && Uint(header) <= max && |body| < Uint(header) && i <= 4 + |body|
    ensures Partial(max, (header + body)[..i])
  {
    if i >= 4 {
      assert (header + body)[..i][..4] == header;
    }
  }

  method ReadPacket(max: nat, input: seq<Item>, ghost r: Reader) returns (p: Packet, rest: seq<Item>)
    requires !r.failed && r.got == []
    ensures Resume(max, r, input) == Resume(max, Received(r, p), rest)
    ensures p.Waiting? ==> rest == []
    ensures !p.Waiting? ==> |rest| < |input|
  {
    var header, afterHeader := ReadFull(input, 4);
    if header.Failed? {
      Interrupted(max, r, header.bytes, afterHeader);
      return Error(|header.bytes|), afterHeader;
    }
    if header.Blocked? {
      Waits(max, r, header.bytes);
      return Waiting(header.bytes), [];
    }
    var length := Uint(header.bytes);
    assert header.bytes[..4] == header.bytes;
    if length > max {
      ResumeOn(max, r, AsItems(header.bytes), afterHeader);
      OnePacket(max, r, header.bytes);
      return Error(4), afterHeader;
    }
    var body, afterBody := ReadFull(afterHeader, length);
    ghost var bytes := header.bytes + body.bytes;
    assert AsItems(bytes) == AsItems(header.bytes) + AsItems(body.bytes);
    if body.Done? {
      assert input == AsItems(bytes) + afterBody;
      ResumeOn(max, r, AsItems(bytes), afterBody);
      assert bytes[..4] == header.bytes && bytes[4..] == body.bytes;
      OnePacket(max, r, bytes);
      return Whole(body.bytes), afterBody;
    }
    forall i | 0 < i <= |bytes| ensures Partial(max, bytes[..i]) {
      BodyIsPartial(max, header.bytes, body.bytes, i);
    }
    if body.Failed? {
      assert input == AsItems(bytes) + ([Failure] + afterBody);
      Interrupted(max, r, bytes, afterBody);
      return Error(4 + |body.bytes|), afterBody;
    }
    assert input == AsItems(bytes);
    Waits(max, r, bytes);
    return Waiting(header.bytes + body.bytes), [];
  }

  /** The receive loop hands on the packets, counts the errors and ends as the specification says. */
  method ReceiveLoop(max: nat, input: seq<Item>) returns (packets: seq<seq<Byte>>, failed: bool)
    ensures packets == Resume(max, START, input).packets && failed == Resume(max, START, input).failed
  {
    ghost var all := Resume(max, START, input);
    ghost var r := START;
    var left, errors, waiting := input, 0, false;
    packets, failed := [], false;
    while !failed && !waiting
      invariant all == Resume(max, r, left)
      invariant r.packets == packets && r.errors == errors && r.failed == failed
      invariant !waiting ==> r.got == []
      invariant waiting ==> left == []
      decreases |left|, !waiting
    {
      var p, rest := ReadPacket(max, left, r);
      r := Received(r, p);
      left := rest;
      match p
      case Whole(data) => errors, packets := 0, packets + [data];
      case Error(_) =>
        errors := errors + 1;
        failed := errors >= MAX_ERRORS;
      case Waiting(_) => waiting := true;
    }
    if failed {
      AfterTheEnd(max, r, left);
    }
  }
}
