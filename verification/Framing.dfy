/**
 * Length-prefixed framing: the writer (protocol.EncodeFrame, simpleConn.SendRaw), the
 * connector's read loop and the master's message loop.
 */
module Framing {
  import opened Bytes
  import opened Prelude

  /** Longest payload length that the two decoders take as a length (64*1024). */
  const MAX_PAYLOAD: nat := 65536
  /** Size of the pooled buffer one conn.Read fills. */
  const READ_SIZE: nat := 4096
  /** The connector closes the session when its buffer grows beyond this. */
  const CUT_OFF: nat := 65536
  /** The master closes the connection when its buffer grows beyond this. */
  const MASTER_CUT_OFF: nat := 1048576
  /** Largest frame, header included, that no sequence of reads can cut off. */
  const SAFE_FRAME: nat := 61441

  // ---- One frame ----

  function EncodeFrame(data: seq<Byte>): (frame: seq<Byte>)
    ensures |frame| == 4 + |data|
  {
    Put32(|data| % TWO_32) + data
  }

  datatype FrameError = TooShort | Incomplete
  datatype FrameResult = Ok(data: seq<Byte>) | Err(error: FrameError) | Panic

  /** The slice's upper bound 4+size is a uint32: it wraps, and a bound below 4 makes Go panic. */
  function DecodeFrame(buf: seq<Byte>): FrameResult {
    if |buf| < 4 then Err(TooShort)
    else
      var size := Uint(buf[..4]);
      if size > |buf| - 4 then Err(Incomplete)
      else
        var end := (4 + size) % TWO_32;
        if end < 4 then Panic else Ok(buf[4..end])
  }

  /** The buffer holds a header and all the bytes its length asks for. */
  predicate HoldsFrame(buf: seq<Byte>) {
    |buf| >= 4 && 4 + Uint(buf[..4]) <= |buf|
  }

  /** On any buffer: a result exactly if it holds a frame, of a length whose end does not wrap; else which refusal. */
  lemma {:induction false} DecodeFrameExactly(buf: seq<Byte>)
    ensures (exists data :: DecodeFrame(buf) == Ok(data)) <==> HoldsFrame(buf) && Uint(buf[..4]) < TWO_32 - 4
    ensures forall data :: DecodeFrame(buf) == Ok(data) ==>
              HoldsFrame(buf) && |data| == Uint(buf[..4]) && buf[..4] + data <= buf
    ensures DecodeFrame(buf) == Err(TooShort) <==> |buf| < 4
    ensures DecodeFrame(buf) == Err(Incomplete) <==> |buf| >= 4 && !HoldsFrame(buf)
    ensures DecodeFrame(buf) == Panic <==> HoldsFrame(buf) && Uint(buf[..4]) >= TWO_32 - 4
  {
    if |buf| >= 4 {
      var size := Uint(buf[..4]);
      FourBytes(buf[..4]);
      EndWraps(size);
      if HoldsFrame(buf) && size < TWO_32 - 4 {
        assert DecodeFrame(buf) == Ok(buf[4..4 + size]);
        assert buf[..4 + size] == buf[..4] + buf[4..4 + size];
      }
    }
  }

  lemma {:induction false} FourBytes(b: seq<Byte>)
    requires |b| == 4
    ensures Uint(b) < TWO_32
  {
    assert b == [] + b[..2] + b[2..];
    UintConcat2([], b[..2]);
    UintConcat2([] + b[..2], b[2..]);
    TwoBytes(b[..2]);
    TwoBytes(b[2..]);
  }

  lemma HeaderOf(data: seq<Byte>, rest: seq<Byte>)
    ensures (EncodeFrame(data) + rest)[..4] == Put32(|data| % TWO_32)
    ensures Uint((EncodeFrame(data) + rest)[..4]) == |data| % TWO_32
    ensures (EncodeFrame(data) + rest)[4..] == data + rest
  {
    var header := Put32(|data| % TWO_32);
    assert EncodeFrame(data) + rest == header + (data + rest);
    TakeDrop(header, data + rest);
  }

  lemma TakeDrop<T>(a: seq<T>, b: seq<T>)
    ensures (a + b)[..|a|] == a && (a + b)[|a|..] == b
  {
  }

  /** A frame decodes to its payload, whatever follows it, for exactly the lengths whose frame is shorter than 2^32. */
  lemma FrameRoundTrip(data: seq<Byte>, rest: seq<Byte>)
    ensures DecodeFrame(EncodeFrame(data) + rest) == Ok(data) <==> |data| < TWO_32 - 4
  {
    HeaderOf(data, rest);
    var buf := EncodeFrame(data) + rest;
    var size := |data| % TWO_32;
    assert size <= |data|;
    assert buf[4..4 + size] == data[..size];
    if |data| < TWO_32 - 4 {
      EndWraps(size);
      assert data[..size] == data;
    }
  }

  /** The lengths that panic: the four largest that a header can hold, and what wraps around to them. */
  lemma FrameDecoderPanics(data: seq<Byte>, rest: seq<Byte>)
    ensures DecodeFrame(EncodeFrame(data) + rest) == Panic <==> |data| % TWO_32 >= TWO_32 - 4
  {
    HeaderOf(data, rest);
    var size := |data| % TWO_32;
    assert size <= |data|;
    EndWraps(size);
  }

  lemma EndWraps(size: nat)
    requires size < TWO_32
    ensures (4 + size) % TWO_32 == if size >= TWO_32 - 4 then 4 + size - TWO_32 else 4 + size
  {
  }

  // ---- The decoding loops ----

  datatype Dialect = Connector | Master
  datatype Decoded = Decoded(frames: seq<seq<Byte>>, rest: seq<Byte>)

  /** What one pass of dispatchMessages (or of the master's loop) cuts from a buffer. */
  function Decode(d: Dialect, buf: seq<Byte>): (r: Decoded)
    decreases |buf|
  {
    if |buf| < 4 then Decoded([], buf)
    else
      var n := Uint(buf[..4]);
      if n > MAX_PAYLOAD then Decode(d, buf[4..])
      else if d.Master? && n == 0 then Decoded([], buf)
      else if n + 4 > |buf| then Decoded([], buf)
      else
        var r := Decode(d, buf[4 + n..]);
        Decoded([buf[4..4 + n]] + r.frames, r.rest)
  }

  /** A buffer that starts with a whole frame gives that frame and then what follows it gives. */
  lemma {:induction false} CutAhead(d: Dialect, a: seq<Byte>, b: seq<Byte>, n: nat)
    requires |a| >= 4 && n == Uint(a[..4]) <= MAX_PAYLOAD && 4 + n <= |a| && !(d.Master? && n == 0)
    ensures var r := Decode(d, a[4 + n..] + b);
            Decode(d, a + b) == Decoded([a[4..4 + n]] + r.frames, r.rest)
  {
    assert (a + b)[..4] == a[..4];
    assert (a + b)[4 + n..] == a[4 + n..] + b;
    assert (a + b)[4..4 + n] == a[4..4 + n];
  }

  lemma {:induction false} FramesAssociate(x: seq<Byte>, f: seq<seq<Byte>>, g: seq<seq<Byte>>)
    ensures [x] + (f + g) == [x] + f + g
  {
  }

  /** Cutting the stream anywhere changes neither the frames nor what is left over. */
  lemma {:induction false} DecodeSplit(d: Dialect, a: seq<Byte>, b: seq<Byte>)
    ensures Decode(d, a + b).frames == Decode(d, a).frames + Decode(d, Decode(d, a).rest + b).frames
    ensures Decode(d, a + b).rest == Decode(d, Decode(d, a).rest + b).rest
    decreases |a|
  {
    if |a| >= 4 {
      var n := Uint(a[..4]);
      if n > MAX_PAYLOAD {
        assert (a + b)[..4] == a[..4];
        assert (a + b)[4..] == a[4..] + b;
        DecodeSplit(d, a[4..], b);
      } else if (d.Master? && n == 0) || n + 4 > |a| {
      } else {
        CutAhead(d, a, b, n);
        DecodeSplit(d, a[4 + n..], b);
        var first := Decode(d, a[4 + n..]);
        FramesAssociate(a[4..4 + n], first.frames, Decode(d, first.rest + b).frames);
      }
    }
  }

  function Concat(chunks: seq<seq<Byte>>): seq<Byte> {
    if chunks == [] then [] else chunks[0] + Concat(chunks[1..])
  }

  /** Feeding the chunks one read at a time, without any size limit. */
  function Feed(d: Dialect, buf: seq<Byte>, chunks: seq<seq<Byte>>): Decoded
    decreases |chunks|
  {
    if chunks == [] then Decoded([], buf)
    else
      var now := Decode(d, buf + chunks[0]);
      var later := Feed(d, now.rest, chunks[1..]);
      Decoded(now.frames + later.frames, later.rest)
  }

  lemma {:induction false} FeedOn(d: Dialect, seen: seq<Byte>, chunks: seq<seq<Byte>>)
    ensures var fed := Feed(d, Decode(d, seen).rest, chunks);
            && Decode(d, seen).frames + fed.frames == Decode(d, seen + Concat(chunks)).frames
            && fed.rest == Decode(d, seen + Concat(chunks)).rest
    decreases |chunks|
  {
    if chunks == [] {
      assert seen + Concat(chunks) == seen;
    } else {
      assert seen + Concat(chunks) == (seen + chunks[0]) + Concat(chunks[1..]);
      DecodeSplit(d, seen, chunks[0]);
      FeedOn(d, seen + chunks[0], chunks[1..]);
    }
  }

  /** However the bytes are cut into reads, they decode as if they had all come at once. */
  lemma FeedIsDecode(d: Dialect, chunks: seq<seq<Byte>>)
    ensures Feed(d, [], chunks) == Decode(d, Concat(chunks))
  {
    FeedOn(d, [], chunks);
    assert [] + Concat(chunks) == Concat(chunks);
    assert [] + Feed(d, [], chunks).frames == Feed(d, [], chunks).frames;
  }

  /** A length that the decoder takes for a frame of that length. */
  predicate Accepts(d: Dialect, n: nat) {
    n <= 65536 && (d.Master? ==> n != 0)
  }

  lemma {:induction false} FramesAreShort(d: Dialect, buf: seq<Byte>)
    ensures forall f :: f in Decode(d, buf).frames ==> Accepts(d, |f|) && |f| + 4 <= |buf|
    decreases |buf|
  {
    if |buf| >= 4 {
      var n := Uint(buf[..4]);
      if n > MAX_PAYLOAD {
        FramesAreShort(d, buf[4..]);
      } else if (d.Master? && n == 0) || n + 4 > |buf| {
      } else {
        FramesAreShort(d, buf[4 + n..]);
      }
    }
  }

  /** What a sender writes arrives as itself exactly when its length is one the decoder accepts. */
  lemma SentPayloadArrives(d: Dialect, data: seq<Byte>)
    ensures Decode(d, EncodeFrame(data)) == Decoded([data], [])
       <==> Accepts(d, |data|)
  {
    var buf := EncodeFrame(data);
    assert buf == buf + [];
    HeaderOf(data, []);
    var n := |data| % TWO_32;
    if |data| <= MAX_PAYLOAD {
      assert buf[4..4 + n] == data;
      assert buf[4 + n..] == [];
    } else {
      FramesAreShort(d, buf);
      assert data in [data];
    }
  }

  /** An oversized length word is thrown away by itself: what follows decodes as if it had not been there. */
  lemma {:induction false} OversizedLengthIsSkipped(d: Dialect, n: nat, rest: seq<Byte>)
    requires MAX_PAYLOAD < n < TWO_32
    ensures Decode(d, Put32(n) + rest) == Decode(d, rest)
  {
    TakeDrop(Put32(n), rest);
  }

  lemma ZeroLengthStops(buf: seq<Byte>, more: seq<Byte>)
    requires |buf| >= 4 && Uint(buf[..4]) == 0
    ensures Decode(Master, buf + more) == Decoded([], buf + more)
  {
    assert (buf + more)[..4] == buf[..4];
  }

  /** A zero length word stops the master's loop for good: whatever is read later, no frame comes out. */
  lemma {:induction false} MasterStopsAtZeroLength(buf: seq<Byte>, chunks: seq<seq<Byte>>)
    requires |buf| >= 4 && Uint(buf[..4]) == 0
    ensures Feed(Master, buf, chunks) == Decoded([], buf + Concat(chunks))
    decreases |chunks|
  {
    if chunks == [] {
      assert buf + [] == buf;
    } else {
      var grown := buf + chunks[0];
      assert grown[..4] == buf[..4];
      ZeroLengthStops(buf, chunks[0]);
      MasterStopsAtZeroLength(grown, chunks[1..]);
      assert buf + Concat(chunks) == grown + Concat(chunks[1..]);
    }
  }

  /** Apart from a zero length word in the master's dialect, less than one frame of the largest size is left over. */
  lemma {:induction false} LeftoverIsShort(d: Dialect, buf: seq<Byte>)
    ensures var rest := Decode(d, buf).rest;
            && |rest| <= |buf|
            && (|rest| < MAX_PAYLOAD + 4 || (d.Master? && Uint(rest[..4]) == 0))
    decreases |buf|
  {
    if |buf| >= 4 {
      var n := Uint(buf[..4]);
      if n > MAX_PAYLOAD {
        LeftoverIsShort(d, buf[4..]);
      } else if (d.Master? && n == 0) || n + 4 > |buf| {
      } else {
        LeftoverIsShort(d, buf[4 + n..]);
      }
    }
  }

  // ---- A whole session ----

  datatype Session = Session(frames: seq<seq<Byte>>, rest: seq<Byte>, cut: bool)

  function CutOff(d: Dialect): nat {
    if d.Master? then MASTER_CUT_OFF else CUT_OFF
  }

  /** The read loop over the bytes of successive reads, from the buffer `buf`. */
  function ReadAll(d: Dialect, buf: seq<Byte>, chunks: seq<seq<Byte>>): Session
    decreases |chunks|
  {
    if chunks == [] then Session([], buf, false)
    else
      var grown := buf + chunks[0];
      if |grown| > CutOff(d) then Session([], grown, true)
      else
        var now := Decode(d, grown);
        var later := ReadAll(d, now.rest, chunks[1..]);
        Session(now.frames + later.frames, later.rest, later.cut)
  }

  function Stream(payloads: seq<seq<Byte>>): seq<Byte> {
    if payloads == [] then [] else EncodeFrame(payloads[0]) + Stream(payloads[1..])
  }

  /** Frames no longer than `limit`, header included, with lengths the decoder accepts. */
  predicate Fits(d: Dialect, payloads: seq<seq<Byte>>, limit: nat) {
    forall i :: 0 <= i < |payloads| ==> |payloads[i]| + 4 <= limit && Accepts(d, |payloads[i]|)
  }

  predicate ReadsOf(chunks: seq<seq<Byte>>, stream: seq<Byte>) {
    && (forall i :: 0 <= i < |chunks| ==> |chunks[i]| <= READ_SIZE)
    && Concat(chunks) <= stream
  }

  /** A buffer that starts with a whole frame gives that frame first. */
  lemma WholeFrameAhead(d: Dialect, data: seq<Byte>, x: seq<Byte>)
    requires Accepts(d, |data|)
    requires EncodeFrame(data) <= x
    ensures var r := Decode(d, x[4 + |data|..]);
            Decode(d, x) == Decoded([data] + r.frames, r.rest)
  {
    var f, y := EncodeFrame(data), x[4 + |data|..];
    assert x == f + y && f == f + [];
    HeaderOf(data, []);
    assert f[4..4 + |data|] == data && f[4 + |data|..] + y == y;
    CutAhead(d, f, y, |data|);
  }

  /** A buffer that holds only part of a frame is left as it is. */
  lemma {:induction false} PartFrameAhead(d: Dialect, data: seq<Byte>, x: seq<Byte>)
    requires Accepts(d, |data|)
    requires x <= EncodeFrame(data) && |x| < 4 + |data|
    ensures Decode(d, x) == Decoded([], x)
  {
    if |x| >= 4 {
      assert Uint(x[..4]) == |data| by {
        HeaderOf(data, []);
        assert x[..4] == (EncodeFrame(data) + [])[..4];
      }
    }
  }

  /** A prefix of a stream of frames decodes to the first k payloads, and leaves less than one frame. */
  lemma {:induction false} PrefixDecode(d: Dialect, payloads: seq<seq<Byte>>, x: seq<Byte>, limit: nat) returns (k: nat)
    requires Fits(d, payloads, limit)
    requires x <= Stream(payloads)
    requires limit >= 1
    ensures k <= |payloads|
    ensures Decode(d, x).frames == payloads[..k]
    ensures |Decode(d, x).rest| < limit
    ensures x == Stream(payloads) ==> k == |payloads| && Decode(d, x).rest == []
  {
    k := 0;
    if payloads != [] {
      var data, tail := payloads[0], payloads[1..];
      var frame := EncodeFrame(data);
      TakeDrop(frame, Stream(tail));
      if |x| < |frame| {
        assert x == Stream(payloads)[..|x|] == frame[..|x|];
        PartFrameAhead(d, data, x);
      } else {
        var y := x[|frame|..];
        assert y == Stream(tail)[..|y|];
        WholeFrameAhead(d, data, x);
        var j := PrefixDecode(d, tail, y, limit);
        k := j + 1;
        assert payloads[..k] == [data] + tail[..j];
      }
    }
  }

  /** A stream decodes to its payloads, with nothing left over, exactly if the decoder accepts all their lengths. */
  lemma {:induction false} StreamDecodesExactly(d: Dialect, payloads: seq<seq<Byte>>)
    ensures Decode(d, Stream(payloads)) == Decoded(payloads, [])
       <==> forall i :: 0 <= i < |payloads| ==> Accepts(d, |payloads[i]|)
  {
    if forall i :: 0 <= i < |payloads| ==> Accepts(d, |payloads[i]|) {
      assert Fits(d, payloads, MAX_PAYLOAD + 4);
      var k := PrefixDecode(d, payloads, Stream(payloads), MAX_PAYLOAD + 4);
      assert payloads[..k] == payloads;
    }
    if Decode(d, Stream(payloads)) == Decoded(payloads, []) {
      FramesAreShort(d, Stream(payloads));
    }
  }

  function Words(ns: seq<nat>): seq<Byte>
    requires forall i :: 0 <= i < |ns| ==> ns[i] < TWO_32
  {
    if ns == [] then [] else Put32(ns[0]) + Words(ns[1..])
  }

  /** Whatever number of oversized length words comes first, the frames behind them are found. */
  lemma {:induction false} Resynchronises(d: Dialect, ns: seq<nat>, rest: seq<Byte>)
    requires forall i :: 0 <= i < |ns| ==> MAX_PAYLOAD < ns[i] < TWO_32
    ensures Decode(d, Words(ns) + rest) == Decode(d, rest)
    decreases |ns|
  {
    if ns == [] {
      assert Words(ns) + rest == rest;
    } else {
      assert Words(ns) + rest == Put32(ns[0]) + (Words(ns[1..]) + rest);
      OversizedLengthIsSkipped(d, ns[0], Words(ns[1..]) + rest);
      Resynchronises(d, ns[1..], rest);
    }
  }

  /** From any point of a stream of short enough frames, the loop carries on to its end and is never cut off. */
  lemma {:induction false} ReadOn(
      d: Dialect, payloads: seq<seq<Byte>>, limit: nat, seen: seq<Byte>, chunks: seq<seq<Byte>>)
    requires Fits(d, payloads, limit) && 1 <= limit <= CutOff(d) - READ_SIZE + 1
    requires forall i :: 0 <= i < |chunks| ==> |chunks[i]| <= READ_SIZE
    requires seen + Concat(chunks) <= Stream(payloads)
    ensures var s := ReadAll(d, Decode(d, seen).rest, chunks);
            && !s.cut
            && Decode(d, seen).frames + s.frames == Decode(d, seen + Concat(chunks)).frames
            && s.rest == Decode(d, seen + Concat(chunks)).rest
    decreases |chunks|
  {
    var buf := Decode(d, seen).rest;
    if chunks == [] {
      assert seen + Concat(chunks) == seen;
    } else {
      assert seen + Concat(chunks) == (seen + chunks[0]) + Concat(chunks[1..]);
      assert seen <= Stream(payloads);
      var k := PrefixDecode(d, payloads, seen, limit);
      var grown := buf + chunks[0];
      assert |grown| <= CutOff(d);
      DecodeSplit(d, seen, chunks[0]);
      ReadOn(d, payloads, limit, seen + chunks[0], chunks[1..]);
    }
  }

  /** Whatever the reads, exactly the sent payloads come out, in order, if one more read always fits. */
  lemma {:induction false} StreamIsDelivered(
      d: Dialect, payloads: seq<seq<Byte>>, limit: nat, chunks: seq<seq<Byte>>)
    requires Fits(d, payloads, limit) && 1 <= limit <= CutOff(d) - READ_SIZE + 1
    requires ReadsOf(chunks, Stream(payloads))
    ensures !ReadAll(d, [], chunks).cut
    ensures ReadAll(d, [], chunks).frames <= payloads
    ensures Concat(chunks) == Stream(payloads) ==> ReadAll(d, [], chunks) == Session(payloads, [], false)
  {
    assert [] + Concat(chunks) == Concat(chunks);
    ReadOn(d, payloads, limit, [], chunks);
    assert [] + ReadAll(d, [], chunks).frames == ReadAll(d, [], chunks).frames;
    var k := PrefixDecode(d, payloads, Concat(chunks), limit);
    assert payloads[..k] <= payloads;
  }

  /** The connector's contract. */
  lemma SafeStreamIsDelivered(payloads: seq<seq<Byte>>, chunks: seq<seq<Byte>>)
    requires Fits(Connector, payloads, SAFE_FRAME)
    requires ReadsOf(chunks, Stream(payloads))
    ensures !ReadAll(Connector, [], chunks).cut
    ensures ReadAll(Connector, [], chunks).frames <= payloads
    ensures Concat(chunks) == Stream(payloads) ==> ReadAll(Connector, [], chunks) == Session(payloads, [], false)
  {
    StreamIsDelivered(Connector, payloads, SAFE_FRAME, chunks);
  }

  /** The master's contract: every stream of frames it accepts arrives, with no limit on their size but its own. */
  lemma MasterStreamIsDelivered(payloads: seq<seq<Byte>>, chunks: seq<seq<Byte>>)
    requires forall i :: 0 <= i < |payloads| ==> Accepts(Master, |payloads[i]|)
    requires ReadsOf(chunks, Stream(payloads))
    ensures !ReadAll(Master, [], chunks).cut
    ensures ReadAll(Master, [], chunks).frames <= payloads
    ensures Concat(chunks) == Stream(payloads) ==> ReadAll(Master, [], chunks) == Session(payloads, [], false)
  {
    StreamIsDelivered(Master, payloads, MAX_PAYLOAD + 4, chunks);
  }

  lemma {:induction false} SessionFramesAreAccepted(d: Dialect, buf: seq<Byte>, chunks: seq<seq<Byte>>)
    ensures forall f :: f in ReadAll(d, buf, chunks).frames ==> Accepts(d, |f|)
    decreases |chunks|
  {
    if chunks != [] && |buf + chunks[0]| <= CutOff(d) {
      FramesAreShort(d, buf + chunks[0]);
      SessionFramesAreAccepted(d, Decode(d, buf + chunks[0]).rest, chunks[1..]);
    }
  }

  /** The master delivers a stream, under whatever reads it comes in, exactly if it accepts all the lengths. */
  lemma {:induction false} MasterDeliversExactlyAcceptedStreams(payloads: seq<seq<Byte>>, chunks: seq<seq<Byte>>)
    requires ReadsOf(chunks, Stream(payloads)) && Concat(chunks) == Stream(payloads)
    ensures ReadAll(Master, [], chunks) == Session(payloads, [], false)
       <==> forall i :: 0 <= i < |payloads| ==> Accepts(Master, |payloads[i]|)
  {
    if forall i :: 0 <= i < |payloads| ==> Accepts(Master, |payloads[i]|) {
      MasterStreamIsDelivered(payloads, chunks);
    }
    SessionFramesAreAccepted(Master, [], chunks);
  }

  // ---- When the master cuts a connection off ----

  lemma {:induction false} MasterReadOn(seen: seq<Byte>, chunks: seq<seq<Byte>>)
    requires forall i :: 0 <= i < |chunks| ==> |chunks[i]| <= READ_SIZE
    requires |Decode(Master, seen).rest| <= MASTER_CUT_OFF
    ensures ReadAll(Master, Decode(Master, seen).rest, chunks).cut
       <==> |Decode(Master, seen + Concat(chunks)).rest| > MASTER_CUT_OFF
    decreases |chunks|
  {
    var buf := Decode(Master, seen).rest;
    if chunks == [] {
      assert seen + Concat(chunks) == seen;
    } else if |buf + chunks[0]| > MASTER_CUT_OFF {
      LeftoverIsShort(Master, seen);
      DecodeSplit(Master, seen, Concat(chunks));
      ZeroLengthStops(buf, Concat(chunks));
    } else {
      assert seen + Concat(chunks) == (seen + chunks[0]) + Concat(chunks[1..]);
      DecodeSplit(Master, seen, chunks[0]);
      LeftoverIsShort(Master, buf + chunks[0]);
      MasterReadOn(seen + chunks[0], chunks[1..]);
    }
  }

  /**
   * For arbitrary bytes the master cuts a connection off exactly when more than 1 MiB of them stays undecoded,
   * which takes a zero length word.
   */
  lemma MasterCutsExactlyBehindAZeroLength(chunks: seq<seq<Byte>>)
    requires forall i :: 0 <= i < |chunks| ==> |chunks[i]| <= READ_SIZE
    ensures var rest := Decode(Master, Concat(chunks)).rest;
            && (ReadAll(Master, [], chunks).cut <==> |rest| > 1024 * 1024)
            && (|rest| > 1024 * 1024 ==> Uint(rest[..4]) == 0)
  {
    assert Decode(Master, []).rest == [];
    assert [] + Concat(chunks) == Concat(chunks);
    MasterReadOn([], chunks);
    LeftoverIsShort(Master, Concat(chunks));
  }

  // ---- One byte more is not safe ----

  /** The bytes of x in reads of full size (the last one may be shorter). */
  function Pieces(x: seq<Byte>): (chunks: seq<seq<Byte>>)
    ensures forall i :: 0 <= i < |chunks| ==> |chunks[i]| <= READ_SIZE
    decreases |x|
  {
    if |x| <= READ_SIZE then [x] else [x[..READ_SIZE]] + Pieces(x[READ_SIZE..])
  }

  lemma {:induction false} ConcatPieces(x: seq<Byte>, z: seq<Byte>)
    ensures Concat(Pieces(x) + [z]) == x + z
    decreases |x|
  {
    if |x| <= READ_SIZE {
      assert (Pieces(x) + [z])[1..] == [z];
      assert Concat([z]) == z + Concat([]);
      assert Concat([z]) == z;
    } else {
      assert (Pieces(x) + [z])[1..] == Pieces(x[READ_SIZE..]) + [z];
      ConcatPieces(x[READ_SIZE..], z);
      assert x == x[..READ_SIZE] + x[READ_SIZE..];
    }
  }

  /** While the first frame is incomplete the buffer only grows, and one more read can push it over. */
  lemma {:induction false} IncompleteFrameIsCut(data: seq<Byte>, buf: seq<Byte>, y: seq<Byte>, z: seq<Byte>)
    requires |data| <= MAX_PAYLOAD
    requires buf + y <= EncodeFrame(data) && |buf + y| < |EncodeFrame(data)|
    requires |buf + y| <= CUT_OFF < |buf + y + z|
    ensures ReadAll(Connector, buf, Pieces(y) + [z]).cut
    decreases |y|
  {
    var chunks := Pieces(y) + [z];
    var grown := buf + chunks[0];
    assert grown <= EncodeFrame(data);
    PartFrameAhead(Connector, data, grown);
    if |y| <= READ_SIZE {
      assert chunks[1..] == [z];
      assert ReadAll(Connector, grown, [z]).cut;
    } else {
      assert chunks[1..] == Pieces(y[READ_SIZE..]) + [z];
      assert grown + y[READ_SIZE..] == buf + y;
      IncompleteFrameIsCut(data, grown, y[READ_SIZE..], z);
    }
  }

  ghost predicate NeverCut(limit: nat) {
    forall payloads, chunks {:trigger ReadsOf(chunks, Stream(payloads))} ::
      Fits(Connector, payloads, limit) && ReadsOf(chunks, Stream(payloads)) ==> !ReadAll(Connector, [], chunks).cut
  }

  /** 61,441 bytes is the exact limit: one more and some stream under some reads is cut off. */
  lemma SafeFrameIsTight(limit: nat)
    ensures NeverCut(limit) <==> limit <= 61441
  {
    if limit <= SAFE_FRAME {
      forall payloads, chunks | Fits(Connector, payloads, limit) && ReadsOf(chunks, Stream(payloads))
        ensures !ReadAll(Connector, [], chunks).cut
      {
        SafeStreamIsDelivered(payloads, chunks);
      }
    } else {
      var data: seq<Byte> := seq(SAFE_FRAME - 3, i => 0);
      var payloads := [data, data];
      var x := Stream(payloads);
      var frame := EncodeFrame(data);
      assert payloads[1..] == [data];
      assert Stream([data]) == frame + Stream([]);
      assert x == frame + frame;
      var y, z := x[..SAFE_FRAME], x[SAFE_FRAME..SAFE_FRAME + READ_SIZE];
      var chunks := Pieces(y) + [z];
      ConcatPieces(y, z);
      assert y + z == x[..SAFE_FRAME + READ_SIZE];
      assert ReadsOf(chunks, Stream(payloads));
      assert [] + y == y;
      assert y <= frame;
      IncompleteFrameIsCut(data, [], y, z);
      assert Fits(Connector, payloads, limit);
    }
  }

  // ---- The imperative loops, proved against the functions above ----

  /** The frames whose JSON body parses, as the messages offered to the session's channel. */
  function Parsed<M>(parse: seq<Byte> -> Option<M>, frames: seq<seq<Byte>>): seq<M> {
    if frames == [] then []
    else
      var rest := Parsed(parse, frames[1..]);
      match parse(frames[0])
      case Some(msg) => [msg] + rest
      case None => rest
  }

  lemma {:induction false} ParsedConcat<M>(parse: seq<Byte> -> Option<M>, a: seq<seq<Byte>>, b: seq<seq<Byte>>)
    ensures Parsed(parse, a + b) == Parsed(parse, a) + Parsed(parse, b)
    decreases |a|
  {
    if a == [] {
      assert a + b == b;
    } else {
      assert (a + b)[1..] == a[1..] + b;
      ParsedConcat(parse, a[1..], b);
    }
  }

  /** The messages offered are those of the frames that parse, in order and nothing else. */
  lemma {:induction false} ParsedInOrder<M>(parse: seq<Byte> -> Option<M>, frames: seq<seq<Byte>>, i: nat)
    requires i < |frames|
    ensures var before := Parsed(parse, frames[..i]);
            Parsed(parse, frames) ==
            before + (match parse(frames[i]) case Some(msg) => [msg] case None => []) + Parsed(parse, frames[i + 1..])
    ensures |Parsed(parse, frames)| <= |frames|
  {
    assert frames == frames[..i] + [frames[i]] + frames[i + 1..];
    ParsedConcat(parse, frames[..i] + [frames[i]], frames[i + 1..]);
    ParsedSnoc(parse, frames[..i], frames[i]);
    ParsedIsNoLonger(parse, frames);
  }

  lemma {:induction false} ParsedIsNoLonger<M>(parse: seq<Byte> -> Option<M>, frames: seq<seq<Byte>>)
    ensures |Parsed(parse, frames)| <= |frames|
    decreases |frames|
  {
    if frames != [] {
      ParsedIsNoLonger(parse, frames[1..]);
    }
  }

  function Written<M>(write: M -> seq<Byte>, messages: seq<M>): (payloads: seq<seq<Byte>>)
    ensures |payloads| == |messages|
    ensures forall i :: 0 <= i < |messages| ==> payloads[i] == write(messages[i])
  {
    if messages == [] then [] else [write(messages[0])] + Written(write, messages[1..])
  }

  lemma {:induction false} ParsedAsWritten<M>(
      write: M -> seq<Byte>, parse: seq<Byte> -> Option<M>, messages: seq<M>)
    requires forall m :: parse(write(m)) == Some(m)
    ensures Parsed(parse, Written(write, messages)) == messages
    decreases |messages|
  {
    if messages != [] {
      ParsedAsWritten(write, parse, messages[1..]);
      assert Written(write, messages)[1..] == Written(write, messages[1..]);
      assert messages == [messages[0]] + messages[1..];
    }
  }

  /** From end to end: messages that are written, framed and sent come out of the connector's loop as they were. */
  lemma {:induction false} MessagesArrive<M>(
      write: M -> seq<Byte>, parse: seq<Byte> -> Option<M>, messages: seq<M>, chunks: seq<seq<Byte>>)
    requires forall m :: parse(write(m)) == Some(m)
    requires Fits(Connector, Written(write, messages), SAFE_FRAME)
    requires ReadsOf(chunks, Stream(Written(write, messages))) && Concat(chunks) == Stream(Written(write, messages))
    ensures ReadAll(Connector, [], chunks) == Session(Written(write, messages), [], false)
    ensures Parsed(parse, ReadAll(Connector, [], chunks).frames) == messages
  {
    SafeStreamIsDelivered(Written(write, messages), chunks);
    ParsedAsWritten(write, parse, messages);
  }

  class Connection<M> {
    const parse: seq<Byte> -> Option<M>
    var readBuf: seq<Byte>
    var offered: seq<M>

    constructor (parse: seq<Byte> -> Option<M>)
      ensures this.parse == parse && readBuf == [] && offered == []
    {
      this.parse := parse;
      readBuf := [];
      offered := [];
    }

    method DispatchMessages()
      modifies this
      ensures readBuf == Decode(Connector, old(readBuf)).rest
      ensures offered == old(offered) + Parsed(parse, Decode(Connector, old(readBuf)).frames)
    {
      ghost var frames: seq<seq<Byte>> := [];
      while |readBuf| >= 4
        invariant Decode(Connector, old(readBuf)).frames == frames + Decode(Connector, readBuf).frames
        invariant Decode(Connector, old(readBuf)).rest == Decode(Connector, readBuf).rest
        invariant offered == old(offered) + Parsed(parse, frames)
        decreases |readBuf|
      {
        var length := Uint(readBuf[..4]);
        if length > MAX_PAYLOAD {
          readBuf := readBuf[4..];
          continue;
        }
        if length + 4 > |readBuf| {
          break;
        }
        var data := readBuf[4..4 + length];
        readBuf := readBuf[4 + length..];
        ParsedConcat(parse, frames, [data]);
        frames := frames + [data];
        assert Parsed(parse, [data]) == match parse(data) case Some(msg) => [msg] case None => [];
        match parse(data)
        case Some(msg) => offered := offered + [msg];
        case None =>
      }
      assert frames + [] == frames;
    }

    /** One pass of readLoop after a read returned `chunk`; `closed` says that the size check ended it. */
    method Receive(chunk: seq<Byte>) returns (closed: bool)
      modifies this
      ensures closed <==> |old(readBuf) + chunk| > CUT_OFF
      ensures closed ==> readBuf == old(readBuf) + chunk && offered == old(offered)
      ensures var now := Decode(Connector, old(readBuf) + chunk);
              !closed ==> readBuf == now.rest && offered == old(offered) + Parsed(parse, now.frames)
    {
      readBuf := readBuf + chunk;
      closed := |readBuf| > CUT_OFF;
      if !closed {
        DispatchMessages();
      }
    }

    method ReadLoop(chunks: seq<seq<Byte>>) returns (closed: bool)
      modifies this
      ensures closed == ReadAll(Connector, old(readBuf), chunks).cut
      ensures readBuf == ReadAll(Connector, old(readBuf), chunks).rest
      ensures offered == old(offered) + Parsed(parse, ReadAll(Connector, old(readBuf), chunks).frames)
    {
      ghost var frames: seq<seq<Byte>> := [];
      ghost var all := ReadAll(Connector, readBuf, chunks);
      closed := false;
      var left := chunks;
      while left != [] && !closed
        invariant all == if closed then Session(frames, readBuf, true) else Prepend(frames, ReadAll(Connector, readBuf, left))
        invariant offered == old(offered) + Parsed(parse, frames)
        decreases |left|
      {
        ghost var now := Decode(Connector, readBuf + left[0]);
        ghost var before := offered;
        ReadStep(Connector, frames, readBuf, left);
        closed := Receive(left[0]);
        left := left[1..];
        if !closed {
          ParsedConcat(parse, frames, now.frames);
          assert offered == before + Parsed(parse, now.frames) == old(offered) + Parsed(parse, frames + now.frames);
          frames := frames + now.frames;
        }
      }
      assert frames + [] == frames;
    }
  }

  lemma ReadStep(d: Dialect, frames: seq<seq<Byte>>, buf: seq<Byte>, chunks: seq<seq<Byte>>)
    requires chunks != []
    ensures var grown := buf + chunks[0];
            var now := Decode(d, grown);
            Prepend(frames, ReadAll(d, buf, chunks)) ==
            if |grown| > CutOff(d) then Session(frames, grown, true)
            else Prepend(frames + now.frames, ReadAll(d, now.rest, chunks[1..]))
  {
  }

  ghost function Prepend(frames: seq<seq<Byte>>, s: Session): Session {
    s.(frames := frames + s.frames)
  }

  lemma {:induction false} MasterCuts(buf: seq<Byte>, n: nat, frames: seq<seq<Byte>>)
    requires |buf| >= 4 && n == Uint(buf[..4]) <= MAX_PAYLOAD && 0 < n && 4 + n <= |buf|
    ensures var r := Decode(Master, buf[4 + n..]);
            && Decode(Master, buf).rest == r.rest
            && frames + Decode(Master, buf).frames == frames + [buf[4..4 + n]] + r.frames
  {
    var r := Decode(Master, buf[4 + n..]);
    assert frames + ([buf[4..4 + n]] + r.frames) == frames + [buf[4..4 + n]] + r.frames;
  }

  lemma {:induction false} ParsedSnoc<M>(parse: seq<Byte> -> Option<M>, frames: seq<seq<Byte>>, data: seq<Byte>)
    ensures Parsed(parse, frames + [data]) ==
            Parsed(parse, frames) + match parse(data) case Some(msg) => [msg] case None => []
  {
    ParsedConcat(parse, frames, [data]);
    assert [data][1..] == [];
  }

  /** The master's loop; the commands found are returned instead of being handled on the spot. */
  method ProcessMessages<M>(parse: seq<Byte> -> Option<M>, input: seq<Byte>)
      returns (rest: seq<Byte>, ok: bool, commands: seq<M>)
    ensures ok <==> |input| <= MASTER_CUT_OFF
    ensures rest == if ok then Decode(Master, input).rest else input
    ensures commands == if ok then Parsed(parse, Decode(Master, input).frames) else []
  {
    commands := [];
    if |input| > MASTER_CUT_OFF {
      return input, false, commands;
    }
    var buf := input;
    ghost var frames: seq<seq<Byte>> := [];
    while |buf| >= 4
      invariant Decode(Master, input) == Decoded(frames + Decode(Master, buf).frames, Decode(Master, buf).rest)
      invariant commands == Parsed(parse, frames)
      decreases |buf|
    {
      var length := Uint(buf[..4]);
      if length > MAX_PAYLOAD {
        buf := buf[4..];
        continue;
      }
      if length == 0 || length + 4 > |buf| {
        break;
      }
      var data := buf[4..4 + length];
      MasterCuts(buf, length, frames);
      ParsedSnoc(parse, frames, data);
      buf := buf[4 + length..];
      frames := frames + [data];
      match parse(data)
      case Some(msg) => commands := commands + [msg];
      case None =>
    }
    assert frames + [] == frames;
    return buf, true, commands;
  }

  /** handleConn: append each read and process; the loop ends at the first refusal. */
  method HandleConn<M>(parse: seq<Byte> -> Option<M>, chunks: seq<seq<Byte>>)
      returns (rest: seq<Byte>, ok: bool, commands: seq<M>)
    ensures ok == !ReadAll(Master, [], chunks).cut
    ensures rest == ReadAll(Master, [], chunks).rest
    ensures commands == Parsed(parse, ReadAll(Master, [], chunks).frames)
  {
    rest, ok, commands := [], true, [];
    var left := chunks;
    ghost var frames: seq<seq<Byte>> := [];
    ghost var all := ReadAll(Master, [], chunks);
    assert [] + all.frames == all.frames;
    while left != [] && ok
      invariant all == if ok then Prepend(frames, ReadAll(Master, rest, left)) else Session(frames, rest, true)
      invariant commands == Parsed(parse, frames)
      decreases |left|
    {
      ghost var now := Decode(Master, rest + left[0]);
      ReadStep(Master, frames, rest, left);
      var found: seq<M>;
      rest, ok, found := ProcessMessages(parse, rest + left[0]);
      commands, left := commands + found, left[1..];
      if ok {
        ParsedConcat(parse, frames, now.frames);
        frames := frames + now.frames;
      }
    }
    assert frames + [] == frames;
  }
}
