/**
 * The TCP sender: reads the outbound byte stream into segments that fit the peer's window,
 * keeps the segments sent but not yet acknowledged in FIFO order, retires them when an
 * acceptable acknowledgment arrives, and retransmits the oldest one when the retransmission
 * timer expires, doubling the timeout (the exponential backoff of section 5.5 of RFC 6298).
 */
module TcpSender {
  import opened Common
  import opened WrappingIntegers
  import opened ByteStreams

  /** TCPConfig::MAX_PAYLOAD_SIZE: the largest payload one segment carries. */
  const MaxPayloadSize: nat := 1000

  /** TCPSenderMessage: a segment's sequence number, flags and payload. */
  datatype SenderMessage = SenderMessage(seqno: u32, syn: bool, payload: seq<char>, fin: bool)

  /** TCPReceiverMessage: the peer's acknowledgment number, if any, and its advertised window. */
  datatype ReceiverMessage = ReceiverMessage(ackno: Option<u32>, windowSize: u16)

  /** TCPSenderMessage::sequence_length: SYN and FIN each occupy one sequence number. */
  function SequenceLength(m: SenderMessage): nat {
    (if m.syn then 1 else 0) + |m.payload| + (if m.fin then 1 else 0)
  }

  /** The total sequence space a list of segments occupies. */
  function TotalLength(segs: seq<SenderMessage>): nat
    decreases |segs|
  {
    if |segs| == 0 then 0 else SequenceLength(segs[0]) + TotalLength(segs[1..])
  }

  /** The payloads of a list of segments, concatenated. */
  function Payloads(segs: seq<SenderMessage>): seq<char>
    decreases |segs|
  {
    if |segs| == 0 then [] else segs[0].payload + Payloads(segs[1..])
  }

  /** A uint64_t counter's value: its residue modulo 2^64. */
  function AsU64(n: nat): (r: u64)
    ensures n < Two64 ==> r == n
  {
    n % 0x1_0000_0000_0000_0000
  }

  /** The window push fills: the advertised one, or 1 when the peer advertised 0 (a zero-window probe). */
  function EffectiveWindow(windowSize: u16): (r: nat)
    ensures windowSize == 0 ==> r == 1
    ensures windowSize > 0 ==> r == windowSize
  {
    if windowSize == 0 then 1 else windowSize
  }

  // ---------------------------------------------------------------------------------------
  // push, as a function of the sender's counters and the outbound stream

  /** A segment without its payload bytes: its sequence number, its flags and its payload length. */
  datatype Shape = Shape(seqno: u32, syn: bool, len: nat, fin: bool)

  function ShapeOf(m: SenderMessage): (s: Shape)
    ensures ShapeLength(s) == SequenceLength(m)
  {
    Shape(m.seqno, m.syn, |m.payload|, m.fin)
  }

  /** The sequence space a segment of this shape occupies. */
  function ShapeLength(s: Shape): nat {
    (if s.syn then 1 else 0) + s.len + (if s.fin then 1 else 0)
  }

  function ShapesOf(segs: seq<SenderMessage>): seq<Shape>
    decreases |segs|
  {
    if |segs| == 0 then [] else [ShapeOf(segs[0])] + ShapesOf(segs[1..])
  }

  /** The sequence space a list of shapes occupies. */
  function Span(shapes: seq<Shape>): nat
    decreases |shapes|
  {
    if |shapes| == 0 then 0 else ShapeLength(shapes[0]) + Span(shapes[1..])
  }

  /** The payload bytes a list of shapes carries. */
  function PayloadLength(shapes: seq<Shape>): nat
    decreases |shapes|
  {
    if |shapes| == 0 then 0 else shapes[0].len + PayloadLength(shapes[1..])
  }

  /**
   * The shape of the segment one iteration of push builds with `buffered` bytes in the stream:
   * SYN if none was sent yet, as many bytes as MAX_PAYLOAD_SIZE, the buffered bytes and the
   * free window allow, and FIN if that takes every buffered byte of a closed stream and SYN,
   * payload and FIN all fit below the window.
   */
  function NextShape(isn: u32, syn: bool, next: nat, recv: nat, eff: nat, buffered: nat, closed: bool): (s: Shape)
    requires recv <= next && next - recv < eff
    ensures s.len <= buffered && s.len <= MaxPayloadSize && s.len <= eff - (next - recv)
    ensures s.len == buffered || s.len == MaxPayloadSize || s.len == eff - (next - recv)
  {
    var len := Min(Min(MaxPayloadSize, buffered), eff - (next - recv));
    Shape(Add(isn, next), !syn, len,
          closed && len == buffered && len + (if syn then 0 else 1) + (next - recv) < eff)
  }

  /**
   * The shapes of the segments push queues, from the given SYN/FIN flags, next sequence number
   * and number of buffered bytes: nothing once FIN was queued or the window is full; otherwise
   * one segment, stopping after it if it is empty (and then not queued), carries FIN, or
   * drained the stream.
   */
  function PushShapes(isn: u32, syn: bool, fin: bool, next: nat, recv: nat, eff: nat, buffered: nat, closed: bool)
    : seq<Shape>
    requires recv <= next
    decreases eff - (next - recv)
  {
    if fin || eff <= next - recv then []
    else
      var s := NextShape(isn, syn, next, recv, eff, buffered, closed);
      if ShapeLength(s) == 0 then []
      else if s.fin || s.len == buffered then [s]
      else [s] + PushShapes(isn, true, false, next + ShapeLength(s), recv, eff, buffered - s.len, closed)
  }

  /** The segments of the given shapes, carrying the bytes at the front of `buffer` in order. */
  function Fill(shapes: seq<Shape>, buffer: seq<char>): seq<SenderMessage>
    decreases |shapes|
  {
    if |shapes| == 0 then []
    else
      var len := Min(shapes[0].len, |buffer|);
      [SenderMessage(shapes[0].seqno, shapes[0].syn, buffer[..len], shapes[0].fin)] + Fill(shapes[1..], buffer[len..])
  }

  /** The segments push queues: PushShapes's shapes filled with the buffered bytes. */
  function PushFrom(isn: u32, syn: bool, fin: bool, next: nat, recv: nat, eff: nat, buffer: seq<char>, closed: bool)
    : seq<SenderMessage>
    requires recv <= next
  {
    Fill(PushShapes(isn, syn, fin, next, recv, eff, |buffer|, closed), buffer)
  }

  lemma TotalLengthAppend(segs: seq<SenderMessage>, m: SenderMessage)
    ensures TotalLength(segs + [m]) == TotalLength(segs) + SequenceLength(m)
    decreases |segs|
  {
    if |segs| > 0 {
      assert (segs + [m])[1..] == segs[1..] + [m];
      TotalLengthAppend(segs[1..], m);
    }
  }

  lemma PayloadsAppend(segs: seq<SenderMessage>, m: SenderMessage)
    ensures Payloads(segs + [m]) == Payloads(segs) + m.payload
    decreases |segs|
  {
    if |segs| > 0 {
      assert (segs + [m])[1..] == segs[1..] + [m];
      PayloadsAppend(segs[1..], m);
    }
  }

  lemma ShapesOfAppend(segs: seq<SenderMessage>, m: SenderMessage)
    ensures ShapesOf(segs + [m]) == ShapesOf(segs) + [ShapeOf(m)]
    decreases |segs|
  {
    if |segs| > 0 {
      assert (segs + [m])[1..] == segs[1..] + [m];
      ShapesOfAppend(segs[1..], m);
    }
  }

  /** A list of segments occupies the sequence space of its shapes. */
  lemma {:induction false} TotalLengthOfShapes(segs: seq<SenderMessage>)
    ensures TotalLength(segs) == Span(ShapesOf(segs))
    decreases |segs|
  {
    if |segs| > 0 {
      TotalLengthOfShapes(segs[1..]);
      assert ([ShapeOf(segs[0])] + ShapesOf(segs[1..]))[1..] == ShapesOf(segs[1..]);
    }
  }

  /**
   * Filling shapes that carry no more bytes than `buffer` holds gives segments of exactly those
   * shapes, whose payloads are the front of `buffer`.
   */
  lemma {:induction false} ShapesOfFill(shapes: seq<Shape>, buffer: seq<char>)
    requires PayloadLength(shapes) <= |buffer|
    ensures ShapesOf(Fill(shapes, buffer)) == shapes
    ensures Payloads(Fill(shapes, buffer)) == buffer[..PayloadLength(shapes)]
    decreases |shapes|
  {
    if |shapes| > 0 {
      var s := shapes[0];
      var m := SenderMessage(s.seqno, s.syn, buffer[..s.len], s.fin);
      var tail := Fill(shapes[1..], buffer[s.len..]);
      ShapesOfFill(shapes[1..], buffer[s.len..]);
      assert Fill(shapes, buffer) == [m] + tail;
      assert ([m] + tail)[1..] == tail;
      assert buffer[..PayloadLength(shapes)] == buffer[..s.len] + buffer[s.len..][..PayloadLength(shapes[1..])];
      assert shapes == [s] + shapes[1..];
    }
  }

  /** Segments are determined by their shapes and their payloads: filling their shapes with their payloads gives them back. */
  lemma {:induction false} FillOf(segs: seq<SenderMessage>, buffer: seq<char>, rest: seq<char>)
    requires buffer == Payloads(segs) + rest
    ensures Fill(ShapesOf(segs), buffer) == segs
    decreases |segs|
  {
    if |segs| > 0 {
      var m := segs[0];
      AppendAssoc(m.payload, Payloads(segs[1..]), rest);
      assert buffer[..|m.payload|] == m.payload;
      assert buffer[|m.payload|..] == Payloads(segs[1..]) + rest;
      FillOf(segs[1..], buffer[|m.payload|..], rest);
      assert ShapesOf(segs)[1..] == ShapesOf(segs[1..]);
      assert segs == [m] + segs[1..];
    }
  }

  /** push takes no more bytes than are buffered. */
  lemma {:induction false} PushWithinBuffered(isn: u32, syn: bool, fin: bool, next: nat, recv: nat, eff: nat,
                                              buffered: nat, closed: bool)
    requires recv <= next
    ensures PayloadLength(PushShapes(isn, syn, fin, next, recv, eff, buffered, closed)) <= buffered
    decreases eff - (next - recv)
  {
    if !fin && next - recv < eff {
      var s := NextShape(isn, syn, next, recv, eff, buffered, closed);
      if ShapeLength(s) > 0 && !s.fin && s.len < buffered {
        var tail := PushShapes(isn, true, false, next + ShapeLength(s), recv, eff, buffered - s.len, closed);
        PushWithinBuffered(isn, true, false, next + ShapeLength(s), recv, eff, buffered - s.len, closed);
        assert PushShapes(isn, syn, fin, next, recv, eff, buffered, closed) == [s] + tail;
        assert ([s] + tail)[1..] == tail;
      } else if ShapeLength(s) > 0 {
        assert PushShapes(isn, syn, fin, next, recv, eff, buffered, closed) == [s];
        assert [s][1..] == [];
      }
    }
  }

  /**
   * push reads the outbound stream in order: its segments have exactly PushShapes's shapes, and
   * their payloads, concatenated, are a prefix of the buffered bytes.
   */
  lemma PushReadsInOrder(isn: u32, syn: bool, fin: bool, next: nat, recv: nat, eff: nat, buffer: seq<char>, closed: bool)
    requires recv <= next
    ensures var segs := PushFrom(isn, syn, fin, next, recv, eff, buffer, closed);
            && ShapesOf(segs) == PushShapes(isn, syn, fin, next, recv, eff, |buffer|, closed)
            && Payloads(segs) <= buffer
            && TotalLength(segs) == Span(PushShapes(isn, syn, fin, next, recv, eff, |buffer|, closed))
  {
    var shapes := PushShapes(isn, syn, fin, next, recv, eff, |buffer|, closed);
    PushWithinBuffered(isn, syn, fin, next, recv, eff, |buffer|, closed);
    ShapesOfFill(shapes, buffer);
    TotalLengthOfShapes(Fill(shapes, buffer));
  }

  /** The sequence space of the first i shapes: the first one's, then that of the next i - 1. */
  lemma SpanPrefix(shapes: seq<Shape>, i: nat)
    requires 1 <= i <= |shapes|
    ensures Span(shapes[..i]) == ShapeLength(shapes[0]) + Span(shapes[1..][..i - 1])
  {
    assert shapes[..i][1..] == shapes[1..][..i - 1];
  }

  /**
   * Shapes numbered consecutively from `next`: each starts where the one before it ends, is
   * non-empty, and carries at most MAX_PAYLOAD_SIZE bytes.
   */
  ghost predicate NumberedFrom(shapes: seq<Shape>, isn: u32, next: nat)
    decreases |shapes|
  {
    |shapes| > 0 ==>
      && shapes[0].seqno == Add(isn, next)
      && ShapeLength(shapes[0]) > 0
      && shapes[0].len <= MaxPayloadSize
      && NumberedFrom(shapes[1..], isn, next + ShapeLength(shapes[0]))
  }

  /** In consecutively numbered shapes, shape i starts at `next` plus the lengths of the shapes before it. */
  lemma {:induction false} NumberedAt(shapes: seq<Shape>, isn: u32, next: nat, i: nat)
    requires NumberedFrom(shapes, isn, next) && i < |shapes|
    ensures shapes[i].seqno == Add(isn, next + Span(shapes[..i]))
    ensures ShapeLength(shapes[i]) > 0 && shapes[i].len <= MaxPayloadSize
    decreases i
  {
    if i == 0 {
      assert shapes[..0] == [];
    } else {
      NumberedAt(shapes[1..], isn, next + ShapeLength(shapes[0]), i - 1);
      SpanPrefix(shapes, i);
    }
  }

  /** Every segment push queues is non-empty, within MAX_PAYLOAD_SIZE, and numbered consecutively. */
  lemma {:induction false} PushSegmentsConsecutive(isn: u32, syn: bool, fin: bool, next: nat, recv: nat, eff: nat,
                                                   buffered: nat, closed: bool)
    requires recv <= next
    ensures NumberedFrom(PushShapes(isn, syn, fin, next, recv, eff, buffered, closed), isn, next)
    decreases eff - (next - recv)
  {
    if !fin && next - recv < eff {
      var s := NextShape(isn, syn, next, recv, eff, buffered, closed);
      if ShapeLength(s) == 0 {
      } else if s.fin || s.len == buffered {
        assert PushShapes(isn, syn, fin, next, recv, eff, buffered, closed) == [s];
        assert [s][1..] == [];
      } else {
        var tail := PushShapes(isn, true, false, next + ShapeLength(s), recv, eff, buffered - s.len, closed);
        assert PushShapes(isn, syn, fin, next, recv, eff, buffered, closed) == [s] + tail;
        assert ([s] + tail)[1..] == tail;
        PushSegmentsConsecutive(isn, true, false, next + ShapeLength(s), recv, eff, buffered - s.len, closed);
      }
    }
  }

  /** SYN on the first of `shapes` exactly when it had not been sent before, and on no other. */
  ghost predicate SynOnlyFirst(shapes: seq<Shape>, syn: bool) {
    forall i :: 0 <= i < |shapes| ==> (shapes[i].syn <==> i == 0 && !syn)
  }

  /** Only the very first segment the sender ever queues carries SYN. */
  lemma {:induction false} PushSynOnlyFirst(isn: u32, syn: bool, fin: bool, next: nat, recv: nat, eff: nat,
                                            buffered: nat, closed: bool)
    requires recv <= next
    ensures SynOnlyFirst(PushShapes(isn, syn, fin, next, recv, eff, buffered, closed), syn)
    decreases eff - (next - recv)
  {
    if !fin && next - recv < eff {
      var s := NextShape(isn, syn, next, recv, eff, buffered, closed);
      if ShapeLength(s) > 0 && !s.fin && s.len < buffered {
        var tail := PushShapes(isn, true, false, next + ShapeLength(s), recv, eff, buffered - s.len, closed);
        PushSynOnlyFirst(isn, true, false, next + ShapeLength(s), recv, eff, buffered - s.len, closed);
        var shapes := [s] + tail;
        assert PushShapes(isn, syn, fin, next, recv, eff, buffered, closed) == shapes;
        forall i | 0 <= i < |shapes|
          ensures shapes[i].syn <==> i == 0 && !syn
        {
          if i > 0 {
            assert shapes[i] == tail[i - 1];
          }
        }
      } else if ShapeLength(s) > 0 {
        assert PushShapes(isn, syn, fin, next, recv, eff, buffered, closed) == [s];
      }
    }
  }

  /**
   * FIN only on the last of `shapes`, and only when the stream is closed, the payloads take
   * every buffered byte, and the segments end within the window.
   */
  ghost predicate FinOnlyLast(shapes: seq<Shape>, buffered: nat, closed: bool, inflight: nat, eff: nat) {
    forall i :: 0 <= i < |shapes| && shapes[i].fin ==>
      && i == |shapes| - 1
      && closed && PayloadLength(shapes) == buffered
      && inflight + Span(shapes) <= eff
  }

  /**
   * FIN is queued only on the last segment of a push, only when the stream is closed and every
   * buffered byte went into the segments of that push, and a FIN segment ends within the window.
   */
  lemma {:induction false} PushFinLast(isn: u32, syn: bool, fin: bool, next: nat, recv: nat, eff: nat,
                                       buffered: nat, closed: bool)
    requires recv <= next
    ensures FinOnlyLast(PushShapes(isn, syn, fin, next, recv, eff, buffered, closed), buffered, closed, next - recv, eff)
    decreases eff - (next - recv)
  {
    if !fin && next - recv < eff {
      var s := NextShape(isn, syn, next, recv, eff, buffered, closed);
      if ShapeLength(s) == 0 {
      } else if s.fin || s.len == buffered {
        assert PushShapes(isn, syn, fin, next, recv, eff, buffered, closed) == [s];
        assert [s][0] == s && [s][1..] == [];
        assert PayloadLength([s]) == s.len + PayloadLength([]);
        assert Span([s]) == ShapeLength(s) + Span([]);
      } else {
        var next' := next + ShapeLength(s);
        var tail := PushShapes(isn, true, false, next', recv, eff, buffered - s.len, closed);
        PushFinLast(isn, true, false, next', recv, eff, buffered - s.len, closed);
        var shapes := [s] + tail;
        assert PushShapes(isn, syn, fin, next, recv, eff, buffered, closed) == shapes;
        assert shapes[0] == s && shapes[1..] == tail;
        assert PayloadLength(shapes) == s.len + PayloadLength(tail);
        assert Span(shapes) == ShapeLength(s) + Span(tail);
        forall i | 0 <= i < |shapes| && shapes[i].fin
          ensures i == |shapes| - 1 && closed && PayloadLength(shapes) == buffered && next - recv + Span(shapes) <= eff
        {
          assert i > 0 && shapes[i] == tail[i - 1];
        }
      }
    }
  }

  /**
   * The sequence numbers in flight after push stay within the effective window, except that a
   * SYN sent in the same push may add one: the payload length ignores the SYN, so SYN plus a
   * full window of payload is one over.
   */
  lemma {:induction false} PushWithinWindow(isn: u32, syn: bool, fin: bool, next: nat, recv: nat, eff: nat,
                                            buffered: nat, closed: bool)
    requires recv <= next
    ensures var shapes := PushShapes(isn, syn, fin, next, recv, eff, buffered, closed);
            |shapes| > 0 ==> next - recv + Span(shapes) <= eff + (if syn then 0 else 1)
    decreases eff - (next - recv)
  {
    if !fin && next - recv < eff {
      var s := NextShape(isn, syn, next, recv, eff, buffered, closed);
      if ShapeLength(s) == 0 {
      } else if s.fin || s.len == buffered {
        assert PushShapes(isn, syn, fin, next, recv, eff, buffered, closed) == [s];
        assert [s][1..] == [];
      } else {
        var next' := next + ShapeLength(s);
        var tail := PushShapes(isn, true, false, next', recv, eff, buffered - s.len, closed);
        assert PushShapes(isn, syn, fin, next, recv, eff, buffered, closed) == [s] + tail;
        assert ([s] + tail)[1..] == tail;
        PushWithinWindow(isn, true, false, next', recv, eff, buffered - s.len, closed);
      }
    }
  }

  /**
   * push fills the window as far as it can: when it stops, either the sequence numbers in flight
   * reach the effective window or every buffered byte was taken.
   */
  lemma {:induction false} PushFillsWindow(isn: u32, syn: bool, next: nat, recv: nat, eff: nat, buffered: nat, closed: bool)
    requires recv <= next
    ensures var shapes := PushShapes(isn, syn, false, next, recv, eff, buffered, closed);
            next - recv + Span(shapes) >= eff || PayloadLength(shapes) == buffered
    decreases eff - (next - recv)
  {
    if next - recv < eff {
      var s := NextShape(isn, syn, next, recv, eff, buffered, closed);
      if ShapeLength(s) == 0 {
      } else if s.fin || s.len == buffered {
        assert PushShapes(isn, syn, false, next, recv, eff, buffered, closed) == [s];
        assert [s][0] == s && [s][1..] == [];
        assert PayloadLength([s]) == s.len + PayloadLength([]);
      } else {
        var next' := next + ShapeLength(s);
        var tail := PushShapes(isn, true, false, next', recv, eff, buffered - s.len, closed);
        PushFillsWindow(isn, true, next', recv, eff, buffered - s.len, closed);
        var shapes := [s] + tail;
        assert PushShapes(isn, syn, false, next, recv, eff, buffered, closed) == shapes;
        assert shapes[0] == s && shapes[1..] == tail;
        assert PayloadLength(shapes) == s.len + PayloadLength(tail);
        assert Span(shapes) == ShapeLength(s) + Span(tail);
      }
    }
  }

  /** Data buffered before the first push goes out with the SYN even when the window is 1. */
  lemma SynWithPayloadExceedsWindow(isn: u32)
    ensures PushFrom(isn, false, false, 0, 0, 1, "a", false) == [SenderMessage(isn, true, "a", false)]
    ensures TotalLength(PushFrom(isn, false, false, 0, 0, 1, "a", false)) == 2
  {
    var s := NextShape(isn, false, 0, 0, 1, 1, false);
    assert s == Shape(isn, true, 1, false);
    assert PushShapes(isn, false, false, 0, 0, 1, 1, false) == [s];
    assert "a"[..1] == "a";
    assert Fill([s], "a") == [SenderMessage(isn, true, "a", false)] + Fill([], "a"[1..]);
  }

  // ---------------------------------------------------------------------------------------
  // receive: which outstanding segments an acknowledgment retires

  /** The absolute sequence number just past a segment, unwrapped near next_seqno. */
  function AckEnd(seg: SenderMessage, isn: u32, next: nat): u64 {
    Unwrap(Add(seg.seqno, SequenceLength(seg)), isn, AsU64(next))
  }

  /** An outstanding segment is acknowledged when its end is at most the acknowledged sequence number. */
  predicate Acked(seg: SenderMessage, isn: u32, next: nat, recv: nat) {
    AckEnd(seg, isn, next) <= recv
  }

  /** The number of segments at the front of the queue that are acknowledged: those the loop in receive pops. */
  function RetireCount(q: seq<SenderMessage>, isn: u32, next: nat, recv: nat): (k: nat)
    ensures k <= |q|
    decreases |q|
  {
    if q == [] || !Acked(q[0], isn, next, recv) then 0 else 1 + RetireCount(q[1..], isn, next, recv)
  }

  /** RetireCount is the length of the longest acknowledged prefix: every segment before it is acknowledged, the one at it is not. */
  lemma {:induction false} RetireCountMaximal(q: seq<SenderMessage>, isn: u32, next: nat, recv: nat)
    ensures var k := RetireCount(q, isn, next, recv);
            && (forall i :: 0 <= i < k ==> Acked(q[i], isn, next, recv))
            && (k < |q| ==> !Acked(q[k], isn, next, recv))
    decreases |q|
  {
    if q != [] && Acked(q[0], isn, next, recv) {
      RetireCountMaximal(q[1..], isn, next, recv);
      var k := RetireCount(q, isn, next, recv);
      forall i | 0 <= i < k
        ensures Acked(q[i], isn, next, recv)
      {
        if i > 0 {
          assert q[i] == q[1..][i - 1];
        }
      }
      if k < |q| {
        assert q[k] == q[1..][k - 1];
      }
    }
  }

  /** An acknowledgment the sender ignores: one unwrapping beyond next_seqno or below the last accepted one. */
  predicate AckIgnored(msg: ReceiverMessage, isn: u32, next: nat, recv: nat) {
    msg.ackno.Some? &&
      var rv := Unwrap(msg.ackno.value, isn, AsU64(next));
      rv > next || rv < recv
  }

  /** A later acknowledgment retires at least the segments an earlier one did. */
  lemma {:induction false} RetireMonotone(q: seq<SenderMessage>, isn: u32, next: nat, recv: nat, recv': nat)
    requires recv <= recv'
    ensures RetireCount(q, isn, next, recv) <= RetireCount(q, isn, next, recv')
    decreases |q|
  {
    if q != [] && Acked(q[0], isn, next, recv) {
      RetireMonotone(q[1..], isn, next, recv, recv');
    }
  }

  /** PushShapes carried over one iteration of push's loop that built a segment of shape `s`. */
  lemma ShapesStep(init: seq<Shape>, done: seq<Shape>, isn: u32, syn: bool, next: nat, recv: nat, eff: nat,
                   buffered: nat, closed: bool, s: Shape)
    requires recv <= next && next - recv < eff
    requires init == done + PushShapes(isn, syn, false, next, recv, eff, buffered, closed)
    requires s == NextShape(isn, syn, next, recv, eff, buffered, closed)
    ensures ShapeLength(s) == 0 ==> init == done
    ensures ShapeLength(s) > 0 && (s.fin || s.len == buffered) ==> init == done + [s]
    ensures ShapeLength(s) > 0 && !s.fin && s.len < buffered ==>
              init == (done + [s]) + PushShapes(isn, true, false, next + ShapeLength(s), recv, eff, buffered - s.len, closed)
  {
    AppendAssoc(done, [s], PushShapes(isn, true, false, next + ShapeLength(s), recv, eff, buffered - s.len, closed));
  }

  /** `init` is the shapes of the segments queued so far followed by those push has still to queue. */
  ghost predicate StillToPush(init: seq<Shape>, queued: seq<SenderMessage>, isn: u32, syn: bool, next: nat, recv: nat,
                              eff: nat, buffered: nat, closed: bool)
    requires recv <= next
  {
    init == ShapesOf(queued) + PushShapes(isn, syn, false, next, recv, eff, buffered, closed)
  }

  /**
   * One iteration of the loop in push, on the specification: the segment just read is the next
   * shape of the remaining push; an empty one ends the push unqueued, one with FIN or that
   * drains the stream ends it queued, and any other is queued and the push goes on from after it.
   */
  lemma Advance(init: seq<Shape>, queued: seq<SenderMessage>, message: SenderMessage, isn: u32, syn: bool,
                next: nat, recv: nat, eff: nat, buffer: seq<char>, rest: seq<char>, closed: bool)
    requires recv <= next && next - recv < eff
    requires StillToPush(init, queued, isn, syn, next, recv, eff, |buffer|, closed)
    requires ShapeOf(message) == NextShape(isn, syn, next, recv, eff, |buffer|, closed)
    requires buffer == message.payload + rest
    ensures SequenceLength(message) == 0 ==> init == ShapesOf(queued)
    ensures SequenceLength(message) > 0 && (message.fin || |rest| == 0) ==> init == ShapesOf(queued + [message])
    ensures SequenceLength(message) > 0 && !message.fin && |rest| > 0 ==>
              StillToPush(init, queued + [message], isn, true, next + SequenceLength(message), recv, eff, |rest|, closed)
    ensures TotalLength(queued + [message]) == TotalLength(queued) + SequenceLength(message)
    ensures Payloads(queued + [message]) + rest == Payloads(queued) + buffer
  {
    ShapesStep(init, ShapesOf(queued), isn, syn, next, recv, eff, |buffer|, closed, ShapeOf(message));
    Enqueue(queued, message, rest);
  }

  /** Queueing one more segment extends the lengths, payloads and shapes of the queue by its own. */
  lemma Enqueue(queued: seq<SenderMessage>, message: SenderMessage, buffer: seq<char>)
    ensures TotalLength(queued + [message]) == TotalLength(queued) + SequenceLength(message)
    ensures Payloads(queued + [message]) + buffer == Payloads(queued) + (message.payload + buffer)
    ensures ShapesOf(queued + [message]) == ShapesOf(queued) + [ShapeOf(message)]
  {
    TotalLengthAppend(queued, message);
    PayloadsAppend(queued, message);
    ShapesOfAppend(queued, message);
    AppendAssoc(Payloads(queued), message.payload, buffer);
  }

  /**
   * The body of the loop in push up to the queueing: SYN on the first segment ever, the
   * sequence number, the payload read from the stream, and FIN when the stream is finished
   * and the segment still fits the window.
   */
  method ReadSegment(isn: u32, synSent: bool, next: nat, recv: nat, eff: nat, outbound: ByteStream)
    returns (message: SenderMessage)
    requires outbound.Valid() && recv <= next && next - recv < eff
    modifies outbound
    ensures outbound.Valid()
    ensures ShapeOf(message) == NextShape(isn, synSent, next, recv, eff, |old(outbound.buffer)|, old(outbound.closed))
    ensures old(outbound.buffer) == message.payload + outbound.buffer
    ensures outbound.written == old(outbound.written) && outbound.closed == old(outbound.closed)
    ensures outbound.error == old(outbound.error)
  {
    var synNow := !synSent;
    var seqno := Add(isn, next);
    var len := Min(Min(MaxPayloadSize, outbound.BytesBuffered()), eff - (next - recv));
    var payload := Read(outbound, len);
    var finNow := false;
    if outbound.IsFinished() && len + (if synNow then 1 else 0) + (next - recv) < eff {
      finNow := true;
    }
    message := SenderMessage(seqno, synNow, payload, finNow);
  }

  /**
   * One iteration of the loop of push: reads the next segment and queues it unless it is empty.
   * `stop` says the push ends here: the segment was empty, carried FIN, or drained the stream.
   */
  method FillStep(isn: u32, syn: bool, next: nat, recv: nat, eff: nat, outbound: ByteStream, ghost init: seq<Shape>,
                  queued: seq<SenderMessage>, synSent: bool, cur: nat)
    returns (queued': seq<SenderMessage>, finSent: bool, cur': nat, stop: bool)
    requires outbound.Valid() && recv <= cur && cur - recv < eff
    requires StillToPush(init, queued, isn, synSent, cur, recv, eff, |outbound.buffer|, outbound.closed)
    requires cur == next + TotalLength(queued) && synSent == (syn || |queued| > 0)
    requires |queued| > 0 ==> !queued[|queued| - 1].fin
    modifies outbound
    ensures outbound.Valid() && recv <= cur'
    ensures cur' == next + TotalLength(queued')
    ensures Payloads(queued') + outbound.buffer == Payloads(queued) + old(outbound.buffer)
    ensures syn || |queued'| > 0
    ensures stop ==> init == ShapesOf(queued') && finSent == (|queued'| > 0 && queued'[|queued'| - 1].fin)
    ensures !stop ==> && !finSent && |queued'| > 0 && !queued'[|queued'| - 1].fin && cur' > cur
                      && StillToPush(init, queued', isn, true, cur', recv, eff, |outbound.buffer|, outbound.closed)
    ensures outbound.written == old(outbound.written) && outbound.closed == old(outbound.closed)
    ensures outbound.error == old(outbound.error)
  {
    ghost var buffer := outbound.buffer;
    var message := ReadSegment(isn, synSent, cur, recv, eff, outbound);
    Advance(init, queued, message, isn, synSent, cur, recv, eff, buffer, outbound.buffer, outbound.closed);
    finSent := message.fin;
    queued', cur', stop := queued, cur, true;
    if SequenceLength(message) == 0 {
      assert Payloads(queued) + outbound.buffer == Payloads(queued) + buffer;
      return;
    }
    queued' := queued + [message];
    cur' := cur + SequenceLength(message);
    stop := message.fin || outbound.BytesBuffered() == 0;
  }

  /**
   * The loop of push, on the sender's flags and counters: it reads segments from the stream
   * while the window has room, and stops after an empty segment (not queued), a FIN segment,
   * or a segment that drained the stream. The segments it queues have exactly PushShapes's
   * shapes and carry the stream's bytes in order.
   */
  method FillWindow(isn: u32, syn: bool, next: nat, recv: nat, eff: nat, outbound: ByteStream)
    returns (queued: seq<SenderMessage>, synSent: bool, finSent: bool, next': nat)
    requires outbound.Valid() && recv <= next
    modifies outbound
    ensures outbound.Valid()
    ensures ShapesOf(queued) == PushShapes(isn, syn, false, next, recv, eff, |old(outbound.buffer)|, old(outbound.closed))
    ensures old(outbound.buffer) == Payloads(queued) + outbound.buffer
    ensures next' == next + TotalLength(queued)
    ensures synSent == (syn || |queued| > 0)
    ensures finSent == (|queued| > 0 && queued[|queued| - 1].fin)
    ensures outbound.written == old(outbound.written) && outbound.closed == old(outbound.closed)
    ensures outbound.error == old(outbound.error)
  {
    ghost var init := PushShapes(isn, syn, false, next, recv, eff, |outbound.buffer|, outbound.closed);
    synSent, finSent, next' := syn, false, next;
    queued := [];
    while eff > next' - recv
      invariant outbound.Valid() && !finSent && recv <= next'
      invariant StillToPush(init, queued, isn, synSent, next', recv, eff, |outbound.buffer|, outbound.closed)
      invariant next' == next + TotalLength(queued)
      invariant old(outbound.buffer) == Payloads(queued) + outbound.buffer
      invariant synSent == (syn || |queued| > 0) && (|queued| > 0 ==> !queued[|queued| - 1].fin)
      invariant outbound.written == old(outbound.written) && outbound.closed == old(outbound.closed)
      invariant outbound.error == old(outbound.error)
      decreases eff - (next' - recv)
    {
      var stop;
      queued, finSent, next', stop := FillStep(isn, syn, next, recv, eff, outbound, init, queued, synSent, next');
      synSent := true;
      if stop {
        return;
      }
    }
    assert init == ShapesOf(queued) + [];
  }

  /**
   * The loop in receive, on the queue: pops segments off the front while they are acknowledged
   * and returns what is left.
   */
  method RetireAcked(q: seq<SenderMessage>, isn: u32, next: nat, recv: nat) returns (rest: seq<SenderMessage>)
    ensures rest == q[RetireCount(q, isn, next, recv)..]
  {
    rest := q;
    ghost var i := 0;
    while rest != []
      invariant i <= |q| && rest == q[i..]
      invariant RetireCount(q, isn, next, recv) == i + RetireCount(rest, isn, next, recv)
      decreases |rest|
    {
      var segment := rest[0];
      var lastSeqno := Unwrap(Add(segment.seqno, SequenceLength(segment)), isn, AsU64(next));
      if lastSeqno > recv {
        break;
      }
      rest := rest[1..];
      i := i + 1;
    }
  }

  class TCPSender {
    const isn: u32
    const initialRTO: nat
    var syn: bool
    var fin: bool
    var nextSeqno: nat
    var recvSeqno: nat
    var windowSize: u16
    var outstanding: seq<SenderMessage>
    var messages: seq<SenderMessage>
    var ncr: nat
    var timestamp: nat
    var active: bool
    var curRTO: nat

    /**
     * Acknowledged never exceeds sent; nothing is queued or in flight before SYN; FIN comes after
     * SYN; the timeout is the initial one doubled once per consecutive retransmission; and the
     * timer runs exactly while segments are outstanding.
     */
    ghost predicate Valid()
      reads this
    {
      && recvSeqno <= nextSeqno
      && (!syn ==> nextSeqno == 0 && messages == [] && outstanding == [])
      && (fin ==> syn)
      && curRTO == initialRTO * Pow2(ncr)
      && (active <==> outstanding != [])
    }

    /** The constructor, with the ISN as a parameter rather than drawn at random. */
    constructor (initialRTO: nat, isn: u32)
      ensures Valid()
      ensures this.isn == isn && this.initialRTO == initialRTO
      ensures !syn && !fin && nextSeqno == 0 && recvSeqno == 0 && windowSize == 1
      ensures outstanding == [] && messages == []
      ensures ncr == 0 && timestamp == 0 && !active && curRTO == initialRTO
    {
      this.isn := isn;
      this.initialRTO := initialRTO;
      syn := false;
      fin := false;
      nextSeqno := 0;
      recvSeqno := 0;
      windowSize := 1;
      outstanding := [];
      messages := [];
      ncr := 0;
      timestamp := 0;
      active := false;
      curRTO := initialRTO;
    }

    /** TCPSender::sequence_numbers_in_flight. */
    function SequenceNumbersInFlight(): (r: nat)
      reads this
      requires Valid()
      ensures r + recvSeqno == nextSeqno
    {
      nextSeqno - recvSeqno
    }

    /** TCPSender::consecutive_retransmissions: the timeout is the initial one doubled that many times. */
    function ConsecutiveRetransmissions(): (r: nat)
      reads this
      requires Valid()
      ensures curRTO == initialRTO * Pow2(r)
    {
      ncr
    }

    /** TCPSender::send_empty_message: a segment occupying no sequence numbers, numbered next_seqno. */
    function SendEmptyMessage(): (m: SenderMessage)
      reads this
      ensures SequenceLength(m) == 0
      ensures Wrap(AsU64(nextSeqno), isn) == m.seqno
    {
      SenderMessage(Add(isn, nextSeqno), false, [], false)
    }

    /**
     * TCPSender::push: nothing once FIN was queued; otherwise the loop (FillWindow) queues the
     * segments that fit, and the SYN/FIN flags and next_seqno it leaves are stored.
     */
    method Push(outbound: ByteStream)
      requires Valid() && outbound.Valid()
      modifies this, outbound
      ensures Valid() && outbound.Valid()
      ensures var segs := PushFrom(isn, old(syn), old(fin), old(nextSeqno), old(recvSeqno), EffectiveWindow(old(windowSize)),
                                   old(outbound.buffer), old(outbound.closed));
              && messages == old(messages) + segs
              && nextSeqno == old(nextSeqno) + TotalLength(segs)
              && old(outbound.buffer) == Payloads(segs) + outbound.buffer
              && syn == (old(syn) || |segs| > 0)
              && fin == (old(fin) || (|segs| > 0 && segs[|segs| - 1].fin))
      ensures outstanding == old(outstanding) && recvSeqno == old(recvSeqno) && windowSize == old(windowSize)
      ensures ncr == old(ncr) && timestamp == old(timestamp) && active == old(active) && curRTO == old(curRTO)
      ensures outbound.written == old(outbound.written) && outbound.closed == old(outbound.closed)
      ensures outbound.error == old(outbound.error)
    {
      if fin {
        return;
      }
      ghost var before := outbound.buffer;
      var queued, synSent, finSent, next := FillWindow(isn, syn, nextSeqno, recvSeqno, EffectiveWindow(windowSize), outbound);
      FillOf(queued, before, outbound.buffer);
      syn, fin, nextSeqno := synSent, finSent, next;
      messages := messages + queued;
    }

    /** TCPSender::maybe_send: hands out the oldest ready segment, now outstanding, and starts the timer. */
    method MaybeSend() returns (m: Option<SenderMessage>)
      requires Valid()
      modifies this
      ensures Valid()
      ensures m.None? <==> old(messages) == []
      ensures m.None? ==> messages == old(messages) && outstanding == old(outstanding) && active == old(active)
      ensures m.Some? ==> && m.value == old(messages)[0] && messages == old(messages)[1..]
                          && outstanding == old(outstanding) + [m.value] && active
      ensures syn == old(syn) && fin == old(fin) && nextSeqno == old(nextSeqno) && recvSeqno == old(recvSeqno)
      ensures windowSize == old(windowSize) && ncr == old(ncr) && timestamp == old(timestamp) && curRTO == old(curRTO)
    {
      if messages == [] {
        return None;
      }
      var message := messages[0];
      messages := messages[1..];
      outstanding := outstanding + [message];
      if !active {
        active := true;
      }
      return Some(message);
    }

    /**
     * TCPSender::receive: an ignored acknowledgment changes nothing, not even the window;
     * otherwise the ackno (if any) and window are recorded and the acknowledged segments at
     * the front of the outstanding queue are retired.
     */
    method Receive(msg: ReceiverMessage)
      requires Valid()
      modifies this
      ensures Valid()
      ensures AckIgnored(msg, isn, old(nextSeqno), old(recvSeqno)) ==>
                && recvSeqno == old(recvSeqno) && windowSize == old(windowSize) && outstanding == old(outstanding)
                && active == old(active) && timestamp == old(timestamp) && curRTO == old(curRTO) && ncr == old(ncr)
      ensures !AckIgnored(msg, isn, old(nextSeqno), old(recvSeqno)) ==>
                && recvSeqno == (if msg.ackno.Some? then Unwrap(msg.ackno.value, isn, AsU64(nextSeqno)) else old(recvSeqno))
                && windowSize == msg.windowSize
                && var k := RetireCount(old(outstanding), isn, nextSeqno, recvSeqno);
                   && outstanding == old(outstanding)[k..]
                   && (k > 0 && windowSize != 0 ==> timestamp == 0 && curRTO == initialRTO && ncr == 0)
                   && (k == 0 || windowSize == 0 ==> timestamp == old(timestamp) && curRTO == old(curRTO) && ncr == old(ncr))
                   && (active <==> outstanding != [])
      ensures syn == old(syn) && fin == old(fin) && nextSeqno == old(nextSeqno) && messages == old(messages)
    {
      if msg.ackno.Some? {
        var rvSeqno := Unwrap(msg.ackno.value, isn, AsU64(nextSeqno));
        if rvSeqno > nextSeqno || rvSeqno < recvSeqno {
          return;
        }
        recvSeqno := Unwrap(msg.ackno.value, isn, AsU64(nextSeqno));
      }
      windowSize := msg.windowSize;
      var rest := RetireAcked(outstanding, isn, nextSeqno, recvSeqno);
      if |rest| < |outstanding| && windowSize != 0 {
        timestamp := 0;
        curRTO := initialRTO;
        ncr := 0;
      }
      outstanding := rest;
      active := outstanding != [];
    }

    /**
     * TCPSender::tick: while the timer runs, time accumulates; on expiry with something
     * outstanding, the oldest outstanding segment is queued again (and stays outstanding),
     * the timeout doubles unless the window is 0, and the timer restarts.
     */
    method Tick(msSinceLastTick: nat)
      requires Valid()
      modifies this
      ensures Valid()
      ensures !old(active) ==> timestamp == old(timestamp) && messages == old(messages) && ncr == old(ncr) && curRTO == old(curRTO)
      ensures old(active) && old(timestamp) + msSinceLastTick >= old(curRTO) && outstanding != [] ==>
                && messages == old(messages) + [outstanding[0]]
                && timestamp == 0
                && (windowSize > 0 ==> ncr == old(ncr) + 1 && curRTO == 2 * old(curRTO))
                && (windowSize == 0 ==> ncr == old(ncr) && curRTO == old(curRTO))
      ensures old(active) && !(old(timestamp) + msSinceLastTick >= old(curRTO) && outstanding != []) ==>
                timestamp == old(timestamp) + msSinceLastTick && messages == old(messages) && ncr == old(ncr)
                && curRTO == old(curRTO)
      ensures outstanding == old(outstanding) && active == old(active) && syn == old(syn) && fin == old(fin)
      ensures nextSeqno == old(nextSeqno) && recvSeqno == old(recvSeqno) && windowSize == old(windowSize)
    {
      if active {
        timestamp := timestamp + msSinceLastTick;
        if timestamp >= curRTO && outstanding != [] {
          messages := messages + [outstanding[0]];
          if windowSize > 0 {
            ncr := ncr + 1;
            curRTO := Pow2(ncr) * initialRTO;
          }
          timestamp := 0;
        }
      }
    }
  }
}
