/**
 * The TCP receiver: learns the zero point (the peer's ISN) from the SYN, turns each segment's
 * sequence number into a stream index for the reassembler, and reports the acknowledgment
 * number and window the sender needs.
 */
module TcpReceiver {
  import opened Common
  import opened WrappingIntegers
  import opened ByteStreams
  import opened TcpSender
  import Reassembly

  /**
   * The stream index of a payload's first byte: the sequence number unwrapped against the zero
   * point, less one for the SYN, computed in uint64_t (so a sequence number naming the SYN
   * itself becomes 2^64 - 1).
   */
  function StreamIndex(seqno: u32, zeroPoint: u32, checkpoint: u64): (r: u64)
    ensures Unwrap(seqno, zeroPoint, checkpoint) > 0 ==> r + 1 == Unwrap(seqno, zeroPoint, checkpoint)
    ensures Unwrap(seqno, zeroPoint, checkpoint) == 0 ==> r == Two64 - 1
  {
    (Unwrap(seqno, zeroPoint, checkpoint) + Two64 - 1) % Two64
  }

  /** The receiver's fields together with the reassembler's pending spans and the inbound stream's producer view. */
  datatype ReceiveResult = ReceiveResult(
    zeroPoint: Option<u32>, isSyn: bool, isFin: bool, pending: seq<Reassembly.Span>, view: WriterView)

  /** TCPReceiver::receive, as a function of the state before it. */
  function ReceiveSpec(zeroPoint: Option<u32>, isSyn: bool, isFin: bool, pending: seq<Reassembly.Span>,
                       view: WriterView, message: SenderMessage): ReceiveResult
  {
    var zp := if message.syn then Some(message.seqno) else zeroPoint;
    var seqno := if message.syn then Add(message.seqno, 1) else message.seqno;
    if zp.None? then ReceiveResult(zeroPoint, isSyn, isFin, pending, view)
    else
      var inserted :=
        if message.payload == [] then Reassembly.FlushResult(pending, view)
        else
          var first := StreamIndex(seqno, zp.value, AsU64(|view.written|));
          Reassembly.InsertSpec(pending, view, first, message.payload, message.fin);
      var closeNow := message.fin && Reassembly.TotalLength(inserted.kept) == 0;
      ReceiveResult(zp, isSyn || message.syn, isFin || message.fin, inserted.kept,
                    if closeNow then inserted.view.(closed := true) else inserted.view)
  }

  /** Before any SYN, a segment without SYN changes nothing at all. */
  lemma ReceiveBeforeSynIgnored(isSyn: bool, isFin: bool, pending: seq<Reassembly.Span>, view: WriterView,
                                message: SenderMessage)
    requires !message.syn
    ensures ReceiveSpec(None, isSyn, isFin, pending, view, message) == ReceiveResult(None, isSyn, isFin, pending, view)
  {
  }

  /**
   * A SYN sets the zero point to its sequence number, replacing any earlier one, and a payload
   * it carries starts at stream index 0.
   */
  lemma ReceiveSynSetsZeroPoint(zeroPoint: Option<u32>, isSyn: bool, isFin: bool, pending: seq<Reassembly.Span>,
                                view: WriterView, message: SenderMessage)
    requires message.syn
    ensures var r := ReceiveSpec(zeroPoint, isSyn, isFin, pending, view, message);
            r.zeroPoint == Some(message.seqno) && r.isSyn
    ensures StreamIndex(Add(message.seqno, 1), message.seqno, AsU64(|view.written|)) == 0 || |view.written| >= 0x8000_0000
  {
    if |view.written| < 0x8000_0000 {
      assert Wrap(1, message.seqno) == Add(message.seqno, 1);
      UnwrapWithinHalfWindow(Add(message.seqno, 1), message.seqno, AsU64(|view.written|), 1);
    }
  }

  /**
   * Index round trip: a payload that starts at stream index `i`, sent (without SYN) at the
   * wrapped sequence number of absolute sequence number i + 1, is inserted at index `i`,
   * provided i + 1 lies within 2^31 of the bytes written so far.
   */
  lemma {:induction false} StreamIndexRoundTrip(i: nat, zeroPoint: u32, pushed: nat)
    requires i + 1 < Two64 && pushed < Two64
    requires Dist(i + 1, pushed) < 0x8000_0000
    ensures StreamIndex(Wrap(i + 1, zeroPoint), zeroPoint, AsU64(pushed)) == i
  {
    UnwrapWithinHalfWindow(Wrap(i + 1, zeroPoint), zeroPoint, pushed, i + 1);
  }

  /** receive keeps the reassembler's pending spans sorted and strictly gapped. */
  lemma ReceiveKeepsGapped(zeroPoint: Option<u32>, isSyn: bool, isFin: bool, pending: seq<Reassembly.Span>,
                           view: WriterView, message: SenderMessage)
    requires Reassembly.Gapped(pending)
    ensures Reassembly.Gapped(ReceiveSpec(zeroPoint, isSyn, isFin, pending, view, message).pending)
  {
    var zp := if message.syn then Some(message.seqno) else zeroPoint;
    var seqno := if message.syn then Add(message.seqno, 1) else message.seqno;
    if zp.Some? && message.payload != [] {
      var first := StreamIndex(seqno, zp.value, AsU64(|view.written|));
      Reassembly.InsertKeepsGapped(pending, view, first, message.payload, message.fin);
    }
  }

  /**
   * Exactly once, in order, end to end: when the inbound stream so far is a prefix of the true
   * stream `t`, the pending spans are slices of it, and a segment without SYN carries the bytes
   * of `t` from index `i` at the wrapped sequence number of i + 1 (within 2^31 of the bytes
   * written), receive only appends to the inbound stream and leaves it a prefix of `t`.
   */
  lemma {:induction false} ReceiveExactlyOnce(zeroPoint: u32, isSyn: bool, isFin: bool, pending: seq<Reassembly.Span>,
                                              view: WriterView, message: SenderMessage, i: nat, t: seq<char>)
    requires i + 1 < Two64 && |view.written| < Two64 && Dist(i + 1, |view.written|) < 0x8000_0000
    requires !message.syn && message.seqno == Wrap(i + 1, zeroPoint)
    requires view.written <= t && Reassembly.AllSlicesOf(t, pending)
    requires Reassembly.SliceOf(t, Reassembly.Span(i, message.payload, message.fin))
    ensures var r := ReceiveSpec(Some(zeroPoint), isSyn, isFin, pending, view, message);
            view.written <= r.view.written <= t && Reassembly.AllSlicesOf(t, r.pending)
  {
    if message.payload != [] {
      StreamIndexRoundTrip(i, zeroPoint, |view.written|);
      Reassembly.InsertExactlyOnce(pending, view, i, message.payload, message.fin, t);
    }
  }

  /**
   * As written, a FIN is honoured as soon as nothing is pending, wherever it lies: after the SYN,
   * an empty FIN segment for stream index 5 closes a stream holding no bytes.
   */
  lemma EarlyFinCloses(zeroPoint: u32)
    ensures var r := ReceiveSpec(Some(zeroPoint), true, false, [], WriterView([], 100, false),
                                 SenderMessage(Add(zeroPoint, 6), false, [], true));
            r.view.closed && r.view.written == [] && r.isFin
  {
  }

  /** Wrapping a uint64_t-truncated count equals adding the count to the zero point modulo 2^32. */
  lemma WrapOfAsU64(n: nat, zeroPoint: u32)
    ensures Wrap(AsU64(n), zeroPoint) == Add(zeroPoint, n)
  {
    var q := n / Two64;
    assert n == q * Two64 + AsU64(n);
    assert q * Two64 == (q * 0x1_0000_0000) * 0x1_0000_0000;
  }

  /** Adding two counts one after the other equals adding their sum, modulo 2^32. */
  lemma AddAdd(w: u32, a: nat, b: nat)
    ensures Add(Add(w, a), b) == Add(w, a + b)
  {
    var q := (w + a) / 0x1_0000_0000;
    assert w + a == q * 0x1_0000_0000 + Add(w, a);
  }

  class TCPReceiver {
    var zeroPoint: Option<u32>
    var isSyn: bool
    var isFin: bool

    /** The SYN flag is set exactly when a zero point is known, and a FIN is recorded only after it. */
    ghost predicate Valid()
      reads this
    {
      (isSyn <==> zeroPoint.Some?) && (isFin ==> isSyn)
    }

    constructor ()
      ensures Valid() && zeroPoint == None && !isSyn && !isFin
    {
      zeroPoint := None;
      isSyn := false;
      isFin := false;
    }

    /** TCPReceiver::receive. */
    method Receive(message: SenderMessage, reassembler: Reassembly.Reassembler, inbound: ByteStream)
      requires Valid() && reassembler.Valid() && inbound.Valid()
      modifies this, reassembler, inbound
      ensures Valid() && reassembler.Valid() && inbound.Valid()
      ensures ReceiveSpec(old(zeroPoint), old(isSyn), old(isFin), old(reassembler.pending), old(inbound.View()), message)
              == ReceiveResult(zeroPoint, isSyn, isFin, reassembler.pending, inbound.View())
      ensures inbound.poppedCount == old(inbound.poppedCount) && inbound.error == old(inbound.error)
    {
      var seqno := message.seqno;
      if message.syn {
        zeroPoint := Some(message.seqno);
        seqno := Add(seqno, 1);
        isSyn := true;
      }
      if zeroPoint.None? {
        return;
      }
      if message.payload != [] {
        var first := StreamIndex(seqno, zeroPoint.value, AsU64(inbound.BytesPushed()));
        reassembler.Insert(first, message.payload, message.fin, inbound);
      }
      if message.fin {
        isFin := true;
        var pending := reassembler.BytesPending();
        if pending == 0 {
          inbound.Close();
        }
      }
    }

    /**
     * TCPReceiver::send: the window is the free capacity capped at 65535, and once the zero
     * point is known the ackno is the absolute sequence number after the SYN and every byte
     * written, plus the FIN once it was seen and the stream is closed, wrapped.
     */
    function Send(inbound: ByteStream): (r: ReceiverMessage)
      reads this, inbound
      requires Valid() && inbound.Valid()
      ensures r.windowSize == Min(inbound.AvailableCapacity(), 65535)
      ensures r.ackno.Some? <==> zeroPoint.Some?
      ensures zeroPoint.Some? ==>
                r.ackno.value == Add(zeroPoint.value, |inbound.written| + 1 + (if isFin && inbound.closed then 1 else 0))
    {
      var avail := inbound.AvailableCapacity();
      var windowSize: u16 := if avail >= 65536 then 65535 else avail;
      if zeroPoint.None? then ReceiverMessage(None, windowSize)
      else
        var offset := (if isSyn then 1 else 0) + (if isFin && inbound.IsClosed() then 1 else 0);
        AddAdd(zeroPoint.value, inbound.BytesPushed(), offset);
        ReceiverMessage(Some(Add(Add(zeroPoint.value, inbound.BytesPushed()), offset)), windowSize)
    }

    /**
     * Ackno round trip: a sender whose checkpoint is within 2^31 of the receiver's absolute ackno
     * unwraps the ackno to exactly the bytes written plus the SYN (plus the FIN once closed).
     */
    lemma {:induction false} AcknoRoundTrip(inbound: ByteStream, checkpoint: u64)
      requires Valid() && inbound.Valid() && zeroPoint.Some?
      requires |inbound.written| + 2 < Two64
      requires Dist(|inbound.written| + 1 + (if isFin && inbound.closed then 1 else 0), checkpoint) < 0x8000_0000
      ensures Unwrap(Send(inbound).ackno.value, zeroPoint.value, checkpoint)
              == |inbound.written| + 1 + (if isFin && inbound.closed then 1 else 0)
    {
      var abs := |inbound.written| + 1 + (if isFin && inbound.closed then 1 else 0);
      WrapOfAsU64(abs, zeroPoint.value);
      UnwrapWithinHalfWindow(Send(inbound).ackno.value, zeroPoint.value, checkpoint, abs);
    }
  }
}
