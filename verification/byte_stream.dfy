/**
 * The flow-controlled byte stream (`ByteStream` with its `Writer` and `Reader` views): a
 * capacity-bounded FIFO of bytes with monotonic push and pop counters, a truncating push,
 * a clamped pop, and close and error flags.
 */
module ByteStreams {
  import opened Common

  /** The leading bytes of `data` that fit in `avail` free slots: what a push keeps. */
  function Accepted(avail: nat, data: seq<char>): (r: seq<char>)
    ensures |r| == Min(avail, |data|)
    ensures r <= data
    ensures |r| < |data| ==> |r| == avail
  {
    data[..Min(avail, |data|)]
  }

  /**
   * What a producer can observe of a stream: every byte ever written, the free capacity and
   * the closed flag. The reassembler is specified against this view.
   */
  datatype WriterView = WriterView(written: seq<char>, avail: nat, closed: bool)

  /** The effect of Writer::push on the producer's view. */
  function PushView(v: WriterView, data: seq<char>): (r: WriterView)
    ensures r.written == v.written + Accepted(v.avail, data)
    ensures r.avail + |r.written| == v.avail + |v.written|
    ensures r.closed == v.closed
  {
    var accepted := Accepted(v.avail, data);
    WriterView(v.written + accepted, v.avail - |accepted|, v.closed)
  }

  class ByteStream {
    const capacity: nat
    var buffer: seq<char>
    var closed: bool
    var error: bool
    var pushedCount: nat
    var poppedCount: nat
    /** Every byte ever pushed, in order: the popped ones, then the buffer. */
    ghost var written: seq<char>
    ghost var popped: seq<char>

    ghost predicate Valid()
      reads this
    {
      && |written| == pushedCount
      && |popped| == poppedCount
      && written == popped + buffer
      && |buffer| <= capacity
    }

    constructor (capacity: nat)
      ensures Valid()
      ensures this.capacity == capacity && buffer == [] && written == []
      ensures !closed && !error && pushedCount == 0 && poppedCount == 0
    {
      this.capacity := capacity;
      buffer := [];
      closed := false;
      error := false;
      pushedCount := 0;
      poppedCount := 0;
      written := [];
      popped := [];
    }

    /** The producer's view of this stream. */
    ghost function View(): (v: WriterView)
      reads this
      requires Valid()
      ensures |v.written| == pushedCount
      ensures v.avail == capacity - (pushedCount - poppedCount)
    {
      WriterView(written, AvailableCapacity(), closed)
    }

    /** Writer::available_capacity: the capacity not taken by pushed-but-unpopped bytes. */
    function AvailableCapacity(): (r: nat)
      reads this
      requires Valid()
      ensures r == capacity - (pushedCount - poppedCount)
    {
      capacity - |buffer|
    }

    /** Reader::bytes_buffered: bytes pushed and not yet popped. */
    function BytesBuffered(): (r: nat)
      reads this
      requires Valid()
      ensures r == pushedCount - poppedCount
      ensures r <= capacity
    {
      |buffer|
    }

    /** Writer::bytes_pushed. */
    function BytesPushed(): (r: nat)
      reads this
      requires Valid()
      ensures r == |written|
    {
      pushedCount
    }

    /** Reader::bytes_popped. */
    function BytesPopped(): (r: nat)
      reads this
      requires Valid()
      ensures r + |buffer| == |written|
    {
      poppedCount
    }

    /** Writer::is_closed. */
    function IsClosed(): bool
      reads this
    {
      closed
    }

    /** Reader::has_error. */
    function HasError(): bool
      reads this
    {
      error
    }

    /** Reader::is_finished: closed and every pushed byte popped. */
    function IsFinished(): (r: bool)
      reads this
      requires Valid()
      ensures r <==> closed && buffer == []
    {
      closed && pushedCount == poppedCount
    }

    /**
     * Reader::peek: nothing once errored or finished, otherwise the front byte. The source reads
     * the front of the queue unguarded, so a non-empty buffer is required in that case.
     */
    function Peek(): (r: seq<char>)
      reads this
      requires Valid()
      requires HasError() || IsFinished() || buffer != []
      ensures r == [] <==> error || IsFinished()
      ensures r != [] ==> r == buffer[..1]
    {
      if HasError() || IsFinished() then [] else [buffer[0]]
    }

    /**
     * Writer::push: appends the leading bytes of `data` that fit and counts them. It does not
     * consult the closed or error flags.
     */
    method Push(data: seq<char>)
      requires Valid()
      modifies this
      ensures Valid()
      ensures buffer == old(buffer) + Accepted(old(AvailableCapacity()), data)
      ensures written == old(written) + Accepted(old(AvailableCapacity()), data)
      ensures pushedCount == old(pushedCount) + Min(old(AvailableCapacity()), |data|)
      ensures View() == PushView(old(View()), data)
      ensures poppedCount == old(poppedCount) && closed == old(closed) && error == old(error)
    {
      var avail := AvailableCapacity();
      if avail == 0 || |data| == 0 {
        return;
      }
      var idx := 0;
      var i := avail;
      while i > 0
        invariant idx + i == avail && idx < |data|
        invariant Valid()
        invariant buffer == old(buffer) + data[..idx]
        invariant written == old(written) + data[..idx] && popped == old(popped)
        invariant pushedCount == old(pushedCount) + idx
        invariant poppedCount == old(poppedCount) && closed == old(closed) && error == old(error)
      {
        assert data[..idx + 1] == data[..idx] + [data[idx]];
        buffer := buffer + [data[idx]];
        written := written + [data[idx]];
        idx := idx + 1;
        pushedCount := pushedCount + 1;
        if idx == |data| {
          break;
        }
        i := i - 1;
      }
    }

    /** Writer::close: only sets the flag. */
    method Close()
      requires Valid()
      modifies this
      ensures Valid() && closed
      ensures buffer == old(buffer) && written == old(written) && error == old(error)
      ensures pushedCount == old(pushedCount) && poppedCount == old(poppedCount)
    {
      closed := true;
    }

    /** Writer::set_error: only sets the flag. */
    method SetError()
      requires Valid()
      modifies this
      ensures Valid() && error
      ensures buffer == old(buffer) && written == old(written) && closed == old(closed)
      ensures pushedCount == old(pushedCount) && poppedCount == old(poppedCount)
    {
      error := true;
    }

    /** Reader::pop: removes min(len, bytes_buffered) bytes from the front, popping more is clamped. */
    method Pop(len: nat)
      requires Valid()
      modifies this
      ensures Valid()
      ensures buffer == old(buffer)[Min(len, |old(buffer)|)..]
      ensures poppedCount == old(poppedCount) + Min(len, |old(buffer)|)
      ensures written == old(written) && pushedCount == old(pushedCount)
      ensures closed == old(closed) && error == old(error)
    {
      var realLen := if len > BytesBuffered() then BytesBuffered() else len;
      var i := 0;
      while i < realLen
        invariant i <= realLen <= |old(buffer)|
        invariant buffer == old(buffer)[i..] && popped == old(popped) + old(buffer)[..i]
        invariant poppedCount == old(poppedCount) + i
        invariant written == old(written) && pushedCount == old(pushedCount)
        invariant closed == old(closed) && error == old(error)
      {
        assert old(buffer)[..i + 1] == old(buffer)[..i] + [buffer[0]];
        popped := popped + [buffer[0]];
        buffer := buffer[1..];
        poppedCount := poppedCount + 1;
        i := i + 1;
      }
    }
  }

  /**
   * The `read` helper the sender uses: removes up to `len` bytes from the front of the stream
   * and returns them.
   */
  method Read(stream: ByteStream, len: nat) returns (out: seq<char>)
    requires stream.Valid()
    modifies stream
    ensures stream.Valid()
    ensures out == old(stream.buffer)[..Min(len, |old(stream.buffer)|)]
    ensures stream.buffer == old(stream.buffer)[|out|..]
    ensures stream.poppedCount == old(stream.poppedCount) + |out|
    ensures stream.written == old(stream.written) && stream.pushedCount == old(stream.pushedCount)
    ensures stream.closed == old(stream.closed) && stream.error == old(stream.error)
  {
    out := stream.buffer[..Min(len, |stream.buffer|)];
    stream.Pop(len);
  }
}
