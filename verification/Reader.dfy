/** The reader thread (crates/cedro-client/src/reader.rs:137-196): read, split, and push every
    frame into a bounded channel. */
module Readers {
  import opened Base
  import opened Framing

  /** What one `read` returns. */
  datatype ReadResult = Data(chunk: Bytes) | Eof | Interrupted | Failed

  datatype TrySend = Sent | Full | Disconnected

  /** A bounded channel whose consumer runs whenever it likes and may hang up at any time. */
  class FrameChannel {
    const capacity: nat
    var queue: seq<Frame>
    var received: seq<Frame>
    var connected: bool

    ghost predicate Valid()
      reads this
    {
      |queue| <= capacity
    }

    /** Every frame the channel has accepted, in order. */
    ghost function Accepted(): seq<Frame>
      reads this
    {
      received + queue
    }

    constructor (capacity: nat)
      ensures Valid() && Accepted() == [] && connected
    {
      this.capacity := capacity;
      queue := [];
      received := [];
      connected := true;
    }

    method ConsumerRuns()
      requires Valid()
      modifies this
      ensures Valid() && Accepted() == old(Accepted())
      ensures connected ==> old(connected)
    {
      var taken: nat :| taken <= |queue|;
      received := received + queue[..taken];
      queue := queue[taken..];
      var hangsUp: bool := *;
      connected := connected && !hangsUp;
    }

    method TrySendFrame(f: Frame) returns (r: TrySend)
      requires Valid()
      modifies this
      ensures Valid() && (connected ==> old(connected))
      ensures r.Sent? ==> Accepted() == old(Accepted()) + [f]
      ensures !r.Sent? ==> Accepted() == old(Accepted())
      ensures r.Disconnected? <==> !connected
    {
      ConsumerRuns();
      if !connected {
        return Disconnected;
      }
      if |queue| >= capacity {
        return Full;
      }
      queue := queue + [f];
      r := Sent;
    }

    /** Blocks until there is room, or a waiting consumer takes the frame directly, or it hangs up. */
    method SendFrame(f: Frame) returns (ok: bool)
      requires Valid()
      modifies this
      ensures Valid() && (connected ==> old(connected))
      ensures ok ==> Accepted() == old(Accepted()) + [f]
      ensures !ok ==> Accepted() == old(Accepted()) && !connected
    {
      ConsumerRuns();
      if connected && |queue| < capacity {
        queue := queue + [f];
        ok := true;
      } else if connected && queue == [] {
        received := received + [f];
        ok := true;
      } else if connected {
        received := received + queue[..1];
        queue := queue[1..] + [f];
        ok := true;
      } else {
        ok := false;
      }
    }
  }

  /** The bytes delivered by a series of reads. */
  function BytesOf(input: seq<ReadResult>): Bytes {
    if input == [] then []
    else
      var last := input[|input| - 1];
      BytesOf(input[..|input| - 1]) + (if last.Data? then last.chunk else [])
  }

  /** Reads that deliver one chunk after the other deliver their bytes in order; an interruption delivers
      nothing. */
  lemma {:induction false} BytesInOrder(input: seq<ReadResult>, more: seq<ReadResult>, chunk: Bytes)
    ensures BytesOf([Data(chunk)]) == chunk && BytesOf([Interrupted]) == []
    ensures BytesOf(input + more) == BytesOf(input) + BytesOf(more)
    decreases more
  {
    assert [Data(chunk)][..0] == [] && [Interrupted][..0] == [];
    assert [] + chunk == chunk && BytesOf([]) == [];
    if more == [] {
      assert input + more == input;
    } else {
      var front, last := more[..|more| - 1], more[|more| - 1];
      BytesInOrder(input, front, chunk);
      assert (input + more)[..|input + more| - 1] == input + front;
      assert (input + more)[|input + more| - 1] == last;
    }
  }

  /** The inner loop: every complete frame goes to the channel, try-send first and blocking if it is
      full. It gives up when the consumer has hung up. */
  method SendFrames(splitter: FrameSplitter, tx: FrameChannel) returns (ok: bool)
    requires tx.Valid()
    modifies splitter, tx
    ensures tx.Valid() && (tx.connected ==> ok)
    ensures tx.Accepted() <= old(tx.Accepted()) + FramesOf(old(splitter.buf))
    ensures ok ==> tx.Accepted() == old(tx.Accepted()) + FramesOf(old(splitter.buf))
    ensures ok ==> splitter.buf == TailOf(old(splitter.buf))
  {
    hide FramesOf, TailOf;
    ghost var goal := tx.Accepted() + FramesOf(splitter.buf);
    var next := splitter.NextFrame();
    while next.Some?
      invariant tx.Valid()
      invariant goal == tx.Accepted() + (if next.Some? then [next.value] + FramesOf(splitter.buf) else [])
      invariant TailOf(old(splitter.buf)) == TailOf(splitter.buf)
      invariant next.None? ==> splitter.buf == TailOf(splitter.buf)
      decreases next.Some?, |splitter.buf|
    {
      ghost var before := tx.Accepted();
      var tried := tx.TrySendFrame(next.value);
      if tried.Disconnected? {
        return false;
      }
      if tried.Full? {
        var sent := tx.SendFrame(next.value);
        if !sent {
          return false;
        }
      }
      SendOne(before, next.value, FramesOf(splitter.buf));
      next := splitter.NextFrame();
    }
    ok := true;
  }

  lemma SendOne(sent: seq<Frame>, f: Frame, rest: seq<Frame>)
    ensures sent + ([f] + rest) == sent + [f] + rest
  {}

  /** `input` is what the socket will return, call by call; `stop` the stop flag as loaded before
      each of them. The loop returns after `n` reads. While the consumer stays connected the
      channel has accepted exactly the frames of the bytes read, whatever the chunking and however
      often the channel was full; if it hangs up, a prefix of them. */
  method ReaderLoop(input: seq<ReadResult>, stop: seq<bool>, tx: FrameChannel) returns (n: nat)
    requires tx.Valid() && tx.Accepted() == [] && |stop| == |input|
    modifies tx
    ensures n <= |input| && tx.Valid()
    ensures tx.Accepted() <= FramesOf(BytesOf(input[..n]))
    ensures tx.connected ==> tx.Accepted() == FramesOf(BytesOf(input[..n]))
    ensures tx.connected ==> n == |input| || stop[n] || input[n].Eof? || input[n].Failed?
    ensures forall i :: 0 <= i < n ==> !stop[i] && (input[i].Data? || input[i].Interrupted?)
  {
    hide FramesOf, TailOf;
    EmptyStream();
    var splitter := new FrameSplitter();
    n := 0;
    while n < |input|
      invariant n <= |input| && tx.Valid() && fresh(splitter)
      invariant splitter.buf == TailOf(BytesOf(input[..n]))
      invariant tx.Accepted() == FramesOf(BytesOf(input[..n]))
      invariant forall i :: 0 <= i < n ==> !stop[i] && (input[i].Data? || input[i].Interrupted?)
    {
      if stop[n] {
        return;
      }
      var chunk;
      match input[n] {
        case Eof => return;
        case Failed => return;
        case Interrupted => chunk := [];
        case Data(bytes) => chunk := bytes;
      }
      assert input[..n + 1][..n] == input[..n];
      ghost var bytes := BytesOf(input[..n + 1]);
      assert bytes == BytesOf(input[..n]) + chunk;
      FramesOfPieces(BytesOf(input[..n]), chunk);
      n := n + 1;
      if input[n - 1].Interrupted? {
        Unsplit(BytesOf(input[..n - 1]));
        continue;
      }
      splitter.ExtendFromSlice(chunk);
      var ok := SendFrames(splitter, tx);
      if !ok {
        return;
      }
    }
  }

  lemma EmptyStream()
    ensures FramesOf([]) == [] && TailOf([]) == []
  {}

  /** The bytes kept back hold no complete frame. */
  lemma Unsplit(s: Bytes)
    ensures FramesOf(TailOf(s) + []) == [] && TailOf(TailOf(s) + []) == TailOf(s)
  {
    JoinInvertsSplit(s);
    assert TailOf(s) + [] == TailOf(s);
    assert Joined([]) + TailOf(s) == TailOf(s);
    SplitInvertsJoin([], TailOf(s));
  }
}
