/** Reading from a stream (quicfork/receive_stream.go), without cancellation, deadlines and shutdown. */
module ReceiveStreams {
  import opened Protocol
  import opened Fragments
  import opened Tiling
  import opened FrameSorting

  /** A STREAM frame; the callback returns its buffer. */
  datatype StreamFrame = StreamFrame(offset: nat, data: seq<Byte>, fin: bool, putBack: Option<nat>)

  /** The receiving half of the flow controller: the highest offset, and whether it is final. */
  datatype Flow = Flow(highestReceived: nat, receivedFinalOffset: bool)

  /** The frame that is being read, its callback, how far it was read, and whether it ends the stream. */
  datatype Current = Current(frame: Option<seq<Byte>>, doneCb: Option<nat>, pos: nat, isLast: bool)

  /** Panicked: the sorter found no gap. */
  datatype HandleResult = Handled | FinalSizeError | FlowControlError | SorterError | Panicked

  /** Blocked: the call waits for more data. */
  datatype Status = Done | Eof | Blocked

  /** UpdateHighestReceived; allowed tells whether the flow control windows have room. */
  function UpdateHighestReceived(f: Flow, offset: nat, final: bool, allowed: bool): (Flow, HandleResult) {
    if f.receivedFinalOffset && ((final && offset != f.highestReceived) || offset > f.highestReceived) then (f, FinalSizeError)
    else
      var f' := Flow(f.highestReceived, f.receivedFinalOffset || final);
      if offset == f.highestReceived then (f', Handled)
      else if offset < f.highestReceived then (f', if final then FinalSizeError else Handled)
      else (f'.(highestReceived := offset), if allowed then Handled else FlowControlError)
  }

  /** The frame goes beyond the known end of the stream, or ends the stream in front of bytes that came already. */
  predicate FinalSizeChanged(f: Flow, offset: nat, final: bool) {
    (f.receivedFinalOffset && offset > f.highestReceived) || (final && offset < f.highestReceived)
  }

  /** Once the final offset is known it stays, and an error means that a frame contradicts it. */
  lemma FinalOffsetIsFixed(f: Flow, offset: nat, final: bool, allowed: bool)
    ensures var (f', r) := UpdateHighestReceived(f, offset, final, allowed);
      && (r == FinalSizeError <==> FinalSizeChanged(f, offset, final))
      && (r == FlowControlError <==> !FinalSizeChanged(f, offset, final) && !allowed && offset > f.highestReceived)
      && (r == Handled ==>
            && f' == Flow(Max(f.highestReceived, offset), f.receivedFinalOffset || final)
            && (f'.receivedFinalOffset ==> f'.highestReceived == if final then offset else f.highestReceived))
  {
  }

  /** What is left of the frame that is being read. */
  function Rest(c: Current): seq<Byte> {
    if c.frame.Some? && c.pos <= |c.frame.value| then c.frame.value[c.pos..] else []
  }

  /** The callback that the stream still has to call. After the end of the stream it was called. */
  function Owed(c: Current): Option<nat> {
    if c.frame.None? && c.isLast then None else c.doneCb
  }

  ghost predicate Taken(c: Current, pos: nat, q: Queue)
    requires c.frame.Some?
  {
    |c.frame.value| <= pos && var k := pos - |c.frame.value|; k in q && q[k] == Entry(c.frame.value, c.doneCb)
  }

  /** The frame that is being read is the same as before, or it was taken out of the queue with its callback. */
  ghost predicate CurrentFrom(c: Current, pos: nat, c0: Current, pos0: nat, q0: Queue) {
    c.frame.Some? ==>
      || (c.frame == c0.frame && c.doneCb == c0.doneCb && pos == pos0)
      || Taken(c, pos, q0)
  }

  lemma CurrentStays(c: Current, pos: nat, q: Queue)
    ensures CurrentFrom(c, pos, c, pos, q)
  {
  }

  lemma CurrentFromBoth(c: Current, pos: nat, c1: Current, pos1: nat, q1: Queue, c0: Current, pos0: nat, q0: Queue)
    requires CurrentFrom(c, pos, c1, pos1, q1) && CurrentFrom(c1, pos1, c0, pos0, q0) && Within(q1, q0)
    ensures CurrentFrom(c, pos, c0, pos0, q0)
  {
  }

  ghost predicate QueueBelow(q: Queue, limit: nat) {
    forall k :: k in q ==> EndOf(q, k) <= limit
  }

  /** How the frame that is being read fits behind the sorter's read position. */
  ghost predicate CurrentOk(c: Current, readPos: nat, sorterPos: nat, finalOffset: nat) {
    && (match c.frame
        case None => readPos == sorterPos
        case Some(d) => 0 < |d| <= sorterPos && c.pos <= |d| && readPos == sorterPos - |d| + c.pos)
    && (c.isLast ==> finalOffset <= sorterPos)
  }

  class ReceiveStream {
    const frameQueue: FrameSorter
    var finalOffset: nat
    var cur: Current
    var readPos: nat
    var flow: Flow
    /** The calls of callbacks of frames that were read. */
    var released: multiset<nat>

    ghost predicate Valid()
      reads this, frameQueue
    {
      && frameQueue.Valid()
      && CurrentOk(cur, readPos, frameQueue.readPos, finalOffset)
      && QueueBelow(frameQueue.queue, flow.highestReceived)
      && frameQueue.readPos <= flow.highestReceived && frameQueue.readPos < MAX_BYTE_COUNT
      && (finalOffset != MAX_BYTE_COUNT ==> flow == Flow(finalOffset, true))
    }

    /** The bytes that can be read now. */
    ghost function Readable(): seq<Byte>
      reads this, frameQueue
    {
      Rest(cur) + Run(frameQueue.queue, frameQueue.readPos)
    }

    /** The current frame is known to be the last one, or there is more behind it. */
    ghost predicate EndInSight()
      reads this, frameQueue
    {
      cur.isLast || |Rest(cur)| < |Readable()|
    }

    /** Everything up to the final offset was read. */
    predicate AtEnd()
      reads this
    {
      readPos == finalOffset
    }

    /** How often callback c waits somewhere or was called. */
    ghost function Callbacks(c: nat): nat
      reads this, frameQueue
    {
      Account(frameQueue.queue, frameQueue.released, c) + released[c] + One(Owed(cur), c)
    }

    constructor ()
      ensures Valid() && fresh(frameQueue) && readPos == 0 && finalOffset == MAX_BYTE_COUNT
      ensures Readable() == [] && flow == Flow(0, false)
      ensures frameQueue.queue == map[] && frameQueue.readPos == 0 && frameQueue.gaps == [Interval(0, MAX_BYTE_COUNT)]
      ensures cur == Current(None, None, 0, false) && forall c :: Callbacks(c) == 0
    {
      frameQueue := new FrameSorter();
      finalOffset, cur, readPos, flow := MAX_BYTE_COUNT, Current(None, None, 0, false), 0, Flow(0, false);
      released := multiset{};
      new;
      forall c
        ensures Account(frameQueue.queue, frameQueue.released, c) == 0
      {
        assert Holders(frameQueue.queue, c) == {};
      }
    }

    /** dequeueNextFrame: the next frame replaces one that was read completely. */
    method DequeueNextFrame()
      requires Valid() && Rest(cur) == [] && !(cur.isLast && cur.frame.None?)
      modifies this`cur, this`released, frameQueue`queue, frameQueue`readPos
      ensures Valid() && Readable() == old(Readable())
      ensures cur.pos == 0 && (cur.frame.None? ==> cur.doneCb.None?)
      ensures cur.frame.None? <==> old(Readable()) == []
      ensures cur.frame.Some? ==> cur.frame.value != []
      ensures cur.frame.None? ==> (cur.isLast <==> AtEnd())
      ensures cur.isLast <==> finalOffset <= readPos + |Rest(cur)|
      ensures CurrentFrom(cur, frameQueue.readPos, old(cur), old(frameQueue.readPos), old(frameQueue.queue))
      ensures cur.isLast <==> finalOffset <= frameQueue.readPos
      ensures Within(frameQueue.queue, old(frameQueue.queue))
      ensures forall c :: Callbacks(c) == old(Callbacks(c))
    {
      hide frameQueue.Valid;
      hide Pending, QueueBelow;
      released := Call(released, cur.doneCb);
      QueueBelowAfterPop(frameQueue.queue, frameQueue.readPos, flow.highestReceived);
      PopStartOf(frameQueue);
      var offset, data, doneCb := frameQueue.Pop();
      PopStartOf(frameQueue);
      var isLast := offset + |data| >= finalOffset;
      cur := Current(if data == [] then None else Some(data), doneCb, 0, isLast);
    }

    /** The part of handleStreamFrameImpl that fills the queue; nothing in it ends behind limit yet. */
    method PushFrame(f: StreamFrame, ghost limit: nat) returns (r: PushResult)
      requires frameQueue.Valid() && QueueBelow(frameQueue.queue, limit)
      requires flow.highestReceived == Max(limit, f.offset + |f.data|)
      modifies frameQueue
      ensures r != Duplicate
      ensures r == Panic <==> |f.data| > 0 && MAX_BYTE_COUNT <= f.offset + |f.data|
      ensures r == TooManyGaps <==>
              && r != Panic && old(|frameQueue.gaps|) == MAX_STREAM_FRAME_SORTER_GAPS
              && SplitsGap(old(frameQueue.gaps), f.offset, f.offset + |f.data|)
      ensures r == Ok ==> frameQueue.Valid() && QueueBelow(frameQueue.queue, flow.highestReceived)
      ensures r == Ok ==> Provenance(old(frameQueue.queue), frameQueue.queue, f.data, f.offset)
      ensures r == Ok ==> GapsPunched(old(frameQueue.gaps), frameQueue.gaps, f.offset, f.offset + |f.data|)
      ensures r == Ok ==> frameQueue.readPos == old(frameQueue.readPos) && |frameQueue.gaps| <= old(|frameQueue.gaps|) + 1
      ensures r == Ok ==> |old(Run(frameQueue.queue, frameQueue.readPos))| <= |Run(frameQueue.queue, frameQueue.readPos)|
      ensures r == Ok ==> forall c :: Account(frameQueue.queue, frameQueue.released, c)
                                   == old(Account(frameQueue.queue, frameQueue.released, c)) + One(f.putBack, c)
      ensures r == Ok && old(AllInGaps(frameQueue.gaps, f.offset, f.offset + |f.data|)) ==>
              frameQueue.queue == if f.data == [] then old(frameQueue.queue) else old(frameQueue.queue)[f.offset := Entry(f.data, f.putBack)]
    {
      hide frameQueue.Valid;
      hide Provenance, SplitsGap, Dropped, Stores, AllInGaps, Covered, InGap, Account, Run, QueueBelow, GapsPunched, GapsOk;
      ghost var q, g := frameQueue.queue, frameQueue.gaps;
      RunReachesGap(frameQueue);
      NothingInEmpty(q, g, f.offset);
      r := frameQueue.Push(f.data, f.offset, f.putBack);
      if r == Ok {
        RunReachesGap(frameQueue);
        FirstGapMoves(g, frameQueue.gaps, f.offset, f.offset + |f.data|);
        PushBelow(q, frameQueue.queue, f.data, f.offset, limit, flow.highestReceived);
      }
    }

    /** handleStreamFrameImpl; allowed tells whether the flow control windows reach to the end of the frame. */
    method HandleStreamFrame(f: StreamFrame, allowed: bool) returns (r: HandleResult)
      requires Valid()
      modifies this`flow, this`finalOffset, frameQueue
      ensures r == Handled ==> Valid() && finalOffset == if f.fin then f.offset + |f.data| else old(finalOffset)
      ensures r == Handled ==> Provenance(old(frameQueue.queue), frameQueue.queue, f.data, f.offset)
      ensures r == Handled ==> GapsPunched(old(frameQueue.gaps), frameQueue.gaps, f.offset, f.offset + |f.data|)
      ensures r == Handled ==> frameQueue.readPos == old(frameQueue.readPos) && |old(Readable())| <= |Readable()|
      ensures r == Handled ==> forall c :: Callbacks(c) == old(Callbacks(c)) + One(f.putBack, c)
      ensures r == Handled ==> flow.highestReceived == Max(old(flow.highestReceived), f.offset + |f.data|)
      ensures r == Handled ==> flow.receivedFinalOffset == (old(flow.receivedFinalOffset) || f.fin)
      ensures r == FinalSizeError <==> FinalSizeChanged(old(flow), f.offset + |f.data|, f.fin)
      ensures r == FlowControlError <==>
              !FinalSizeChanged(old(flow), f.offset + |f.data|, f.fin) && !allowed && f.offset + |f.data| > old(flow.highestReceived)
      ensures r == Handled ==> |frameQueue.gaps| <= old(|frameQueue.gaps|) + 1
      ensures r == Handled && old(AllInGaps(frameQueue.gaps, f.offset, f.offset + |f.data|)) ==>
              frameQueue.queue == if f.data == [] then old(frameQueue.queue) else old(frameQueue.queue)[f.offset := Entry(f.data, f.putBack)]
      ensures r == Panicked <==>
              r != FinalSizeError && r != FlowControlError && |f.data| > 0 && MAX_BYTE_COUNT <= f.offset + |f.data|
      ensures r == SorterError <==>
              && r != FinalSizeError && r != FlowControlError && r != Panicked
              && old(|frameQueue.gaps|) == MAX_STREAM_FRAME_SORTER_GAPS
              && SplitsGap(old(frameQueue.gaps), f.offset, f.offset + |f.data|)
    {
      hide frameQueue.Valid;
      hide Provenance, SplitsGap, AllInGaps, Account, Run, QueueBelow, GapsPunched;
      RunReachesGap(frameQueue);
      var maxOffset := f.offset + |f.data|;
      var (flow', result) := UpdateHighestReceived(flow, maxOffset, f.fin, allowed);
      FinalOffsetIsFixed(flow, maxOffset, f.fin, allowed);
      flow := flow';
      if result != Handled {
        return result;
      }
      if f.fin {
        finalOffset := maxOffset;
      }
      var pushed := PushFrame(f, old(flow).highestReceived);
      return match pushed case Panic => Panicked case TooManyGaps => SorterError case _ => Handled;
    }

    /** The copying step of readImpl: as much as fits of the current frame goes to p[at..]. */
    method CopyCurrent(p: array<Byte>, at: nat) returns (m: nat)
      requires Valid() && Rest(cur) != [] && at < p.Length
      modifies this`cur, this`readPos, p
      ensures Valid() && cur == old(cur).(pos := old(cur.pos) + m) && readPos == old(readPos) + m
      ensures 0 < m == Min(p.Length - at, old(|Rest(cur)|))
      ensures m <= old(|Readable()|) && Readable() == old(Readable())[m..]
      ensures forall i :: 0 <= i < p.Length ==>
                p[i] == if at <= i < at + m then old(Readable())[i - at] else old(p[i])
      ensures forall c :: Callbacks(c) == old(Callbacks(c))
    {
      hide frameQueue.Valid;
      hide Account, QueueBelow, Run;
      ghost var all, rest := Readable(), Rest(cur);
      m := Min(p.Length - at, |cur.frame.value| - cur.pos);
      CopyInto(p, at, cur.frame.value[cur.pos..], m);
      cur := cur.(pos := cur.pos + m);
      readPos := readPos + m;
      assert Rest(cur) == rest[m..];
      assert Readable() == all[m..];
    }

    /** The end of readImpl's loop: the last frame was read, its buffer goes back. */
    method FinishLast()
      requires Valid() && cur.isLast && Rest(cur) == [] && (cur.frame.Some? || cur.doneCb.None?)
      modifies this`cur, this`released
      ensures Valid() && Readable() == old(Readable()) && AtEnd() && cur.isLast && cur.frame.None?
      ensures forall c :: Callbacks(c) == old(Callbacks(c))
    {
      hide frameQueue.Valid;
      hide Account, QueueBelow, Run;
      released := Call(released, cur.doneCb);
      cur := cur.(frame := None);
    }

    /** One round of readImpl's loop, with n bytes read before. It is the last one if m is 0 or status is not Done. */
    method ReadStep(p: array<Byte>, n: nat) returns (m: nat, status: Status)
      requires Valid() && n < p.Length && !(cur.isLast && cur.frame.None?)
      modifies this`cur, this`readPos, this`released, frameQueue`queue, frameQueue`readPos, p
      ensures Valid() && Within(frameQueue.queue, old(frameQueue.queue)) && readPos == old(readPos) + m
      ensures m <= Min(p.Length - n, old(|Readable()|)) && Readable() == old(Readable())[m..]
      ensures forall i :: 0 <= i < p.Length ==>
                p[i] == if n <= i < n + m then old(Readable())[i - n] else old(p[i])
      ensures m == 0 <==> old(Readable()) == []
      ensures m == 0 ==> status == if n > 0 then Done else if AtEnd() then Eof else Blocked
      ensures status == Done && m > 0 ==> !(cur.isLast && cur.frame.None?)
      ensures m > 0 ==> status != Blocked
      ensures status == Eof ==> AtEnd() && Readable() == [] && cur.isLast && cur.frame.None?
      ensures m > 0 ==> (status == Eof <==> Readable() == [] && AtEnd() && old(EndInSight()))
      ensures m > 0 && Readable() != [] && readPos + |Readable()| == finalOffset ==> (EndInSight() <==> old(EndInSight()))
      ensures CurrentFrom(cur, frameQueue.readPos, old(cur), old(frameQueue.readPos), old(frameQueue.queue))
      ensures || (cur.isLast <==> finalOffset <= frameQueue.readPos)
              || (cur.isLast == old(cur.isLast) && frameQueue.readPos == old(frameQueue.readPos))
      ensures forall c :: Callbacks(c) == old(Callbacks(c))
    {
      hide Valid, Readable, Callbacks;
      RestComesFirst(this);
      if cur.frame.None? || cur.pos >= |cur.frame.value| {
        Exhausted(cur);
        DequeueNextFrame();
      }
      if cur.frame.None? && n > 0 {
        return 0, Done;
      }
      if cur.frame.None? && !cur.isLast {
        return 0, Blocked;
      }
      m := 0;
      if cur.frame.Some? {
        m := CopyCurrent(p, n);
      }
      if (cur.frame.None? || cur.pos >= |cur.frame.value|) && cur.isLast {
        FinishLast();
        NothingBehindEnd(this);
        return m, Eof;
      }
      RestComesFirst(this);
      return m, Done;
    }

    /** readImpl. */
    method ReadImpl(p: array<Byte>) returns (n: nat, status: Status)
      requires Valid()
      modifies this`cur, this`readPos, this`released, frameQueue`queue, frameQueue`readPos, p
      ensures Valid() && Within(frameQueue.queue, old(frameQueue.queue))
      ensures n == Min(p.Length, |old(Readable())|) && readPos == old(readPos) + n
      ensures forall i :: 0 <= i < p.Length ==> p[i] == if i < n then old(Readable())[i] else old(p[i])
      ensures Readable() == old(Readable())[n..]
      ensures status == Eof ==> AtEnd() && cur.isLast && cur.frame.None?
      ensures status == Blocked <==> p.Length > 0 && old(Readable()) == [] && !old(AtEnd())
      ensures p.Length > 0 && old(Readable()) == [] && old(AtEnd()) ==> status == Eof
      ensures p.Length == 0 ==> (status == Eof <==> old(cur.isLast && cur.frame.None?))
      ensures old(Readable()) != [] ==>
              (status == Eof <==> old(readPos + |Readable()|) == finalOffset && old(|Readable()|) <= p.Length && old(EndInSight()))
      ensures CurrentFrom(cur, frameQueue.readPos, old(cur), old(frameQueue.readPos), old(frameQueue.queue))
      ensures || (cur.isLast <==> finalOffset <= frameQueue.readPos)
              || (cur.isLast == old(cur.isLast) && frameQueue.readPos == old(frameQueue.readPos))
      ensures forall c :: Callbacks(c) == old(Callbacks(c))
    {
      hide Valid, Readable, Callbacks, Within, EndInSight, CurrentFrom;
      ghost var all, inSight := Readable(), EndInSight();
      n := 0;
      WithinItself(frameQueue.queue);
      CurrentStays(cur, frameQueue.readPos, frameQueue.queue);
      NothingBehindEnd(this);
      if cur.isLast && cur.frame.None? {
        return 0, Eof;
      }
      while n < p.Length
        invariant Valid() && n <= Min(p.Length, |all|) && readPos == old(readPos) + n
        invariant Readable() == all[n..] && !(cur.isLast && cur.frame.None?)
        invariant forall i :: 0 <= i < p.Length ==> p[i] == if i < n then all[i] else old(p[i])
        invariant Within(frameQueue.queue, old(frameQueue.queue))
        invariant forall c :: Callbacks(c) == old(Callbacks(c))
        invariant 0 < |all| && old(readPos) + |all| == finalOffset ==> (n < |all| && (EndInSight() <==> inSight)) || (n == |all| && !inSight)
        invariant CurrentFrom(cur, frameQueue.readPos, old(cur), old(frameQueue.readPos), old(frameQueue.queue))
        invariant || (cur.isLast <==> finalOffset <= frameQueue.readPos)
                  || (cur.isLast == old(cur.isLast) && frameQueue.readPos == old(frameQueue.readPos))
      {
        ghost var q, c, pos := frameQueue.queue, cur, frameQueue.readPos;
        var m;
        m, status := ReadStep(p, n);
        WithinBoth(frameQueue.queue, q, old(frameQueue.queue));
        CurrentFromBoth(cur, frameQueue.readPos, c, pos, q, old(cur), old(frameQueue.readPos), old(frameQueue.queue));
        n := n + m;
        if m == 0 || status != Done {
          return;
        }
      }
      return n, Done;
    }

    /**
     * Read: delivers as much as is there and fits. Blocked means that nothing can be read yet; Eof is
     * reported only when every byte up to the final offset was read.
     */
    method Read(p: array<Byte>) returns (n: nat, status: Status)
      requires Valid()
      modifies this`cur, this`readPos, this`released, frameQueue`queue, frameQueue`readPos, p
      ensures Valid() && Within(frameQueue.queue, old(frameQueue.queue))
      ensures n == Min(p.Length, |old(Readable())|) && readPos == old(readPos) + n
      ensures p[..n] == old(Readable())[..n] && p[n..] == old(p[n..])
      ensures Readable() == old(Readable())[n..]
      ensures status == Eof ==> AtEnd() && cur.isLast && cur.frame.None?
      ensures status == Blocked <==> p.Length > 0 && old(Readable()) == [] && !old(AtEnd())
      ensures p.Length > 0 && old(Readable()) == [] && old(AtEnd()) ==> status == Eof
      ensures p.Length == 0 ==> (status == Eof <==> old(cur.isLast && cur.frame.None?))
      ensures old(Readable()) != [] ==>
              (status == Eof <==> old(readPos + |Readable()|) == finalOffset && old(|Readable()|) <= p.Length && old(EndInSight()))
      ensures CurrentFrom(cur, frameQueue.readPos, old(cur), old(frameQueue.readPos), old(frameQueue.queue))
      ensures || (cur.isLast <==> finalOffset <= frameQueue.readPos)
              || (cur.isLast == old(cur.isLast) && frameQueue.readPos == old(frameQueue.readPos))
      ensures forall c :: Callbacks(c) == old(Callbacks(c))
    {
      hide Valid, Readable, Callbacks, Within, EndInSight, CurrentFrom;
      n, status := ReadImpl(p);
    }

    /**
     * Peek and peekImpl: all of b is filled if enough is there; otherwise Eof comes with exactly the bytes up to
     * the final offset, once they are all there. Nothing is consumed.
     */
    method Peek(b: array<Byte>) returns (n: nat, status: Status)
      requires Valid()
      modifies this`cur, this`released, frameQueue`queue, frameQueue`readPos, b
      ensures Valid() && Within(frameQueue.queue, old(frameQueue.queue))
      ensures Readable() == old(Readable())
      ensures status == if b.Length <= |Readable()| then Done else if readPos + |Readable()| == finalOffset then Eof else Blocked
      ensures n == if status == Done then b.Length else if status == Eof then |Readable()| else 0
      ensures b[..n] == Readable()[..n] && b[n..] == old(b[n..])
      ensures CurrentFrom(cur, frameQueue.readPos, old(cur), old(frameQueue.readPos), old(frameQueue.queue))
      ensures || (cur.isLast <==> finalOffset <= frameQueue.readPos)
              || (cur.isLast == old(cur.isLast) && frameQueue.readPos == old(frameQueue.readPos))
      ensures forall c :: Callbacks(c) == old(Callbacks(c))
    {
      hide frameQueue.Valid;
      hide Account, QueueBelow, Run;
      NothingBehindEnd(this);
      if b.Length == 0 {
        return 0, Done;
      }
      if cur.isLast && cur.frame.None? {
        return 0, Eof;
      }
      if cur.frame.None? || cur.pos >= |cur.frame.value| {
        Exhausted(cur);
        DequeueNextFrame();
      }
      if cur.frame.Some? {
        n, status := PeekFrom(b);
        if status != Blocked {
          return;
        }
      }
      if cur.isLast || readPos >= finalOffset {
        return 0, Eof;
      }
      return 0, Blocked;
    }

    /** The part of peekImpl for a current frame with unread bytes. */
    method PeekFrom(b: array<Byte>) returns (n: nat, status: Status)
      requires Valid() && Rest(cur) != [] && b.Length > 0
      modifies b
      ensures status == if b.Length <= |Readable()| then Done else if readPos + |Readable()| == finalOffset then Eof else Blocked
      ensures n == if status == Done then b.Length else if status == Eof then |Readable()| else 0
      ensures b[..n] == Readable()[..n] && b[n..] == old(b[n..])
    {
      hide frameQueue.Valid;
      hide QueueBelow, Run;
      NothingBehindEnd(this);
      var available := |cur.frame.value| - cur.pos;
      if available >= b.Length {
        CopyInto(b, 0, cur.frame.value[cur.pos..], b.Length);
        return b.Length, Done;
      }
      var ok := PeekBehind(b, available, b.Length);
      if ok {
        return b.Length, Done;
      }
      if cur.isLast {
        CopyInto(b, 0, cur.frame.value[cur.pos..], available);
        return available, Eof;
      }
      if readPos + b.Length > finalOffset {
        ok := PeekBehind(b, available, finalOffset - readPos);
        if ok {
          return finalOffset - readPos, Eof;
        }
      }
      return 0, Blocked;
    }

    /** Fills b[..total], the first available bytes from the current frame, if the queue has the rest. */
    method PeekBehind(b: array<Byte>, available: nat, total: nat) returns (ok: bool)
      requires Valid() && Rest(cur) != [] && available == |Rest(cur)| <= total <= b.Length
      modifies b
      ensures ok <==> total <= |Readable()|
      ensures ok ==> b[..total] == Readable()[..total] && b[total..] == old(b[total..])
      ensures !ok ==> b[..] == old(b[..])
    {
      hide frameQueue.Valid;
      hide QueueBelow, Run;
      ok := total == available;
      if !ok {
        ok := frameQueue.Peek(readPos + available, b, available, total);
      }
      if ok {
        ghost var behind := b[available..total];
        CopyInto(b, 0, cur.frame.value[cur.pos..], available);
        assert b[available..total] == behind;
        assert b[..total] == b[..available] + b[available..total];
      }
    }
  }

  /** A frame that ends at the largest offset panics if the flow control windows let it through. */
  method LargestOffsetPanics(b: Byte, fin: bool, putBack: Option<nat>) returns (r: HandleResult)
    ensures r == Panicked
  {
    var s := new ReceiveStream();
    r := s.HandleStreamFrame(StreamFrame(MAX_BYTE_COUNT - 1, [b], fin, putBack), true);
  }

  /** The largest offset stands for an unknown end: a stream that ends there waits for more instead. */
  method LargestFinalSize(p: array<Byte>, putBack: Option<nat>) returns (r: HandleResult, n: nat, status: Status)
    requires p.Length > 0
    modifies p
    ensures r == Handled && n == 0 && status == Blocked
  {
    hide Account, Provenance, QueueBelow;
    var s := new ReceiveStream();
    ghost var g := s.frameQueue.gaps;
    r := s.HandleStreamFrame(StreamFrame(MAX_BYTE_COUNT, [], true, putBack), true);
    RunReachesGap(s.frameQueue);
    assert InGap(g, 0) && InGap(s.frameQueue.gaps, 0);
    n, status := s.Read(p);
  }

  lemma RestComesFirst(s: ReceiveStream)
    requires s.Valid()
    ensures Rest(s.cur) <= s.Readable() && s.frameQueue.readPos == s.readPos + |Rest(s.cur)|
    ensures s.cur.frame.Some? && Rest(s.cur) == [] ==> s.cur.pos >= |s.cur.frame.value|
  {
    hide s.frameQueue.Valid;
    hide QueueBelow, Run;
  }

  lemma WithinItself(q: Queue)
    ensures Within(q, q)
  {
  }

  lemma WithinBoth(q'': Queue, q': Queue, q: Queue)
    requires Within(q'', q') && Within(q', q)
    ensures Within(q'', q)
  {
  }

  lemma Exhausted(c: Current)
    requires c.frame.None? || c.pos >= |c.frame.value|
    ensures Rest(c) == []
  {
  }

  /** Nothing can be read behind the highest offset, so nothing behind the end of the stream. */
  lemma NothingBehindEnd(s: ReceiveStream)
    requires s.Valid()
    ensures s.readPos + |s.Readable()| <= s.flow.highestReceived && s.readPos + |s.Readable()| < MAX_BYTE_COUNT
    ensures s.AtEnd() ==> s.Readable() == [] && s.finalOffset < MAX_BYTE_COUNT
    ensures s.cur.isLast && s.cur.frame.None? ==> s.AtEnd()
  {
    hide s.frameQueue.Valid;
    hide GapsOk, Run, QueueBelow;
    RunReachesGap(s.frameQueue);
    RunBelow(s.frameQueue.queue, s.frameQueue.readPos, s.flow.highestReceived);
  }

  lemma {:induction false} RunBelow(q: Queue, pos: nat, limit: nat)
    requires QueueBelow(q, limit) && pos <= limit
    ensures pos + |Run(q, pos)| <= limit
    decreases limit - pos
  {
    if pos in q && q[pos].data != [] {
      RunBelow(q, EndOf(q, pos), limit);
    }
  }

  lemma PushBelow(q: Queue, q': Queue, frame: seq<Byte>, offset: nat, limit: nat, limit': nat)
    requires QueueBelow(q, limit) && limit <= limit' && offset + |frame| <= limit'
    requires Provenance(q, q', frame, offset)
    ensures QueueBelow(q', limit')
  {
    forall k | k in q'
      ensures EndOf(q', k) <= limit'
    {
      if k in q && q'[k] == q[k] {
        assert EndOf(q, k) == EndOf(q', k);
      } else {
        assert IsPart(q'[k].data, k, frame, offset);
      }
    }
  }

  lemma RunReachesGap(f: FrameSorter)
    requires f.Valid()
    ensures GapsOk(f.gaps) && f.readPos + |Run(f.queue, f.readPos)| == f.gaps[0].start < MAX_BYTE_COUNT
  {
    TilesSegment(f.queue, f.gaps, f.readPos, 0);
    assert f.gaps[0].start !in f.queue;
    RunLength(f.queue, f.readPos, f.gaps[0].start);
  }

  lemma FirstGapMoves(g: seq<Interval>, g': seq<Interval>, start: nat, end: nat)
    requires GapsOk(g) && GapsPunched(g, g', start, end)
    ensures g[0].start <= g'[0].start
  {
    var p := g'[0].start;
    assert InGap(g', p);
    assert InGap(g, p);
  }

  lemma QueueBelowAfterPop(q: Queue, k: nat, limit: nat)
    requires QueueBelow(q, limit)
    ensures QueueBelow(q - {k}, limit)
    ensures k in q ==> EndOf(q, k) <= limit
  {
  }

  lemma PopStartOf(f: FrameSorter)
    requires f.Valid()
    ensures |f.gaps| > 0 && f.readPos < MAX_BYTE_COUNT
    ensures f.readPos == f.gaps[0].start <==> Run(f.queue, f.readPos) == []
  {
    PopStart(f.queue, f.gaps, f.readPos);
    TilesSegment(f.queue, f.gaps, f.readPos, 0);
    if f.readPos in f.queue {
      f.EntryNonEmpty(f.readPos);
    }
  }
}
