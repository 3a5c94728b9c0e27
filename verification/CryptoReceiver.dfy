/** The receiving half of a crypto stream (quicfork/crypto_stream.go). */
module CryptoReceiving {
  import opened Protocol
  import opened Tiling
  import opened FrameSorting

  const MAX_CRYPTO_STREAM_OFFSET: nat := 16 * 1024

  datatype CryptoResult = Accepted | CryptoBufferExceeded | ProtocolViolation | SorterError

  /** Byte p came in some frame. */
  ghost predicate Received(gaps: seq<Interval>, p: nat) {
    p < MAX_BYTE_COUNT && !InGap(gaps, p)
  }

  ghost predicate AllBelow(gaps: seq<Interval>, limit: nat) {
    forall p: nat :: Received(gaps, p) ==> p < limit
  }

  class CryptoReceiver {
    const queue: FrameSorter
    var highestOffset: nat
    var finished: bool

    ghost predicate Valid()
      reads this, queue
    {
      && queue.Valid() && highestOffset <= MAX_CRYPTO_STREAM_OFFSET
      && AllBelow(queue.gaps, highestOffset)
      && (finished ==> AllBelow(queue.gaps, queue.readPos))
    }

    /** The highest offset is the end of data that came, not only of an empty frame. */
    ghost predicate Tight()
      reads this, queue
    {
      highestOffset == 0 || Received(queue.gaps, highestOffset - 1)
    }

    constructor ()
      ensures Valid() && Tight() && fresh(queue) && !finished && highestOffset == 0
      ensures queue.queue == map[] && queue.readPos == 0 && queue.gaps == [Interval(0, MAX_BYTE_COUNT)] && AllBelow(queue.gaps, 0)
    {
      queue := new FrameSorter();
      highestOffset, finished := 0, false;
      new;
      forall p: nat | p < MAX_BYTE_COUNT
        ensures InGap(queue.gaps, p)
      {
        assert queue.gaps[0] == Interval(0, MAX_BYTE_COUNT);
      }
    }

    /** HandleCryptoFrame. Once the stream is finished, nothing new is accepted and the rest is ignored. */
    method HandleCryptoFrame(data: seq<Byte>, offset: nat) returns (r: CryptoResult)
      requires Valid()
      modifies this`highestOffset, queue
      ensures r == CryptoBufferExceeded <==> offset + |data| > MAX_CRYPTO_STREAM_OFFSET
      ensures r == ProtocolViolation <==>
              offset + |data| <= MAX_CRYPTO_STREAM_OFFSET && finished && offset + |data| > old(highestOffset)
      ensures r == SorterError <==>
              && r != CryptoBufferExceeded && !finished
              && old(|queue.gaps|) == MAX_STREAM_FRAME_SORTER_GAPS && SplitsGap(old(queue.gaps), offset, offset + |data|)
      ensures r != SorterError ==> Valid()
      ensures finished || r == CryptoBufferExceeded ==> highestOffset == old(highestOffset) && unchanged(queue)
      ensures r == Accepted && !finished ==>
                && highestOffset == Max(old(highestOffset), offset + |data|)
                && queue.readPos == old(queue.readPos)
                && Provenance(old(queue.queue), queue.queue, data, offset)
                && GapsPunched(old(queue.gaps), queue.gaps, offset, offset + |data|) && |queue.gaps| <= old(|queue.gaps|) + 1
                && forall p: nat :: Received(queue.gaps, p) <==> Received(old(queue.gaps), p) || offset <= p < offset + |data|
      ensures r == Accepted && old(Tight()) && (finished || data != []) ==> Tight()
    {
      hide queue.Valid;
      hide InGap, Provenance, SplitsGap;
      var end := offset + |data|;
      if end > MAX_CRYPTO_STREAM_OFFSET {
        return CryptoBufferExceeded;
      }
      if finished {
        return if end > highestOffset then ProtocolViolation else Accepted;
      }
      ghost var g := queue.gaps;
      highestOffset := Max(highestOffset, end);
      var pushed := queue.Push(data, offset, None);
      if pushed != Ok {
        return SorterError;
      }
      BelowAfterPush(g, queue.gaps, offset, end, old(highestOffset), highestOffset);
      return Accepted;
    }

    /** GetCryptoData: the next bytes. */
    method GetCryptoData() returns (data: seq<Byte>)
      requires Valid()
      modifies queue`queue, queue`readPos
      ensures Valid() && queue.readPos == old(queue.readPos) + |data| && Within(queue.queue, old(queue.queue))
      ensures data == [] <==> !Received(queue.gaps, old(queue.readPos))
      ensures old(Run(queue.queue, queue.readPos)) == data + Run(queue.queue, queue.readPos)
    {
      hide Run, InGap, GapsOk, Tiles;
      StartInGap(queue);
      var offset, cb;
      offset, data, cb := queue.Pop();
    }

    /** Finish: fails if there is received data that was not read. */
    method Finish() returns (ok: bool)
      requires Valid()
      modifies this`finished
      ensures Valid()
      ensures ok <==> AllBelow(queue.gaps, queue.readPos)
      ensures finished == (old(finished) || ok)
      ensures ok && Tight() ==> highestOffset <= queue.readPos
    {
      var more := queue.HasMoreData();
      forall p: nat
        ensures Covered(queue.queue, p) <==> queue.readPos <= p && Received(queue.gaps, p)
      {
        TilesCover(queue.queue, queue.gaps, queue.readPos, p);
      }
      ok := !more;
      if ok {
        finished := true;
      }
    }
  }

  lemma BelowAfterPush(g: seq<Interval>, g': seq<Interval>, start: nat, end: nat, limit: nat, limit': nat)
    requires GapsPunched(g, g', start, end) && AllBelow(g, limit) && limit <= limit' && end <= limit'
    ensures AllBelow(g', limit')
  {
    hide InGap;
    forall p: nat | Received(g', p)
      ensures p < limit'
    {
      assert Received(g, p) || start <= p < end;
    }
  }

  lemma StartInGap(f: FrameSorter)
    requires f.Valid()
    ensures |f.gaps| > 0 && f.gaps[0].start < MAX_BYTE_COUNT
    ensures InGap(f.gaps, f.readPos) <==> f.readPos == f.gaps[0].start
    ensures f.readPos < MAX_BYTE_COUNT
  {
    TilesSegment(f.queue, f.gaps, f.readPos, 0);
    ReadPosInGap(f.queue, f.gaps, f.readPos);
  }

  /**
   * A finished stream ignores frames up to its highest offset. All of that was read before, if and only if the
   * highest offset is the end of data that came.
   */
  lemma IgnoredWasRead(c: CryptoReceiver)
    requires c.Valid() && c.finished
    ensures c.Tight() <==> c.highestOffset <= c.queue.readPos
  {
    hide InGap;
    if 0 < c.highestOffset <= c.queue.readPos {
      BehindStart(c.queue, c.highestOffset - 1);
    }
  }

  lemma BehindStart(f: FrameSorter, p: nat)
    requires f.Valid() && p < f.readPos
    ensures Received(f.gaps, p)
  {
    TilesSegment(f.queue, f.gaps, f.readPos, 0);
    StartInGap(f);
    BetweenGaps(f.gaps, 0, p);
  }

  /** An empty frame in front of the data makes a finished stream drop data that was never read. */
  method EmptyFrameFirst(data: seq<Byte>) returns (finished: bool, r: CryptoResult, got: seq<Byte>)
    requires 0 < |data| <= MAX_CRYPTO_STREAM_OFFSET
    ensures finished && r == Accepted && got == []
  {
    var c := new CryptoReceiver();
    hide c.Valid, c.queue.Valid;
    hide Received, Provenance, Run;
    var first := c.HandleCryptoFrame([], |data|);
    finished := c.Finish();
    r := c.HandleCryptoFrame(data, 0);
    got := c.GetCryptoData();
  }
}
