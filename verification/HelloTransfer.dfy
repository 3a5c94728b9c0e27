/** A scrambled ClientHello arrives: its frames reach the crypto stream of the peer in any order and any number of times. */
module HelloTransfer {
  import opened Protocol
  import opened Fragments
  import opened Tiling
  import opened FrameSorting
  import opened Reassembly
  import opened Sni
  import opened CryptoStreams
  import opened HelloPasses
  import opened CryptoReceiving
  import opened ClientHello

  /** The delivery order: which frame arrives next. Every frame arrives at least once. */
  predicate Schedule(order: seq<nat>, n: nat) {
    && (forall i :: 0 <= i < |order| ==> order[i] < n)
    && (forall k: nat :: k < n ==> k in order)
  }

  function Pushes(frames: seq<CryptoFrame>, order: seq<nat>): (ops: seq<Op>)
    requires forall i :: 0 <= i < |order| ==> order[i] < |frames|
    ensures |ops| == |order| && forall i :: 0 <= i < |order| ==> ops[i] == PushOp(AsFragment(frames[order[i]]))
  {
    seq(|order|, i requires 0 <= i < |order| => PushOp(AsFragment(frames[order[i]])))
  }

  lemma {:induction false} PushedIn(ops: seq<Op>, f: Fragment)
    requires PushOp(f) in ops
    ensures f in Pushed(ops)
    decreases |ops|
  {
    var n := |ops| - 1;
    if ops[n] != PushOp(f) {
      PushedIn(ops[..n], f);
    }
  }

  lemma CarriedIsPushed(frames: seq<CryptoFrame>, order: seq<nat>, p: nat)
    requires Schedule(order, |frames|) && Sent(Carried(frames), p)
    ensures Sent(Pushed(Pushes(frames, order)), p)
  {
    var k :| 0 <= k < |frames| && Carries(Carried(frames)[k], p);
    assert k in order;
    var i :| 0 <= i < |order| && order[i] == k;
    assert Pushes(frames, order)[i] == PushOp(AsFragment(frames[k]));
    PushedIn(Pushes(frames, order), AsFragment(frames[k]));
  }

  /** The state of the peer after the fragments fs, when it has read delivered. */
  ghost predicate Receiving(c: CryptoReceiver, w: seq<Byte>, fs: seq<Fragment>, delivered: seq<Byte>)
    reads c, c.queue
  {
    && c.Valid() && !c.finished
    && Consistent(c.queue.queue, w) && GapsOf(fs, c.queue.gaps)
    && c.queue.readPos == |delivered| && delivered <= w
  }

  /** What becomes of a frame: the size limit of crypto streams and the gap limit decide. */
  ghost function FrameVerdict(fs: seq<Fragment>, x: Fragment): CryptoResult {
    if x.offset + x.len > MAX_CRYPTO_STREAM_OFFSET then CryptoBufferExceeded
    else if TooFragmented(fs, x) then SorterError
    else Accepted
  }

  /** A frame arrives. */
  method Accept(c: CryptoReceiver, w: seq<Byte>, ghost fs: seq<Fragment>, f: CryptoFrame, ghost delivered: seq<Byte>)
    returns (r: CryptoResult)
    requires Receiving(c, w, fs, delivered) && PartsOf(w, [f])
    modifies c`highestOffset, c.queue
    ensures r == FrameVerdict(fs, AsFragment(f))
    ensures r == SorterError ==> old(|c.queue.gaps|) == MAX_STREAM_FRAME_SORTER_GAPS
    ensures r == Accepted ==>
            Receiving(c, w, fs + [AsFragment(f)], delivered) && |c.queue.gaps| <= old(|c.queue.gaps|) + 1
  {
    hide c.Valid;
    hide Consistent, GapsOf, GapsPunched, TooFragmented, SplitsGap, Provenance, Received;
    ghost var q, g := c.queue.queue, c.queue.gaps;
    assert [f][0] == f;
    LimitReached(fs, g, AsFragment(f));
    r := c.HandleCryptoFrame(f.data, f.offset);
    if r == Accepted {
      PushConsistent(q, c.queue.queue, f.data, f.offset, w);
      PushedGaps(fs, AsFragment(f), g, c.queue.gaps);
    }
  }

  /** The peer reads until nothing comes. */
  method ReadAll(c: CryptoReceiver, w: seq<Byte>, ghost fs: seq<Fragment>, before: seq<Byte>) returns (delivered: seq<Byte>)
    requires Receiving(c, w, fs, before)
    modifies c.queue`queue, c.queue`readPos
    ensures Receiving(c, w, fs, delivered) && !Received(c.queue.gaps, |delivered|)
  {
    hide c.Valid;
    hide Consistent, GapsOf, Received, Run, Within;
    delivered := before;
    var more := true;
    while more
      invariant Receiving(c, w, fs, delivered)
      invariant !more ==> !Received(c.queue.gaps, |delivered|)
      decreases |w| - |delivered|, more
    {
      ghost var q := c.queue.queue;
      RunConsistent(q, w, |delivered|);
      var data := c.GetCryptoData();
      WithinConsistent(q, c.queue.queue, w);
      assert delivered + data == w[..|delivered| + |data|];
      delivered := delivered + data;
      more := data != [];
    }
  }

  /** Once all of w came, all of it was read. */
  lemma AllRead(c: CryptoReceiver, w: seq<Byte>, fs: seq<Fragment>, delivered: seq<Byte>)
    requires Receiving(c, w, fs, delivered) && !Received(c.queue.gaps, |delivered|)
    requires AllSent(fs, |w|) && |w| < MAX_BYTE_COUNT
    ensures delivered == w
  {
    var n: nat := |delivered|;
    assert n < |w| ==> Sent(fs, n);
  }

  /** The first n frames are accepted. */
  ghost predicate Fitting(ops: seq<Op>, n: nat)
    requires n <= |ops|
  {
    forall i :: 0 <= i < n && ops[i].PushOp? ==> FrameVerdict(Pushed(ops[..i]), ops[i].f) == Accepted
  }

  /** All frames are accepted if and only if the message is not too long and no frame meets the gap limit. */
  lemma FittingIsShort(w: seq<Byte>, frames: seq<CryptoFrame>, order: seq<nat>)
    requires PartsOf(w, frames) && AllSent(Carried(frames), |w|) && Schedule(order, |frames|)
    ensures Fitting(Pushes(frames, order), |order|) <==>
            |w| <= 16384 && WithinLimit(Pushes(frames, order))
  {
    hide Pushed, TooFragmented;
    var ops := Pushes(frames, order);
    if Fitting(ops, |order|) {
      forall k | 0 <= k < |frames|
        ensures !Carries(Carried(frames)[k], MAX_CRYPTO_STREAM_OFFSET)
      {
        assert k in order;
        var i :| 0 <= i < |order| && order[i] == k;
        assert ops[i] == PushOp(AsFragment(frames[k]));
      }
      assert !Sent(Carried(frames), MAX_CRYPTO_STREAM_OFFSET);
    }
  }

  /** Delivered in any order that leaves no frame out, w arrives, unless it is too long or a frame meets the gap limit. */
  ghost predicate Arrives(w: seq<Byte>, frames: seq<CryptoFrame>, order: seq<nat>, r: CryptoResult, received: seq<Byte>) {
    Schedule(order, |frames|) ==>
      && (r == Accepted <==> |w| <= 16384 && WithinLimit(Pushes(frames, order)))
      && (r == Accepted ==> received == w)
      && (|w| <= 16384 && |order| < MAX_STREAM_FRAME_SORTER_GAPS ==> r == Accepted)
  }

  /**
   * Frames that carry all of w, delivered to a crypto stream in any order that leaves none out, are put together to w.
   * They are all accepted if and only if w is not too long for a crypto stream and no frame meets the gap limit.
   */
  method Deliver(w: seq<Byte>, frames: seq<CryptoFrame>, order: seq<nat>) returns (r: CryptoResult, received: seq<Byte>)
    requires PartsOf(w, frames) && AllSent(Carried(frames), |w|) && Schedule(order, |frames|)
    ensures received <= w && Arrives(w, frames, order, r, received)
  {
    hide PartsOf, Sent, AllSent, Pushed, Received, Receiving, FrameVerdict, WithinLimit, Schedule, Fitting, AllBelow;
    var c := new CryptoReceiver();
    hide c.Valid, c.Tight;
    r, received := Accepted, [];
    var n := 0;
    InOrder(frames, order);
    ghost var ops := Pushes(frames, order);
    StartsReceiving(c, w);
    FittingIsShort(w, frames, order);
    NoneFits(ops);
    while n < |order|
      invariant fresh(c) && fresh(c.queue) && n <= |order| && r == Accepted && received <= w
      invariant Receiving(c, w, Pushed(ops[..n]), received) && |c.queue.gaps| <= n + 1
      invariant !Received(c.queue.gaps, |received|) && Fitting(ops, n)
    {
      PartOf(w, frames, order[n]);
      PushedNext(ops, n);
      r := Accept(c, w, Pushed(ops[..n]), frames[order[n]], received);
      NextFits(ops, n, w);
      if r != Accepted {
        return;
      }
      received := ReadAll(c, w, Pushed(ops[..n + 1]), received);
      ReceivedPrefix(c, w, Pushed(ops[..n + 1]), received);
      n := n + 1;
    }
    assert ops[..n] == ops;
    AllPushed(w, frames, order);
    AllRead(c, w, Pushed(ops), received);
  }

  lemma InOrder(frames: seq<CryptoFrame>, order: seq<nat>)
    requires Schedule(order, |frames|)
    ensures forall i :: 0 <= i < |order| ==> order[i] < |frames|
  {
  }

  lemma NoneFits(ops: seq<Op>)
    ensures Fitting(ops, 0)
  {
  }

  /** One more frame is accepted, or not all are; and then the gap limit is the reason, unless the message is too long. */
  lemma NextFits(ops: seq<Op>, n: nat, w: seq<Byte>)
    requires n < |ops| && ops[n].PushOp? && Fitting(ops, n) && ops[n].f.offset + ops[n].f.len <= |w|
    ensures var r := FrameVerdict(Pushed(ops[..n]), ops[n].f);
      && (r == Accepted ==> Fitting(ops, n + 1)) && (r != Accepted ==> !Fitting(ops, |ops|))
      && (|w| <= 16384 ==> r == Accepted || r == SorterError)
  {
    hide Pushed, TooFragmented;
  }

  lemma AllPushed(w: seq<Byte>, frames: seq<CryptoFrame>, order: seq<nat>)
    requires AllSent(Carried(frames), |w|) && Schedule(order, |frames|)
    ensures AllSent(Pushed(Pushes(frames, order)), |w|)
  {
    hide Sent;
    forall p: nat | p < |w|
      ensures Sent(Pushed(Pushes(frames, order)), p)
    {
      CarriedIsPushed(frames, order, p);
    }
  }

  lemma StartsReceiving(c: CryptoReceiver, w: seq<Byte>)
    requires c.Valid() && !c.finished && c.queue.readPos == 0 && c.queue.queue == map[]
    requires c.queue.gaps == [Interval(0, MAX_BYTE_COUNT)]
    ensures Receiving(c, w, Pushed([]), []) && !Received(c.queue.gaps, 0)
  {
    NoFragments();
  }

  lemma PartOf(w: seq<Byte>, frames: seq<CryptoFrame>, k: nat)
    requires PartsOf(w, frames) && k < |frames|
    ensures PartsOf(w, [frames[k]]) && frames[k].offset + |frames[k].data| <= |w|
  {
  }

  lemma PushedNext(ops: seq<Op>, n: nat)
    requires n < |ops| && ops[n].PushOp?
    ensures Pushed(ops[..n + 1]) == Pushed(ops[..n]) + [ops[n].f]
  {
    assert ops[..n + 1][..n] == ops[..n];
  }

  lemma ReceivedPrefix(c: CryptoReceiver, w: seq<Byte>, fs: seq<Fragment>, delivered: seq<Byte>)
    requires Receiving(c, w, fs, delivered)
    ensures delivered <= w
  {
  }

  /** The round trip: the peer gets the frames in any order, with any repetition, and reads what was written. */
  method ScrambledTransfer(hello: seq<Byte>, parts: seq<seq<Byte>>, ops: seq<SendOp>, last: int, order: seq<nat>)
    returns (frames: seq<CryptoFrame>, r: CryptoResult, received: seq<Byte>)
    requires hello == Concat(parts) && Sendable(Search(hello)) && 11 <= last
    ensures PartsOf(hello + Later(ops), frames) && AllSent(Carried(frames), |hello + Later(ops)|)
    ensures Arrives(hello + Later(ops), frames, order, r, received)
    ensures NameSplit(Search(hello), |hello|, frames) && EchSplit(Search(hello), frames)
  {
    hide Search, Schedule, WithinLimit;
    SendableIsWhole(hello);
    frames := SendHello(hello, parts, ops, last);
    r, received := SorterError, [];
    if Schedule(order, |frames|) {
      r, received := Deliver(hello + Later(ops), frames, order);
    }
  }

  lemma SendableIsWhole(hello: seq<Byte>)
    requires Sendable(Search(hello))
    ensures WholeClientHello(hello)
  {
    SearchSound(hello);
  }

  /** The message of a ClientHello h with the host name host, which is not empty. */
  ghost predicate HasHostName(hello: seq<Byte>, h: Hello, before: seq<Ext>, pre: seq<Name>, host: seq<Byte>, post: seq<Name>, behind: seq<Ext>) {
    && HelloOk(h) && hello == Message(h) && host != [] && |h.extensions| <= |hello|
    && ExtsAt(hello, |hello| - |h.extensions|, |hello|, before + [SniExt(pre + [Name(0, host)] + post)] + behind)
    && NoHostName(pre) && NoneOf(before + behind, true, false)
    && forall i, j :: 0 <= i < j < |before + behind| ==> !((before + behind)[i].EchExt? && (before + behind)[j].EchExt?)
  }

  /** The search finds the host name, and with ECH or without it the message can be sent. */
  lemma HostNameIsSendable(hello: seq<Byte>, h: Hello, before: seq<Ext>, pre: seq<Name>, host: seq<Byte>, post: seq<Name>, behind: seq<Ext>)
    requires HasHostName(hello, h, before, pre, host, post, behind)
    ensures var r := Search(hello);
      && Sendable(r) && r.sniLen == |host| && 0 <= r.sniPos && r.sniPos + |host| <= |hello|
      && hello[r.sniPos..r.sniPos + |host|] == host
      && (r.echPos != -1 <==> EchExt in before + behind)
  {
    hide Search, Message, ExtsAt, NoHostName;
    SearchOfMessage(h);
    ExtSearchFinds(hello, |hello| - |h.extensions|, |hello|, 0, -1, before, pre, host, post, behind);
  }

  /** A frame holds all of the host name. */
  ghost predicate Shows(f: CryptoFrame, pos: nat, host: seq<Byte>) {
    f.offset <= pos && pos + |host| <= f.offset + |f.data|
  }

  /** Every ClientHello with a host name arrives, with all that is written behind it. */
  method HostNameTransfer(hello: seq<Byte>, ghost h: Hello, ghost before: seq<Ext>, ghost pre: seq<Name>, ghost host: seq<Byte>,
                          ghost post: seq<Name>, ghost behind: seq<Ext>,
                          parts: seq<seq<Byte>>, ops: seq<SendOp>, last: int, order: seq<nat>)
    returns (frames: seq<CryptoFrame>, r: CryptoResult, received: seq<Byte>)
    requires hello == Concat(parts) && HasHostName(hello, h, before, pre, host, post, behind) && 11 <= last
    ensures PartsOf(hello + Later(ops), frames) && AllSent(Carried(frames), |hello + Later(ops)|)
    ensures Arrives(hello + Later(ops), frames, order, r, received)
    ensures Search(hello).Found? && 0 <= Search(hello).sniPos
    ensures 2 <= |host| && EchExt !in before + behind ==>
            forall i :: 0 <= i < |frames| ==> !Shows(frames[i], Search(hello).sniPos, host)
  {
    hide Search, Schedule, HasHostName, Arrives;
    HostNameIsSendable(hello, h, before, pre, host, post, behind);
    frames, r, received := ScrambledTransfer(hello, parts, ops, last, order);
    if 2 <= |host| && EchExt !in before + behind {
      forall i | 0 <= i < |frames|
        ensures !Shows(frames[i], Search(hello).sniPos, host)
      {
        assert !Both(frames[i], Search(hello).sniPos, Search(hello).sniPos + |host| - 1);
      }
    }
  }
}
