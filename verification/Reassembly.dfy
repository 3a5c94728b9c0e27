/**
 * Whole runs of the frame sorter: any sequence of pushes of fragments of one byte stream, in any order,
 * with any overlap and repetition, mixed with pops.
 */
module Reassembly {
  import opened Protocol
  import opened Fragments
  import opened Tiling
  import opened FrameSorting

  /** One call: push a fragment of the stream, or pop. */
  datatype Op = PushOp(f: Fragment) | PopOp

  ghost predicate WithinStream(s: seq<Byte>, ops: seq<Op>) {
    forall i :: 0 <= i < |ops| ==> ops[i].PushOp? ==> ops[i].f.offset + ops[i].f.len <= |s|
  }

  /** The fragments that were pushed. */
  function Pushed(ops: seq<Op>): (fs: seq<Fragment>)
    ensures |fs| <= |ops|
  {
    if ops == [] then []
    else
      var before, last := Pushed(ops[..|ops| - 1]), ops[|ops| - 1];
      if last.PushOp? then before + [last.f] else before
  }

  /** The state of a run after pushes of fs: delivered is what was popped, handed are the callbacks that came with it. */
  ghost predicate Faithful(f: FrameSorter, s: seq<Byte>, fs: seq<Fragment>, delivered: seq<Byte>, handed: multiset<nat>)
    reads f
  {
    && f.Valid()
    && f.readPos == |delivered| && delivered <= s
    && Consistent(f.queue, s)
    && GapsOf(fs, f.gaps)
    && (forall c :: Given(fs, c) == handed[c] + Account(f.queue, f.released, c))
  }

  /** A push step never panics, and without a gap-limit error it keeps the run faithful. */
  method PushStep(f: FrameSorter, s: seq<Byte>, ghost fs: seq<Fragment>, x: Fragment,
                  ghost delivered: seq<Byte>, ghost handed: multiset<nat>)
    returns (r: PushResult)
    requires Faithful(f, s, fs, delivered, handed) && x.offset + x.len <= |s| < MAX_BYTE_COUNT
    modifies f
    ensures r == Ok || r == TooManyGaps
    ensures r == Ok ==> Faithful(f, s, fs + [x], delivered, handed) && |f.gaps| <= old(|f.gaps|) + 1
    ensures r == TooManyGaps <==> TooFragmented(fs, x)
    ensures r == TooManyGaps ==> old(|f.gaps|) == MAX_STREAM_FRAME_SORTER_GAPS
    ensures r == Ok && Disjoint(fs + [x]) && old(Whole(f.queue, fs)) ==> Whole(f.queue, fs + [x])
  {
    hide f.Valid;
    hide Given, Account, SplitsGap, Consistent, Covered, Provenance, GapsOf, TooFragmented, GapsPunched;
    hide Disjoint, Whole, AllInGaps, Dropped, Stores;
    ghost var q, g := f.queue, f.gaps;
    LimitReached(fs, g, x);
    var frame := s[x.offset..x.offset + x.len];
    r := f.Push(frame, x.offset, x.doneCb);
    if r == Ok {
      PushConsistent(q, f.queue, frame, x.offset, s);
      PushedGaps(fs, x, g, f.gaps);
      if Disjoint(fs + [x]) && Whole(q, fs) {
        DisjointInGaps(fs, x, g);
        NothingInEmpty(q, g, x.offset);
        WholePush(q, fs, x, f.queue, frame);
      }
      forall c
        ensures Given(fs + [x], c) == handed[c] + Account(f.queue, f.released, c)
      {
        GivenSnoc(fs, x, c);
      }
    }
  }

  /** A pop delivers the next bytes of the stream, or nothing if the next byte was not pushed yet. */
  method PopStep(f: FrameSorter, s: seq<Byte>, ghost fs: seq<Fragment>, ghost delivered: seq<Byte>, ghost handed: multiset<nat>)
    returns (data: seq<Byte>, cb: Option<nat>)
    requires Faithful(f, s, fs, delivered, handed)
    modifies f
    ensures Faithful(f, s, fs, delivered + data, Call(handed, cb))
    ensures data == [] <==> InGap(f.gaps, |delivered|)
    ensures data != [] ==> |f.queue| < old(|f.queue|)
    ensures f.gaps == old(f.gaps)
    ensures old(Whole(f.queue, fs)) ==> Whole(f.queue, fs) && (data != [] ==> Fragment(|delivered|, |data|, cb) in fs)
    ensures data == [] ==> cb == None
  {
    hide Sent, Given, Pending, InGap, Tiles, Segment;
    ghost var q := f.queue;
    var offset;
    offset, data, cb := f.Pop();
    if data != [] {
      assert EndOf(q, offset) <= |s|;
      assert delivered + data == s[..f.readPos];
      assert f.queue.Keys == q.Keys - {offset};
    }
    ReadPosInGap(q, f.gaps, offset);
  }

  /** No push of the run meets the gap limit. */
  ghost predicate WithinLimit(ops: seq<Op>) {
    forall n | 0 <= n < |ops| && ops[n].PushOp? :: !TooFragmented(Pushed(ops[..n]), ops[n].f)
  }

  /** What each call delivered: a pop delivers something if and only if the next byte was pushed. */
  ghost predicate RightPops(ops: seq<Op>, log: seq<seq<Byte>>) {
    && |log| <= |ops|
    && forall n :: 0 <= n < |log| ==>
         (log[n] == [] <==> ops[n].PushOp? || !Sent(Pushed(ops[..n]), |Concat(log[..n])|))
  }

  ghost predicate WholePop(fs: seq<Fragment>, pos: nat, data: seq<Byte>, cb: Option<nat>) {
    if data == [] then cb == None else Disjoint(fs) ==> Fragment(pos, |data|, cb) in fs
  }

  /** As long as the fragments are disjoint, a pop returns one of them with its callback. */
  ghost predicate WholePops(ops: seq<Op>, log: seq<seq<Byte>>, cbs: seq<Option<nat>>) {
    && |cbs| == |log| <= |ops|
    && forall n :: 0 <= n < |log| ==> WholePop(Pushed(ops[..n]), |Concat(log[..n])|, log[n], cbs[n])
  }

  lemma WholePopsSnoc(ops: seq<Op>, log: seq<seq<Byte>>, cbs: seq<Option<nat>>, data: seq<Byte>, cb: Option<nat>)
    requires WholePops(ops, log, cbs) && |log| < |ops|
    requires WholePop(Pushed(ops[..|log|]), |Concat(log)|, data, cb)
    ensures WholePops(ops, log + [data], cbs + [cb])
  {
    hide WholePop, Pushed, Concat;
    var log', cbs' := log + [data], cbs + [cb];
    forall n | 0 <= n < |log'|
      ensures WholePop(Pushed(ops[..n]), |Concat(log'[..n])|, log'[n], cbs'[n])
    {
      assert log'[..n] == log[..n];
      if n == |log| {
        assert log[..n] == log;
      }
    }
  }

  lemma RightPopsSnoc(ops: seq<Op>, log: seq<seq<Byte>>, data: seq<Byte>)
    requires RightPops(ops, log) && |log| < |ops|
    requires data == [] <==> ops[|log|].PushOp? || !Sent(Pushed(ops[..|log|]), |Concat(log)|)
    ensures RightPops(ops, log + [data]) && Concat(log + [data]) == Concat(log) + data
  {
    hide Sent, Pushed;
    var log' := log + [data];
    assert log'[..|log|] == log;
    forall n | 0 <= n < |log'|
      ensures log'[n] == [] <==> ops[n].PushOp? || !Sent(Pushed(ops[..n]), |Concat(log'[..n])|)
    {
      assert log'[..n] == log[..n];
      if n == |log| {
        assert log[..n] == log;
      }
    }
  }

  /** One call of a run. It fails if and only if it is a push that meets the gap limit. */
  method Step(f: FrameSorter, s: seq<Byte>, ghost before: seq<Op>, op: Op, ghost delivered: seq<Byte>, handed: multiset<nat>)
    returns (ok: bool, data: seq<Byte>, cb: Option<nat>, handed': multiset<nat>)
    requires Faithful(f, s, Pushed(before), delivered, handed) && WithinStream(s, [op]) && |s| < MAX_BYTE_COUNT
    requires Disjoint(Pushed(before)) ==> Whole(f.queue, Pushed(before))
    modifies f
    ensures ok <==> !(op.PushOp? && TooFragmented(Pushed(before), op.f))
    ensures !ok ==> old(|f.gaps|) == MAX_STREAM_FRAME_SORTER_GAPS
    ensures ok ==> Faithful(f, s, Pushed(before + [op]), delivered + data, handed') && delivered + data <= s
    ensures ok ==> |f.gaps| <= old(|f.gaps|) + 1
    ensures ok ==> (data == [] <==> op.PushOp? || !Sent(Pushed(before), |delivered|))
    ensures ok ==> (Disjoint(Pushed(before + [op])) ==> Whole(f.queue, Pushed(before + [op])))
    ensures WholePop(Pushed(before), |delivered|, data, cb)
  {
    hide f.Valid;
    hide Given, Account, Faithful, Sent, TooFragmented, Disjoint, Whole;
    assert (before + [op])[..|before|] == before;
    ghost var fs := Pushed(before);
    ok, data, cb, handed' := true, [], None, handed;
    if op.PushOp? {
      assert op == [op][0];
      DisjointBefore(fs, op.f);
      var r := PushStep(f, s, fs, op.f, delivered, handed);
      ok := r == Ok;
      assert delivered + [] == delivered;
      if ok {
        DeliveredIsPrefix(f, s, fs + [op.f], delivered, handed);
      }
    } else {
      data, cb := PopStep(f, s, fs, delivered, handed);
      handed' := Call(handed, cb);
      MissingInGap(f, s, fs, delivered, data, handed');
      DeliveredIsPrefix(f, s, fs, delivered + data, handed');
    }
  }

  /** Any run of calls on a fresh sorter. It ends early, at the call behind log, if and only if that meets the gap limit. */
  method RunOps(s: seq<Byte>, ops: seq<Op>)
    returns (f: FrameSorter, ok: bool, log: seq<seq<Byte>>, cbs: seq<Option<nat>>, handed: multiset<nat>)
    requires |s| < MAX_BYTE_COUNT && WithinStream(s, ops)
    ensures fresh(f)
    ensures RightPops(ops, log) && Concat(log) <= s && WholePops(ops, log, cbs)
    ensures ok ==> |log| == |ops| && Faithful(f, s, Pushed(ops), Concat(log), handed)
    ensures !ok ==> |log| < |ops| && ops[|log|].PushOp? && TooFragmented(Pushed(ops[..|log|]), ops[|log|].f)
    ensures ok <==> WithinLimit(ops)
    ensures |ops| < MAX_STREAM_FRAME_SORTER_GAPS ==> ok
  {
    hide f.Valid;
    hide Faithful, Sent, TooFragmented, Concat, Pushed, Disjoint, Whole, WholePop;
    f := new FrameSorter();
    ok, log, cbs, handed := true, [], [], multiset{};
    Nothing();
    StartsFaithful(f, s);
    NothingWhole(f.queue, Pushed(ops[..0]));
    while |log| < |ops|
      invariant fresh(f) && ok && RightPops(ops, log) && WholePops(ops, log, cbs)
      invariant Disjoint(Pushed(ops[..|log|])) ==> Whole(f.queue, Pushed(ops[..|log|]))
      invariant Concat(log) <= s && |f.gaps| <= |log| + 1
      invariant Faithful(f, s, Pushed(ops[..|log|]), Concat(log), handed)
      invariant forall n | 0 <= n < |log| && ops[n].PushOp? :: !TooFragmented(Pushed(ops[..n]), ops[n].f)
    {
      hide RightPops, WholePops;
      var n := |log|;
      assert ops[..n + 1] == ops[..n] + [ops[n]];
      var data, cb;
      ok, data, cb, handed := Step(f, s, ops[..n], ops[n], Concat(log), handed);
      if !ok {
        return;
      }
      RightPopsSnoc(ops, log, data);
      WholePopsSnoc(ops, log, cbs, data, cb);
      log, cbs := log + [data], cbs + [cb];
    }
    assert ops[..|log|] == ops;
  }

  lemma NothingWhole(q: Queue, fs: seq<Fragment>)
    requires q == map[]
    ensures Whole(q, fs)
  {
  }

  lemma Nothing()
    ensures Concat([]) == [] && Pushed([]) == []
  {
  }

  lemma MissingInGap(f: FrameSorter, s: seq<Byte>, fs: seq<Fragment>, before: seq<Byte>, data: seq<Byte>, handed: multiset<nat>)
    requires Faithful(f, s, fs, before + data, handed)
    ensures InGap(f.gaps, |before|) <==> !Sent(fs, |before|)
  {
    DeliveredIsPrefix(f, s, fs, before + data, handed);
  }

  lemma DeliveredIsPrefix(f: FrameSorter, s: seq<Byte>, fs: seq<Fragment>, delivered: seq<Byte>, handed: multiset<nat>)
    requires Faithful(f, s, fs, delivered, handed)
    ensures delivered <= s && |delivered| < MAX_BYTE_COUNT
  {
    TilesSegment(f.queue, f.gaps, f.readPos, 0);
  }

  lemma StartsFaithful(f: FrameSorter, s: seq<Byte>)
    requires f.Valid() && f.queue == map[] && f.readPos == 0 && f.released == multiset{}
    requires f.gaps == [Interval(0, MAX_BYTE_COUNT)]
    ensures Faithful(f, s, [], [], multiset{})
  {
    forall c
      ensures Account(f.queue, f.released, c) == 0
    {
      assert Holders(f.queue, c) == {};
    }
    NoFragments();
  }

  /** Pops until nothing is delivered any more. */
  method Drain(f: FrameSorter, s: seq<Byte>, ghost fs: seq<Fragment>, before: seq<Byte>, handedBefore: multiset<nat>)
    returns (delivered: seq<Byte>, handed: multiset<nat>)
    requires Faithful(f, s, fs, before, handedBefore)
    modifies f
    ensures Faithful(f, s, fs, delivered, handed)
    ensures InGap(f.gaps, |delivered|)
  {
    hide Faithful, InGap;
    delivered, handed := before, handedBefore;
    var more := true;
    while more
      invariant Faithful(f, s, fs, delivered, handed)
      invariant !more ==> InGap(f.gaps, |delivered|)
      decreases more, |f.queue|
    {
      var data, cb := PopStep(f, s, fs, delivered, handed);
      delivered, handed := delivered + data, Call(handed, cb);
      more := data != [];
    }
  }

  /**
   * The sorter refines an ordered byte stream: after any run of pushes and pops and a final drain, exactly
   * the bytes in front of the first byte that was never pushed have been delivered, once and in order. It fails if
   * and only if a push meets the gap limit.
   */
  method Reassemble(s: seq<Byte>, ops: seq<Op>) returns (ok: bool, delivered: seq<Byte>)
    requires |s| < MAX_BYTE_COUNT && WithinStream(s, ops)
    ensures delivered <= s
    ensures ok <==> WithinLimit(ops)
    ensures ok ==> FirstMissing(Pushed(ops), |delivered|)
    ensures |ops| < MAX_STREAM_FRAME_SORTER_GAPS ==> ok
    ensures ok && AllSent(Pushed(ops), |s|) ==> delivered == s
  {
    hide WithinLimit, RightPops, WholePops;
    var f, log, cbs, handed;
    f, ok, log, cbs, handed := RunOps(s, ops);
    delivered := Concat(log);
    if ok {
      delivered, handed := Drain(f, s, Pushed(ops), delivered, handed);
      BeforeReadPos(f, s, Pushed(ops), delivered, handed);
    }
  }

  /** Pushes that never begin behind the first missing byte, such as those of an ordered transfer, meet no limit. */
  lemma OrderedIsWithinLimit(ops: seq<Op>, end: nat -> nat)
    requires forall n | 0 <= n < |ops| && ops[n].PushOp? :: FirstMissing(Pushed(ops[..n]), end(n)) && ops[n].f.offset <= end(n)
    ensures WithinLimit(ops)
  {
    hide TooFragmented, FirstMissing;
    forall n | 0 <= n < |ops| && ops[n].PushOp?
      ensures !TooFragmented(Pushed(ops[..n]), ops[n].f)
    {
      NextFragmentFits(Pushed(ops[..n]), ops[n].f, end(n));
    }
  }

  lemma BeforeReadPos(f: FrameSorter, s: seq<Byte>, fs: seq<Fragment>, delivered: seq<Byte>, handed: multiset<nat>)
    requires Faithful(f, s, fs, delivered, handed) && InGap(f.gaps, |delivered|)
    ensures delivered <= s
    ensures FirstMissing(fs, |delivered|)
  {
    hide Sent;
    DeliveredIsPrefix(f, s, fs, delivered, handed);
    ReadPosInGap(f.queue, f.gaps, f.readPos);
    forall p | 0 <= p < |delivered|
      ensures Sent(fs, p)
    {
      BetweenGaps(f.gaps, 0, p);
    }
  }
}
