/**
 * Whole runs of a receiving stream: frames cut from one byte stream arrive in any order, with any overlap and
 * repetition, and the application reads and peeks in between.
 */
module StreamTransfer {
  import opened Protocol
  import opened Fragments
  import opened Tiling
  import opened FrameSorting
  import opened ReceiveStreams

  /** A fragment of s arrives in a frame, or the application calls Read or Peek with a buffer of len bytes. */
  datatype Op = FrameOp(f: Fragment, fin: bool, allowed: bool) | ReadOp(len: nat) | PeekOp(len: nat)

  /** Frames lie within the stream, and only the end of the stream is marked as its end. */
  ghost predicate Honest(s: seq<Byte>, op: Op) {
    op.FrameOp? ==> op.f.offset + op.f.len <= |s| && (op.fin ==> op.f.offset + op.f.len == |s|)
  }

  /** The fragments that arrived. */
  function Frames(ops: seq<Op>): seq<Fragment> {
    if ops == [] then []
    else
      var before, last := Frames(ops[..|ops| - 1]), ops[|ops| - 1];
      if last.FrameOp? then before + [last.f] else before
  }

  /** The end mark arrived. */
  ghost predicate Ended(ops: seq<Op>) {
    ops != [] && (Ended(ops[..|ops| - 1]) || (ops[|ops| - 1].FrameOp? && ops[|ops| - 1].fin))
  }

  /** What can be read is the part of s that comes next. */
  ghost predicate Next(s: seq<Byte>, readPos: nat, readable: seq<Byte>) {
    readPos + |readable| <= |s| && readable == s[readPos..readPos + |readable|]
  }

  /** The end of the furthest fragment. */
  function Highest(fs: seq<Fragment>): nat {
    if fs == [] then 0 else Max(Highest(fs[..|fs| - 1]), fs[|fs| - 1].offset + fs[|fs| - 1].len)
  }

  ghost predicate FlowOk(flow: Flow, finalOffset: nat, s: seq<Byte>, fs: seq<Fragment>, ended: bool) {
    && flow.highestReceived == Highest(fs) <= |s|
    && flow.receivedFinalOffset == ended
    && finalOffset == (if ended then |s| else MAX_BYTE_COUNT)
  }

  /** As long as the fragments are disjoint, the queue and the stream hold them as they came, with their callbacks. */
  ghost predicate Held(q: Queue, c: Current, pos: nat, fs: seq<Fragment>) {
    Disjoint(fs) ==>
      && Whole(q, fs)
      && (c.frame.Some? ==> |c.frame.value| <= pos && Fragment(pos - |c.frame.value|, |c.frame.value|, c.doneCb) in fs)
  }

  lemma HeldAfterFrame(q: Queue, c: Current, pos: nat, fs: seq<Fragment>, x: Fragment, q': Queue, frame: seq<Byte>, g: seq<Interval>)
    requires Held(q, c, pos, fs) && |frame| == x.len && x.offset + x.len < MAX_BYTE_COUNT && GapsOf(fs, g)
    requires AllInGaps(g, x.offset, x.offset + x.len) ==>
             q' == if frame == [] then q else q[x.offset := Entry(frame, x.doneCb)]
    ensures Held(q', c, pos, fs + [x])
  {
    hide Whole, Disjoint, AllInGaps, GapsOf;
    if Disjoint(fs + [x]) {
      DisjointInGaps(fs, x, g);
      WholePush(q, fs, x, q', frame);
    }
  }

  lemma HeldAfterRead(q: Queue, c: Current, pos: nat, fs: seq<Fragment>, q': Queue, c': Current, pos': nat)
    requires Held(q, c, pos, fs) && Within(q', q) && CurrentFrom(c', pos', c, pos, q)
    ensures Held(q', c', pos', fs)
  {
    hide Disjoint;
  }

  /** The state of a run after the fragments fs, when the application has read the first bytes of s. */
  ghost predicate InStep(r: ReceiveStream, s: seq<Byte>, fs: seq<Fragment>, ended: bool)
    reads r, r.frameQueue
  {
    && r.Valid()
    && Consistent(r.frameQueue.queue, s)
    && Next(s, r.readPos, r.Readable())
    && FlowOk(r.flow, r.finalOffset, s, fs, ended)
    && (forall c :: r.Callbacks(c) == Given(fs, c))
    && GapsOf(fs, r.frameQueue.gaps)
    && Held(r.frameQueue.queue, r.cur, r.frameQueue.readPos, fs)
  }

  /** Frames of the stream leave what can be read a part of the stream. */
  lemma NextAfterFrame(c: Current, q: Queue, q': Queue, readPos: nat, sorterPos: nat, finalOffset: nat, s: seq<Byte>)
    requires CurrentOk(c, readPos, sorterPos, finalOffset) && Consistent(q', s)
    requires Next(s, readPos, Rest(c) + Run(q, sorterPos))
    ensures Next(s, readPos, Rest(c) + Run(q', sorterPos))
  {
    hide Consistent, Run;
    var rest := Rest(c);
    assert rest == (rest + Run(q, sorterPos))[..|rest|];
    assert sorterPos == readPos + |rest| <= |s|;
    RunConsistent(q', s, sorterPos);
  }

  lemma ReadKeepsNext(q: Queue, q': Queue, s: seq<Byte>, readPos: nat, readable: seq<Byte>, n: nat)
    requires Consistent(q, s) && Within(q', q)
    requires Next(s, readPos, readable) && n <= |readable|
    ensures Consistent(q', s) && Next(s, readPos + n, readable[n..])
    ensures readable[..n] == s[readPos..readPos + n]
  {
    WithinConsistent(q, q', s);
  }

  /** What becomes of a frame of the stream: the windows and the gap limit decide. */
  ghost function Verdict(fs: seq<Fragment>, f: Fragment, allowed: bool): HandleResult {
    if !allowed && f.offset + f.len > Highest(fs) then FlowControlError
    else if TooFragmented(fs, f) then SorterError
    else Handled
  }

  /** A frame of the stream is never an error of its sender and never panics, and keeps the run in step. */
  method FrameStep(r: ReceiveStream, s: seq<Byte>, ghost fs: seq<Fragment>, ghost ended: bool, op: Op) returns (result: HandleResult)
    requires InStep(r, s, fs, ended) && op.FrameOp? && Honest(s, op) && |s| < MAX_BYTE_COUNT
    modifies r`flow, r`finalOffset, r.frameQueue
    ensures result == Verdict(fs, op.f, op.allowed)
    ensures result == SorterError ==> old(|r.frameQueue.gaps|) == MAX_STREAM_FRAME_SORTER_GAPS
    ensures result == Handled ==>
            InStep(r, s, fs + [op.f], ended || op.fin) && |r.frameQueue.gaps| <= old(|r.frameQueue.gaps|) + 1
    ensures result == Handled ==> r.frameQueue.readPos == old(r.frameQueue.readPos)
  {
    hide r.frameQueue.Valid;
    hide Held, AllInGaps, Given, Consistent, Account, QueueBelow, Run, Provenance, GapsOf, GapsPunched, TooFragmented, SplitsGap;
    ghost var q, g := r.frameQueue.queue, r.frameQueue.gaps;
    LimitReached(fs, g, op.f);
    var offset := op.f.offset;
    var data := s[offset..offset + op.f.len];
    result := r.HandleStreamFrame(StreamFrame(offset, data, op.fin, op.f.doneCb), op.allowed);
    if result == Handled {
      PushConsistent(q, r.frameQueue.queue, data, offset, s);
      NextAfterFrame(r.cur, q, r.frameQueue.queue, r.readPos, r.frameQueue.readPos, r.finalOffset, s);
      PushedGaps(fs, op.f, g, r.frameQueue.gaps);
      HeldAfterFrame(q, r.cur, r.frameQueue.readPos, fs, op.f, r.frameQueue.queue, data, g);
      assert (fs + [op.f])[..|fs|] == fs;
      forall c
        ensures r.Callbacks(c) == Given(fs + [op.f], c)
      {
        GivenSnoc(fs, op.f, c);
      }
    }
  }

  /** What was read and what can be read reaches exactly to the first byte that never came. */
  lemma ReachesFirstMissing(r: ReceiveStream, s: seq<Byte>, fs: seq<Fragment>, ended: bool)
    requires InStep(r, s, fs, ended) && |s| < MAX_BYTE_COUNT
    ensures var end := r.readPos + |r.Readable()|; end <= |s| && FirstMissing(fs, end)
  {
    hide r.frameQueue.Valid;
    hide Sent, Given, Consistent, Account, QueueBelow, Run;
    RunReachesGap(r.frameQueue);
    var g := r.frameQueue.gaps;
    assert InGap(g, g[0].start);
    forall p: nat | p < g[0].start
      ensures Sent(fs, p)
    {
      BetweenGaps(g, 0, p);
    }
  }

  // ---------------------------------------------------------------------------
  // What the application sees
  // ---------------------------------------------------------------------------

  /** What a call returns. */
  datatype Answer = NoAnswer | ReadAnswer(data: seq<Byte>, status: Status) | PeekAnswer(data: seq<Byte>, status: Status)

  /** The right answer of Read at position pos, when all bytes in front of end came but not end itself. */
  ghost predicate ReadTruth(s: seq<Byte>, end: nat, ended: bool, len: nat, pos: nat, data: seq<Byte>, status: Status) {
    && pos <= end <= |s|
    && |data| == Min(len, end - pos) && data == s[pos..pos + |data|]
    && (status == Eof ==> pos + |data| == |s|)
    && (len > 0 && pos == end ==> status == if ended && end == |s| then Eof else Blocked)
    && (len == 0 || pos < end ==> status != Blocked)
  }

  /** The right answer of Peek. */
  ghost predicate PeekTruth(s: seq<Byte>, end: nat, ended: bool, len: nat, pos: nat, data: seq<Byte>, status: Status) {
    && pos <= end <= |s|
    && status == (if len <= end - pos then Done else if ended && end == |s| then Eof else Blocked)
    && data == match status
               case Done => s[pos..pos + len]
               case Eof => s[pos..]
               case Blocked => []
  }

  /** No call was made when the last byte had come but not the end mark. */
  ghost predicate EndInTime(s: seq<Byte>, ops: seq<Op>) {
    forall k | 0 <= k < |ops| && !ops[k].FrameOp? :: 0 < |s| && Sent(Frames(ops[..k]), |s| - 1) ==> Ended(ops[..k])
  }

  /** The answer to op that is right for what came before. */
  ghost predicate Truth(s: seq<Byte>, before: seq<Op>, op: Op, pos: nat, a: Answer) {
    match op
    case FrameOp(_, _, _) => a == NoAnswer
    case ReadOp(len) =>
      && a.ReadAnswer?
      && (exists end :: FirstMissing(Frames(before), end) && ReadTruth(s, end, Ended(before), len, pos, a.data, a.status))
      && (a.data != [] && pos + |a.data| == |s| && Ended(before) && EndInTime(s, before) ==> a.status == Eof)
    case PeekOp(len) =>
      && a.PeekAnswer?
      && exists end :: FirstMissing(Frames(before), end) && PeekTruth(s, end, Ended(before), len, pos, a.data, a.status)
  }

  /** Everything that Read returned. */
  function ReadBytes(log: seq<Answer>): seq<Byte> {
    if log == [] then []
    else
      var before, last := ReadBytes(log[..|log| - 1]), log[|log| - 1];
      if last.ReadAnswer? then before + last.data else before
  }

  /** Every answer is the right one. */
  ghost predicate Truthful(s: seq<Byte>, ops: seq<Op>, log: seq<Answer>) {
    && |log| <= |ops|
    && forall i :: 0 <= i < |log| ==> Truth(s, ops[..i], ops[i], |ReadBytes(log[..i])|, log[i])
  }

  lemma TruthfulSnoc(s: seq<Byte>, ops: seq<Op>, log: seq<Answer>, a: Answer)
    requires Truthful(s, ops, log) && |log| < |ops| && Truth(s, ops[..|log|], ops[|log|], |ReadBytes(log)|, a)
    ensures Truthful(s, ops, log + [a])
  {
    hide Truth, ReadBytes;
    var log' := log + [a];
    forall i | 0 <= i < |log'|
      ensures Truth(s, ops[..i], ops[i], |ReadBytes(log'[..i])|, log'[i])
    {
      assert log'[..i] == log[..i];
      if i == |log| {
        assert log[..i] == log;
      }
    }
  }

  /** What Read returned, put together, is the beginning of the stream, and all of it at Eof. */
  lemma {:induction false} ReadsArePrefix(s: seq<Byte>, ops: seq<Op>, log: seq<Answer>)
    requires Truthful(s, ops, log)
    ensures ReadBytes(log) <= s
    ensures log != [] && log[|log| - 1].ReadAnswer? && log[|log| - 1].status == Eof ==> ReadBytes(log) == s
    decreases |log|
  {
    hide FirstMissing;
    if log != [] {
      var n := |log| - 1;
      TruthfulBefore(s, ops, log);
      ReadsArePrefix(s, ops, log[..n]);
      assert Truth(s, ops[..n], ops[n], |ReadBytes(log[..n])|, log[n]);
      if log[n].ReadAnswer? {
        NextPrefix(s, ReadBytes(log[..n]), log[n].data);
      }
    }
  }

  lemma TruthfulBefore(s: seq<Byte>, ops: seq<Op>, log: seq<Answer>)
    requires Truthful(s, ops, log) && log != []
    ensures Truthful(s, ops, log[..|log| - 1])
  {
    hide Truth, ReadBytes;
    var before := log[..|log| - 1];
    assert forall i :: 0 <= i < |before| ==> before[..i] == log[..i];
  }

  lemma NextPrefix(s: seq<Byte>, read: seq<Byte>, data: seq<Byte>)
    requires read <= s && |read| + |data| <= |s| && data == s[|read|..|read| + |data|]
    ensures read + data <= s
  {
  }

  /** The last byte was not taken out of the queue without knowing that it is the last one. */
  ghost predicate EndSeen(r: ReceiveStream, s: seq<Byte>)
    reads r, r.frameQueue
  {
    0 < |s| <= r.frameQueue.readPos ==> r.cur.isLast
  }

  lemma NextReaches(s: seq<Byte>, pos: nat, readable: seq<Byte>)
    requires Next(s, pos, readable)
    ensures pos + |readable| <= |s|
  {
  }

  lemma InSight(r: ReceiveStream, s: seq<Byte>)
    requires r.Valid()
    ensures EndSeen(r, s) && r.readPos + |r.Readable()| == |s| && r.Readable() != [] ==> r.EndInSight()
  {
    hide r.Valid, r.Readable;
    RestComesFirst(r);
  }

  /** The contract of Read makes its answer the right one. */
  lemma ReadIsTrue(s: seq<Byte>, pos: nat, readable: seq<Byte>, ended: bool, len: nat, n: nat, status: Status, end: nat)
    requires Next(s, pos, readable) && n == Min(len, |readable|) && end == (if ended then |s| else MAX_BYTE_COUNT)
    requires |s| < MAX_BYTE_COUNT && (status == Eof ==> pos + n == end)
    requires status == Blocked <==> len > 0 && readable == [] && pos != end
    requires len > 0 && readable == [] && pos == end ==> status == Eof
    ensures ReadTruth(s, pos + |readable|, ended, len, pos, readable[..n], status)
  {
  }

  /** A read delivers the next bytes of s; Eof means that all of s was read. */
  method ReadOnce(r: ReceiveStream, s: seq<Byte>, ghost fs: seq<Fragment>, ghost ended: bool, len: nat)
    returns (data: seq<Byte>, status: Status)
    requires InStep(r, s, fs, ended) && |s| < MAX_BYTE_COUNT
    modifies r`cur, r`readPos, r`released, r.frameQueue`queue, r.frameQueue`readPos
    ensures InStep(r, s, fs, ended) && r.readPos == old(r.readPos) + |data|
    ensures |r.Readable()| == old(|r.Readable()|) - |data|
    ensures ReadTruth(s, old(r.readPos + |r.Readable()|), ended, len, old(r.readPos), data, status)
    ensures status == Eof ==> r.cur.isLast && r.cur.frame.None?
    ensures old(EndSeen(r, s)) && ended && data != [] && r.readPos == |s| ==> status == Eof
    ensures old(EndSeen(r, s)) && (ended || r.frameQueue.readPos < |s|) ==> EndSeen(r, s)
  {
    hide r.frameQueue.Valid, r.Valid, r.Readable, r.Callbacks;
    hide Sent, Given, InGap, Consistent, Within, Held, CurrentFrom, ReadTruth, Next, GapsOf, r.EndInSight;
    NothingBehindEnd(r);
    InSight(r, s);
    var p := new Byte[len];
    ghost var c, pos := r.cur, r.frameQueue.readPos;
    ghost var q, readPos, readable := r.frameQueue.queue, r.readPos, r.Readable();
    var n;
    n, status := r.Read(p);
    ReadKeepsNext(q, r.frameQueue.queue, s, readPos, readable, n);
    HeldAfterRead(q, c, pos, fs, r.frameQueue.queue, r.cur, r.frameQueue.readPos);
    NextReaches(s, readPos, readable);
    ReadIsTrue(s, readPos, readable, ended, len, n, status, r.finalOffset);
    data := p[..n];
  }

  /** A peek shows the next bytes of s without reading them; Eof means that they are the last ones. */
  method PeekOnce(r: ReceiveStream, s: seq<Byte>, ghost fs: seq<Fragment>, ghost ended: bool, len: nat)
    returns (data: seq<Byte>, status: Status)
    requires InStep(r, s, fs, ended) && |s| < MAX_BYTE_COUNT
    modifies r`cur, r`released, r.frameQueue`queue, r.frameQueue`readPos
    ensures InStep(r, s, fs, ended)
    ensures PeekTruth(s, r.readPos + old(|r.Readable()|), ended, len, r.readPos, data, status)
    ensures old(EndSeen(r, s)) && (ended || r.frameQueue.readPos < |s|) ==> EndSeen(r, s)
  {
    hide r.frameQueue.Valid, r.Valid, r.Readable, r.Callbacks;
    hide Sent, Given, InGap, Consistent, Within, Held, CurrentFrom;
    var b := new Byte[len];
    ghost var c, pos := r.cur, r.frameQueue.readPos;
    ghost var q, readable := r.frameQueue.queue, r.Readable();
    var n;
    n, status := r.Peek(b);
    ReadKeepsNext(q, r.frameQueue.queue, s, r.readPos, readable, n);
    ReadKeepsNext(q, r.frameQueue.queue, s, r.readPos, readable, 0);
    HeldAfterRead(q, c, pos, fs, r.frameQueue.queue, r.cur, r.frameQueue.readPos);
    data := b[..n];
  }

  lemma StartsInStep(r: ReceiveStream, s: seq<Byte>)
    requires r.Valid() && r.readPos == 0 && r.finalOffset == MAX_BYTE_COUNT && r.Readable() == []
    requires r.flow == Flow(0, false) && r.frameQueue.queue == map[]
    requires r.frameQueue.gaps == [Interval(0, MAX_BYTE_COUNT)] && forall c :: r.Callbacks(c) == 0
    ensures InStep(r, s, [], false)
  {
    hide r.frameQueue.Valid;
    NoFragments();
  }

  ghost predicate AllHonest(s: seq<Byte>, ops: seq<Op>) {
    forall i :: 0 <= i < |ops| ==> Honest(s, ops[i])
  }

  ghost predicate AllAllowed(ops: seq<Op>) {
    forall i :: 0 <= i < |ops| && ops[i].FrameOp? ==> ops[i].allowed
  }

  /** What becomes of call n. */
  ghost function VerdictOf(ops: seq<Op>, n: nat): HandleResult
    requires n < |ops|
  {
    if ops[n].FrameOp? then Verdict(Frames(ops[..n]), ops[n].f, ops[n].allowed) else Handled
  }

  /** The first n calls are handled: every frame lies within the windows and the gap limit. */
  ghost predicate AcceptedUpTo(ops: seq<Op>, n: nat)
    requires n <= |ops|
  {
    forall k :: 0 <= k < n ==> VerdictOf(ops, k) == Handled
  }

  ghost predicate AllAccepted(ops: seq<Op>) {
    AcceptedUpTo(ops, |ops|)
  }

  lemma NextVerdict(ops: seq<Op>, n: nat)
    requires n < |ops| && AcceptedUpTo(ops, n)
    ensures VerdictOf(ops, n) == Handled ==> AcceptedUpTo(ops, n + 1)
    ensures VerdictOf(ops, n) != Handled ==> !AllAccepted(ops)
    ensures VerdictOf(ops, n) != Handled && AllAllowed(ops) ==> VerdictOf(ops, n) == SorterError
  {
    hide TooFragmented, Frames;
  }

  lemma EndInTimeBefore(s: seq<Byte>, before: seq<Op>, op: Op)
    requires EndInTime(s, before + [op])
    ensures EndInTime(s, before)
    ensures !op.FrameOp? && 0 < |s| && Sent(Frames(before), |s| - 1) ==> Ended(before)
  {
    hide Sent, Frames, Ended;
    var ops := before + [op];
    assert ops[..|before|] == before;
    assert ops[|before|] == op;
    forall k | 0 <= k < |before| && !before[k].FrameOp?
      ensures 0 < |s| && Sent(Frames(before[..k]), |s| - 1) ==> Ended(before[..k])
    {
      assert ops[k] == before[k] && ops[..k] == before[..k];
    }
  }

  /** What was taken out of the queue had come. */
  lemma TakenIsSent(r: ReceiveStream, s: seq<Byte>, fs: seq<Fragment>, ended: bool)
    requires InStep(r, s, fs, ended) && |s| < MAX_BYTE_COUNT
    ensures 0 < |s| <= r.frameQueue.readPos ==> Sent(fs, |s| - 1)
  {
    hide r.frameQueue.Valid, r.Readable, r.Callbacks;
    hide Sent, Given, GapsOf, Consistent, Held;
    ReachesFirstMissing(r, s, fs, ended);
    RestComesFirst(r);
  }

  /** One call of a run. */
  method Step(r: ReceiveStream, s: seq<Byte>, ghost before: seq<Op>, op: Op) returns (result: HandleResult, a: Answer)
    requires InStep(r, s, Frames(before), Ended(before)) && Honest(s, op) && |s| < MAX_BYTE_COUNT
    requires EndInTime(s, before) ==> EndSeen(r, s)
    modifies r, r.frameQueue
    ensures result == if op.FrameOp? then Verdict(Frames(before), op.f, op.allowed) else Handled
    ensures result == SorterError ==> old(|r.frameQueue.gaps|) == MAX_STREAM_FRAME_SORTER_GAPS
    ensures result == Handled ==> InStep(r, s, Frames(before + [op]), Ended(before + [op]))
    ensures result == Handled ==> |r.frameQueue.gaps| <= old(|r.frameQueue.gaps|) + 1
    ensures result == Handled ==> Truth(s, before, op, old(r.readPos), a)
    ensures r.readPos == old(r.readPos) + if a.ReadAnswer? then |a.data| else 0
    ensures result == Handled && EndInTime(s, before + [op]) ==> EndSeen(r, s)
  {
    hide r.frameQueue.Valid, r.Valid, r.Readable, r.Callbacks;
    hide InStep, Honest, ReadTruth, PeekTruth, FirstMissing, Verdict, EndInTime, Sent;
    if EndInTime(s, before + [op]) {
      EndInTimeBefore(s, before, op);
    }
    assert (before + [op])[..|before|] == before;
    ghost var fs, ended := Frames(before), Ended(before);
    ReachesFirstMissing(r, s, fs, ended);
    result, a := Handled, NoAnswer;
    match op
    case FrameOp(_, _, _) =>
      result := FrameStep(r, s, fs, ended, op);
    case ReadOp(len) =>
      var data, status := ReadOnce(r, s, fs, ended, len);
      TakenIsSent(r, s, fs, ended);
      a := ReadAnswer(data, status);
    case PeekOp(len) =>
      var data, status := PeekOnce(r, s, fs, ended, len);
      TakenIsSent(r, s, fs, ended);
      a := PeekAnswer(data, status);
  }

  lemma NothingYet(s: seq<Byte>, ops: seq<Op>)
    ensures Frames([]) == [] && !Ended([]) && AcceptedUpTo(ops, 0) && Truthful(s, ops, [])
  {
  }

  /**
   * Any run on a fresh stream: Read and Peek give the right answer to every call. The run ends early, at the call behind
   * log, if and only if that is a frame beyond the flow control windows or the gap limit.
   */
  method RunOps(s: seq<Byte>, ops: seq<Op>) returns (r: ReceiveStream, result: HandleResult, log: seq<Answer>)
    requires |s| < MAX_BYTE_COUNT && AllHonest(s, ops)
    ensures fresh(r) && fresh(r.frameQueue)
    ensures Truthful(s, ops, log)
    ensures result == Handled ==> |log| == |ops| && InStep(r, s, Frames(ops), Ended(ops)) && r.readPos == |ReadBytes(log)|
    ensures result != Handled ==> |log| < |ops| && result == VerdictOf(ops, |log|)
    ensures result == Handled <==> AllAccepted(ops)
    ensures |ops| < MAX_STREAM_FRAME_SORTER_GAPS && AllAllowed(ops) ==> result == Handled
  {
    hide r.frameQueue.Valid, r.Valid, r.Readable, r.Callbacks;
    hide InStep, Honest, Truth, Truthful, Verdict, Frames, Ended, AcceptedUpTo, AllAllowed, EndInTime;
    r := new ReceiveStream();
    result, log := Handled, [];
    StartsInStep(r, s);
    NothingYet(s, ops);
    while |log| < |ops|
      invariant fresh(r) && fresh(r.frameQueue) && result == Handled
      invariant Truthful(s, ops, log) && r.readPos == |ReadBytes(log)|
      invariant |log| <= |ops| && AcceptedUpTo(ops, |log|)
      invariant EndInTime(s, ops[..|log|]) ==> EndSeen(r, s)
      invariant InStep(r, s, Frames(ops[..|log|]), Ended(ops[..|log|])) && |r.frameQueue.gaps| <= |log| + 1
    {
      var n := |log|;
      assert ops[..n + 1] == ops[..n] + [ops[n]];
      NextVerdict(ops, n);
      var a;
      result, a := Step(r, s, ops[..n], ops[n]);
      if result != Handled {
        return;
      }
      TruthfulSnoc(s, ops, log, a);
      assert (log + [a])[..n] == log;
      log := log + [a];
    }
    assert ops[..|log|] == ops;
  }

  /** After the end nothing is left: every callback was called as often as it came. */
  lemma AllReleased(r: ReceiveStream, s: seq<Byte>, fs: seq<Fragment>, ended: bool, c: nat)
    requires InStep(r, s, fs, ended) && r.readPos == |s| && r.cur.isLast && r.cur.frame.None?
    ensures r.frameQueue.released[c] + r.released[c] == Given(fs, c)
  {
    hide Sent, Given, InGap, GapsOk;
    var q := r.frameQueue.queue;
    if k :| k in q {
      r.frameQueue.EntryNonEmpty(k);
      assert false;
    }
    assert Holders(q, c) == {};
  }

  lemma SameFragment(fs: seq<Fragment>, x: Fragment, i: nat, p: nat)
    requires Disjoint(fs) && x in fs && Carries(x, p) && i < |fs| && Carries(fs[i], p)
    ensures x == fs[i]
  {
    var j :| 0 <= j < |fs| && fs[j] == x;
    assert !(i < j) && !(j < i);
  }

  /** A byte that came and was not read is in the frame that is being read, or in the queue. */
  lemma UnreadIsHeld(r: ReceiveStream, s: seq<Byte>, fs: seq<Fragment>, ended: bool, p: nat)
    requires InStep(r, s, fs, ended) && r.readPos <= p < MAX_BYTE_COUNT && Sent(fs, p)
    ensures if p < r.frameQueue.readPos then r.cur.frame.Some? && r.frameQueue.readPos - |r.cur.frame.value| <= p
            else Covered(r.frameQueue.queue, p)
  {
    hide Sent, Given, Consistent, Held, Tiles, QueueBelow;
    TilesCover(r.frameQueue.queue, r.frameQueue.gaps, r.frameQueue.readPos, p);
  }

  /** As long as frames do not overlap, no buffer is given back before its last byte was read. */
  lemma BuffersInUse(r: ReceiveStream, s: seq<Byte>, fs: seq<Fragment>, ended: bool, i: nat, c: nat)
    requires InStep(r, s, fs, ended) && |s| < MAX_BYTE_COUNT && Disjoint(fs)
    requires i < |fs| && fs[i].doneCb == Some(c) && Given(fs, c) == 1
    requires fs[i].len > 0 && r.readPos < fs[i].offset + fs[i].len <= |s|
    ensures r.frameQueue.released[c] + r.released[c] == 0
  {
    hide r.Valid;
    hide Given, Consistent, GapsOf, Disjoint, Next, FlowOk;
    var p, q := fs[i].offset + fs[i].len - 1, r.frameQueue.queue;
    assert Carries(fs[i], p);
    UnreadIsHeld(r, s, fs, ended, p);
    if p < r.frameQueue.readPos {
      SameFragment(fs, Fragment(r.frameQueue.readPos - |r.cur.frame.value|, |r.cur.frame.value|, r.cur.doneCb), i, p);
    } else {
      var k :| k in q && k <= p < EndOf(q, k);
      SameFragment(fs, Fragment(k, |q[k].data|, q[k].doneCb), i, p);
      assert k in Holders(q, c);
    }
    assert r.Callbacks(c) == Given(fs, c);
  }

  /** Two reads that ask for everything. */
  method ReadRest(r: ReceiveStream, s: seq<Byte>, ghost fs: seq<Fragment>, ghost ended: bool, before: seq<Byte>)
    returns (read: seq<Byte>, eof: bool, released: multiset<nat>)
    requires InStep(r, s, fs, ended) && |s| < MAX_BYTE_COUNT && before <= s && |before| == r.readPos
    modifies r`cur, r`readPos, r`released, r.frameQueue`queue, r.frameQueue`readPos
    ensures read <= s && FirstMissing(fs, |read|) && (eof ==> read == s)
    ensures eof <==> ended && AllSent(fs, |s|)
    ensures eof ==> forall c :: released[c] == Given(fs, c)
  {
    hide InStep, Sent, Given;
    ReachesFirstMissing(r, s, fs, ended);
    var data, status := ReadOnce(r, s, fs, ended, |s| + 1);
    NextPrefix(s, before, data);
    read := before + data;
    data, status := ReadOnce(r, s, fs, ended, |s| + 1);
    eof := status == Eof;
    released := r.frameQueue.released + r.released;
    if eof {
      forall c
        ensures released[c] == Given(fs, c)
      {
        AllReleased(r, s, fs, ended, c);
      }
    }
  }

  /**
   * A stream arrives intact: after any run and two more reads that ask for everything, exactly the bytes in front of
   * the first one that never came were read. The end of the stream is reported if and only if every byte and the end
   * mark came; then every buffer was given back exactly once for every frame that it came with.
   */
  method Transfer(s: seq<Byte>, ops: seq<Op>)
    returns (result: HandleResult, read: seq<Byte>, eof: bool, released: multiset<nat>)
    requires |s| < MAX_BYTE_COUNT && AllHonest(s, ops)
    ensures read <= s && (eof ==> read == s)
    ensures result == Handled <==> AllAccepted(ops)
    ensures result != Handled ==> exists n :: 0 <= n < |ops| && result == VerdictOf(ops, n)
    ensures result == Handled ==> FirstMissing(Frames(ops), |read|)
    ensures result == Handled ==> (eof <==> Ended(ops) && AllSent(Frames(ops), |s|))
    ensures result == Handled && eof ==> forall c :: released[c] == Given(Frames(ops), c)
    ensures |ops| < MAX_STREAM_FRAME_SORTER_GAPS && AllAllowed(ops) ==> result == Handled
  {
    hide InStep, Truthful, Sent, Ended, Given, Frames, VerdictOf, AllSent;
    var r, log;
    r, result, log := RunOps(s, ops);
    ReadsArePrefix(s, ops, log);
    read := ReadBytes(log);
    if result != Handled {
      return result, read, false, multiset{};
    }
    read, eof, released := ReadRest(r, s, Frames(ops), Ended(ops), read);
  }

  /** Reads after a peek return exactly the bytes that were peeked: all of them, or as many as fit. */
  method PeekThenRead(r: ReceiveStream, b: array<Byte>, p: array<Byte>) returns (peeked: nat, n: nat)
    requires r.Valid() && b != p
    modifies r, r.frameQueue, b, p
    ensures r.Valid() && r.readPos == old(r.readPos) + n
    ensures peeked <= b.Length && n <= p.Length && Min(peeked, p.Length) <= n
    ensures forall i :: 0 <= i < peeked && i < n ==> b[i] == p[i]
  {
    hide r.Valid, r.Readable, r.Callbacks;
    hide Within;
    var status;
    peeked, status := r.Peek(b);
    ghost var all, first := r.Readable(), b[..peeked];
    n, status := r.Read(p);
    ghost var second := p[..n];
    assert first == b[..peeked];
    forall i | 0 <= i < peeked && i < n
      ensures b[i] == p[i]
    {
      assert b[i] == first[i] == all[i] == second[i];
    }
  }
}
