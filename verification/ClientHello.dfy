/**
 * A ClientHello is sent: it is written in pieces, and popped scrambled in frames of any sizes.
 */
module ClientHello {
  import opened Protocol
  import opened Fragments
  import opened Sni
  import opened CryptoStreams
  import opened HelloPasses

  /** Every frame is a part of w, at its offset. */
  ghost predicate PartsOf(w: seq<Byte>, frames: seq<CryptoFrame>) {
    forall i :: 0 <= i < |frames| ==> && frames[i].offset + |frames[i].data| <= |w|
                                      && frames[i].data == w[frames[i].offset..frames[i].offset + |frames[i].data|]
  }

  /** The frames that were popped so far are what the stream has sent. */
  ghost predicate Log(c: InitialCryptoStream, frames: seq<CryptoFrame>)
    reads c
  {
    && PartsOf(c.written, frames)
    && forall p: nat :: p in c.sent <==> Sent(Carried(frames), p)
  }

  /** The ClientHello hello, which is scrambled, is being sent or was sent; the frames so far are its passes. */
  ghost predicate Dividing(c: InitialCryptoStream, hello: seq<Byte>, frames: seq<CryptoFrame>)
    reads c
  {
    && Scrambles(Search(hello)) && hello <= c.written
    && (if c.scramble then c.Scrambling() && c.end == |hello| else c.Plain() && |hello| <= c.writeOffset)
    && Recorded(CutTable(Search(hello), |hello|), |hello|, c.scramble && c.writeOffset < |hello|, c.writeOffset, frames)
  }

  lemma DividingStep(hello: seq<Byte>, frames: seq<CryptoFrame>, scramble: bool, first: bool, w: nat, cuts: seq<Cut>,
                     maxLen: int, f: CryptoFrame, w': nat)
    requires var r := Search(hello);
      && Scrambles(r) && Recorded(CutTable(r, |hello|), |hello|, first, w, frames) && |cuts| == 2
      && (first ==> && w < |hello| && w' <= |hello| && (cuts[0], cuts[1]) == CutTable(r, |hello|)
                    && FirstPassFrame(cuts, |hello|, w, maxLen, f, w'))
      && (!first && scramble ==> CutsLeft(r, |hello|, cuts) && CutFrame(if Present(cuts[0]) then cuts[0] else cuts[1], maxLen, f))
      && (!first && !scramble ==> |hello| <= f.offset)
    ensures Recorded(CutTable(Search(hello), |hello|), |hello|, first && w' < |hello|, w', frames + [f])
  {
    hide Search, Recorded, CutTable, FirstPassFrame, CutFrame, CutsLeft, CutsInOrder;
    var r := Search(hello);
    var t := CutTable(r, |hello|);
    if first {
      TableInOrder(hello);
      assert cuts == [t.0, t.1];
      RecordFirst(t, |hello|, frames, w, maxLen, f, w');
    } else {
      if scramble {
        CutFrameInSecondPass(r, |hello|, cuts, maxLen, f);
      }
      RecordSecond(t, |hello|, frames, w, f, w');
    }
  }

  /** One pop, recorded. */
  method PopLogged(c: InitialCryptoStream, maxLen: int, frames: seq<CryptoFrame>, ghost hello: seq<Byte>)
    returns (frames': seq<CryptoFrame>, f: Option<CryptoFrame>)
    requires (c.Scrambling() || c.Plain()) && c.HasData() && Log(c, frames)
    modifies c
    ensures (c.Scrambling() || c.Plain()) && Log(c, frames') && c.written == old(c.written)
    ensures c.ToSend() <= old(c.ToSend()) && (f.Some? ==> c.ToSend() < old(c.ToSend()))
    ensures f.None? && 11 <= maxLen ==> c.Stuck()
    ensures c.Blocked() <==> old(c.Blocked())
    ensures !c.NotStarted() && (c.Blocked() ==> c.end == old(c.end))
    ensures old(Dividing(c, hello, frames)) ==> Dividing(c, hello, frames')
    ensures f.Some? ==> frames' == frames + [f.value]
    ensures old(c.Scrambling() && c.writeOffset < c.end) ==> c.scramble && c.cuts == old(c.cuts)
    ensures old(c.Scrambling() && c.writeOffset == c.end) && f.Some? ==>
            CutFrame(old(if Present(c.cuts[0]) then c.cuts[0] else c.cuts[1]), maxLen, f.value)
  {
    hide Search, WholeClientHello, CutTable, CutsLeft, MaxDataLen, Sent, Scrambles, Recorded;
    hide FirstPassFrame, CutFrame;
    ghost var dividing, first, w, cuts := Dividing(c, hello, frames), c.scramble && c.writeOffset < c.end, c.writeOffset, c.cuts;
    ghost var scramble := c.scramble;
    assert dividing ==> c.written[..|hello|] == hello;
    f := c.PopCryptoFrame(maxLen);
    if dividing && f.Some? {
      DividingStep(hello, frames, scramble, first, w, cuts, maxLen, f.value, c.writeOffset);
    }
    if f.None? {
      return frames, f;
    }
    frames' := frames + [f.value];
    assert Carried(frames') == Carried(frames) + [AsFragment(f.value)];
    forall p: nat
      ensures p in c.sent <==> Sent(Carried(frames'), p)
    {
      SentSnoc(Carried(frames), AsFragment(f.value), p);
    }
  }

  /** More data is written, or a frame is asked for with a size limit. */
  datatype SendOp = WriteOp(p: seq<Byte>) | SizedPop(maxLen: int)

  /** What is written behind the ClientHello. */
  function Later(ops: seq<SendOp>): seq<Byte> {
    if ops == [] then []
    else
      var before, last := Later(ops[..|ops| - 1]), ops[|ops| - 1];
      if last.WriteOp? then before + last.p else before
  }

  /** The next operation; frames are asked for only while there is data, as the packet packer does. */
  method SendStep(c: InitialCryptoStream, op: SendOp, frames: seq<CryptoFrame>, ghost hello: seq<Byte>) returns (frames': seq<CryptoFrame>)
    requires (c.Scrambling() || c.Plain()) && Log(c, frames)
    modifies c
    ensures (c.Scrambling() || c.Plain()) && Log(c, frames')
    ensures c.written == old(c.written) + if op.WriteOp? then op.p else []
    ensures (c.Blocked() <==> old(c.Blocked())) && (c.NotStarted() <==> old(c.NotStarted()))
    ensures c.Blocked() ==> c.end == old(c.end)
    ensures c.NotStarted() ==> frames' == frames
    ensures old(Dividing(c, hello, frames)) ==> Dividing(c, hello, frames')
  {
    hide Search, WholeClientHello, CutTable, CutsLeft, Sent, PartsOf, Scrambles, Recorded;
    frames' := frames;
    if op.WriteOp? {
      var ok := c.Write(op.p);
      PartsOfLonger(old(c.written), c.written, frames);
    } else if c.HasData() {
      var f;
      frames', f := PopLogged(c, op.maxLen, frames, hello);
    } else {
      assert c.written == c.written + [];
    }
  }

  /** Any writes and pops. */
  method SendSteps(c: InitialCryptoStream, ops: seq<SendOp>, before: seq<CryptoFrame>, ghost hello: seq<Byte>)
    returns (frames: seq<CryptoFrame>)
    requires (c.Scrambling() || c.Plain()) && Log(c, before)
    modifies c
    ensures (c.Scrambling() || c.Plain()) && Log(c, frames) && c.written == old(c.written) + Later(ops)
    ensures (c.Blocked() <==> old(c.Blocked())) && (c.NotStarted() <==> old(c.NotStarted()))
    ensures c.Blocked() ==> c.end == old(c.end)
    ensures c.NotStarted() ==> frames == before
    ensures old(Dividing(c, hello, before)) ==> Dividing(c, hello, frames)
  {
    hide c.Scrambling, c.Plain, c.Blocked, c.NotStarted;
    hide Log, Dividing;
    frames := before;
    var n := 0;
    while n < |ops|
      invariant n <= |ops|
      invariant (c.Scrambling() || c.Plain()) && Log(c, frames) && c.written == old(c.written) + Later(ops[..n])
      invariant (c.Blocked() <==> old(c.Blocked())) && (c.NotStarted() <==> old(c.NotStarted()))
      invariant c.Blocked() ==> c.end == old(c.end)
      invariant c.NotStarted() ==> frames == before
      invariant old(Dividing(c, hello, before)) ==> Dividing(c, hello, frames)
    {
      assert ops[..n + 1][..n] == ops[..n];
      frames := SendStep(c, ops[n], frames, hello);
      n := n + 1;
    }
    assert ops[..n] == ops;
  }

  /** Pops until there is no data, or nothing comes. With room for a byte this ends, and only a stuck stream has data left. */
  method PopRest(c: InitialCryptoStream, maxLen: int, before: seq<CryptoFrame>, ghost hello: seq<Byte>) returns (frames: seq<CryptoFrame>)
    requires (c.Scrambling() || c.Plain()) && Log(c, before) && 11 <= maxLen
    modifies c
    ensures (c.Scrambling() || c.Plain()) && Log(c, frames) && c.written == old(c.written)
    ensures (c.Blocked() <==> old(c.Blocked())) && (c.Blocked() ==> c.end == old(c.end))
    ensures old(c.NotStarted()) ==> frames == before && c.sent == {}
    ensures !old(c.Blocked()) ==> forall p: nat :: p < |c.written| ==> p in c.sent
    ensures old(c.Blocked()) && !old(c.NotStarted()) ==> c.Stuck()
    ensures c.Stuck() || !c.HasData()
    ensures old(Dividing(c, hello, before)) ==> Dividing(c, hello, frames)
  {
    hide Log, Dividing;
    hide Search, WholeClientHello, CutTable, CutsLeft, HeldBack, InCut, EmptyCut;
    frames := before;
    var f: Option<CryptoFrame> := Some(CryptoFrame(0, []));
    while c.HasData() && f.Some?
      invariant (c.Scrambling() || c.Plain()) && Log(c, frames) && c.written == old(c.written)
      invariant (c.Blocked() <==> old(c.Blocked())) && (c.Blocked() ==> c.end == old(c.end))
      invariant c.NotStarted() <==> old(c.NotStarted())
      invariant c.NotStarted() ==> frames == before
      invariant f.None? ==> c.Stuck()
      invariant old(Dividing(c, hello, before)) ==> Dividing(c, hello, frames)
      decreases c.ToSend(), f.Some?
    {
      frames, f := PopLogged(c, maxLen, frames, hello);
    }
    if f.None? {
      StuckHasSent(c);
    }
  }

  lemma PartsOfLonger(s: seq<Byte>, s': seq<Byte>, frames: seq<CryptoFrame>)
    requires PartsOf(s, frames) && s <= s'
    ensures PartsOf(s', frames)
  {
  }

  lemma StartsLogged(c: InitialCryptoStream)
    requires c.sent == {}
    ensures Log(c, [])
  {
  }

  // ---------------------------------------------------------------------------
  // Writing the ClientHello
  // ---------------------------------------------------------------------------

  lemma {:induction false} PrefixConcat(parts: seq<seq<Byte>>, n: nat)
    requires n <= |parts|
    ensures Concat(parts[..n]) <= Concat(parts)
    decreases |parts| - n
  {
    if n < |parts| {
      PrefixConcat(parts, n + 1);
      assert parts[..n + 1][..n] == parts[..n];
    } else {
      assert parts[..n] == parts;
    }
  }

  /** A message that starts like a ClientHello and is not complete is not searched. */
  lemma IncompleteHello(hello: seq<Byte>, n: nat)
    requires WholeClientHello(hello) && n < |hello|
    ensures Search(hello[..n]) == UnexpectedEof
  {
    if 4 <= n {
      var part := hello[..n];
      assert part[0] == hello[0] && part[1] == hello[1] && part[2] == hello[2] && part[3] == hello[3];
    }
  }

  /** The search results for which everything is sent: both cuts are usable, or there is nothing to cut. */
  predicate Sendable(r: SniResult) {
    Scramblable(r) || (r.Found? && r.sniPos == -1 && r.echPos == -1)
  }

  /** The whole ClientHello was written and nothing sent. */
  ghost predicate Ready(c: InitialCryptoStream, hello: seq<Byte>)
    reads c
  {
    && c.written == hello && c.writeOffset == 0 && c.sent == {}
    && if !Search(hello).Found? then c.Waiting()
       else
         && (c.Blocked() <==> !Sendable(Search(hello)))
         && (c.scramble <==> Search(hello).sniPos != -1 || Search(hello).echPos != -1)
         && if c.scramble then c.Scrambling() && c.end == |hello| else c.Plain()
  }

  /** Part of the ClientHello was written, and nothing sent. */
  ghost predicate Writing(c: InitialCryptoStream, hello: seq<Byte>)
    reads c
  {
    c.written <= hello && if c.written == hello then Ready(c, hello) else c.Waiting()
  }

  method WritePart(c: InitialCryptoStream, hello: seq<Byte>, part: seq<Byte>)
    requires WholeClientHello(hello) && Writing(c, hello) && c.written + part <= hello
    modifies c
    ensures Writing(c, hello) && c.written == old(c.written) + part
  {
    hide Search, WholeClientHello, CutTable, CutsLeft;
    if |c.written + part| < |hello| {
      IncompleteHello(hello, |c.written + part|);
      assert hello[..|c.written + part|] == c.written + part;
    }
    var ok := c.Write(part);
  }

  /** Writes a ClientHello in pieces. */
  method WriteParts(c: InitialCryptoStream, hello: seq<Byte>, parts: seq<seq<Byte>>)
    requires c.Waiting() && c.written == [] && hello == Concat(parts) && WholeClientHello(hello)
    modifies c
    ensures Ready(c, hello)
  {
    hide Search, Ready;
    var n := 0;
    while n < |parts|
      invariant n <= |parts| && c.written == Concat(parts[..n])
      invariant Writing(c, hello)
    {
      hide Writing;
      assert parts[..n + 1][..n] == parts[..n];
      PrefixConcat(parts, n + 1);
      WritePart(c, hello, parts[n]);
      n := n + 1;
    }
    assert parts[..n] == parts;
  }

  // ---------------------------------------------------------------------------
  // Sending it
  // ---------------------------------------------------------------------------

  /** A whole ClientHello that the search rejects: the stream waits for ever. */
  ghost predicate WaitingBehind(c: InitialCryptoStream, hello: seq<Byte>)
    reads c
  {
    c.Waiting() && hello <= c.written && WholeClientHello(hello) && !Search(hello).Found?
  }

  /** One more operation; there is nothing to pop. */
  method WaitStep(c: InitialCryptoStream, hello: seq<Byte>, op: SendOp)
    requires WaitingBehind(c, hello)
    modifies c
    ensures WaitingBehind(c, hello) && c.written == old(c.written) + if op.WriteOp? then op.p else []
  {
    hide Search, WholeClientHello;
    if op.WriteOp? {
      if |hello| < |c.written + op.p| {
        assert (c.written + op.p)[..|hello|] == hello;
        LongerIsNoHello(c.written + op.p, |hello|);
      } else {
        assert c.written + op.p == hello;
      }
      var ok := c.Write(op.p);
    } else if c.HasData() {
      assert false;
    } else {
      assert c.written == c.written + [];
    }
  }

  /** Whatever is written, nothing can be popped: HasData stays false. */
  method WaitSteps(c: InitialCryptoStream, hello: seq<Byte>, ops: seq<SendOp>)
    requires WaitingBehind(c, hello)
    modifies c
    ensures WaitingBehind(c, hello) && c.written == old(c.written) + Later(ops) && !c.HasData()
  {
    hide Search, WholeClientHello;
    var n := 0;
    while n < |ops|
      invariant n <= |ops| && WaitingBehind(c, hello) && c.written == old(c.written) + Later(ops[..n])
    {
      hide WaitingBehind;
      assert ops[..n + 1][..n] == ops[..n];
      WaitStep(c, hello, ops[n]);
      n := n + 1;
    }
    assert ops[..n] == ops;
  }

  /** The search rejects it, or there is an ECH extension and no host name: the first cut is missing. */
  predicate NeverStarts(r: SniResult) {
    r.Found? ==> r.sniPos == -1 && r.sniLen <= 1 && r.echPos != -1
  }

  /**
   * A client sends a ClientHello, written in any pieces, with any writes and pops behind it, and at last pops
   * until nothing comes any more. The frames carry what was written at its offset. They carry all of it if and
   * only if the search result is sendable; otherwise nothing behind the ClientHello is ever sent, and the
   * ClientHello itself is sent if and only if its search result lets it go out.
   */
  method SendHello(hello: seq<Byte>, parts: seq<seq<Byte>>, ops: seq<SendOp>, last: int) returns (frames: seq<CryptoFrame>)
    requires hello == Concat(parts) && WholeClientHello(hello) && 11 <= last
    ensures PartsOf(hello + Later(ops), frames)
    ensures Sendable(Search(hello)) ==> AllSent(Carried(frames), |hello + Later(ops)|)
    ensures !Sendable(Search(hello)) ==> forall p: nat :: Sent(Carried(frames), p) ==> p < |hello|
    ensures AllSent(Carried(frames), |hello|) <==> HelloGoesOut(Search(hello))
    ensures NeverStarts(Search(hello)) ==> frames == []
    ensures Scrambles(Search(hello)) ==> exists k :: InPasses(CutTable(Search(hello), |hello|), |hello|, frames, k)
    ensures NameSplit(Search(hello), |hello|, frames) && EchSplit(Search(hello), frames)
  {
    hide Search, InPasses, NameSplit, EchSplit, Dividing;
    var c := new InitialCryptoStream(true);
    WriteParts(c, hello, parts);
    StartsLogged(c);
    if Search(hello).Found? {
      StartOf(c, hello);
      if Scrambles(Search(hello)) {
        StartsDividing(c, hello);
      }
      frames := SendSteps(c, ops, [], hello);
      assert c.Blocked() ==> c.written[..c.end] == hello;
      frames := PopRest(c, last, frames, hello);
      SentAtEnd(c, hello, frames);
      if Scrambles(Search(hello)) {
        Divided(c, hello, frames);
      }
    } else {
      WaitSteps(c, hello, ops);
      frames := [];
      NothingSent(hello);
    }
    if !Scrambles(Search(hello)) {
      NothingToSplit(hello, frames);
    }
  }

  lemma StartsDividing(c: InitialCryptoStream, hello: seq<Byte>)
    requires Search(hello).Found? && Ready(c, hello) && Scrambles(Search(hello)) && hello != []
    ensures Dividing(c, hello, [])
  {
    hide Search;
  }

  /** At the end both passes are complete, or the second one is stuck. */
  lemma Divided(c: InitialCryptoStream, hello: seq<Byte>, frames: seq<CryptoFrame>)
    requires Dividing(c, hello, frames) && (c.Stuck() || !c.HasData())
    ensures exists k :: InPasses(CutTable(Search(hello), |hello|), |hello|, frames, k)
    ensures NameSplit(Search(hello), |hello|, frames) && EchSplit(Search(hello), frames)
  {
    hide Search, InPasses, NameSplit, EchSplit, CutTable, Passed;
    TableInOrder(hello);
    assert c.written[..|hello|] == hello;
    var k: nat :| InPasses(CutTable(Search(hello), |hello|), |hello|, frames, k);
    PassesSplit(hello, frames, k);
  }

  lemma NothingToSplit(hello: seq<Byte>, frames: seq<CryptoFrame>)
    requires !Scrambles(Search(hello)) && (NeverStarts(Search(hello)) ==> frames == [])
    ensures NameSplit(Search(hello), |hello|, frames) && EchSplit(Search(hello), frames)
  {
    hide Search;
  }

  lemma NothingSent(hello: seq<Byte>)
    requires hello != []
    ensures !AllSent(Carried([]), |hello|) && forall p: nat :: !Sent(Carried([]), p)
  {
    assert !Sent(Carried([]), 0);
  }

  lemma StartOf(c: InitialCryptoStream, hello: seq<Byte>)
    requires Search(hello).Found? && Ready(c, hello)
    ensures c.NotStarted() <==> NeverStarts(Search(hello))
  {
    hide WholeClientHello, Search;
    SearchSound(hello);
    assert hello[..|hello|] == hello;
  }

  lemma SentAtEnd(c: InitialCryptoStream, hello: seq<Byte>, frames: seq<CryptoFrame>)
    requires hello != [] && Search(hello).Found? && Log(c, frames) && hello <= c.written
    requires c.Blocked() <==> !Sendable(Search(hello))
    requires c.Blocked() ==> c.end == |hello|
    requires c.Blocked() ==> c.Stuck() || (NeverStarts(Search(hello)) && c.sent == {})
    requires !c.Blocked() ==> forall p: nat :: p < |c.written| ==> p in c.sent
    ensures Sendable(Search(hello)) ==> AllSent(Carried(frames), |c.written|)
    ensures !Sendable(Search(hello)) ==> forall p: nat :: Sent(Carried(frames), p) ==> p < |hello|
    ensures AllSent(Carried(frames), |hello|) <==> HelloGoesOut(Search(hello))
  {
    hide Search, Sent;
    if c.Stuck() {
      StuckHasSent(c);
      assert c.written[..c.end] == hello;
    } else if c.Blocked() {
      assert 0 !in c.sent;
    }
  }

  // ---------------------------------------------------------------------------
  // When scrambling does not divide
  // ---------------------------------------------------------------------------

  /** One frame carries all of the cut. */
  ghost predicate HasCut(frames: seq<CryptoFrame>, t: Cut) {
    exists i :: 0 <= i < |frames| && frames[i].offset == t.start && frames[i].offset + |frames[i].data| == t.end
  }

  lemma CutUntouched(c: InitialCryptoStream, hello: seq<Byte>)
    requires Dividing(c, hello, []) && c.written == hello && c.writeOffset == 0 && hello != []
    ensures c.scramble && c.cuts[0] == CutTable(Search(hello), |hello|).0
  {
    hide Search, CutTable, Recorded;
    assert hello[..|hello|] == hello;
  }

  method PopFirstCut(c: InitialCryptoStream, hello: seq<Byte>, frames: seq<CryptoFrame>, ghost cut: Cut, maxLen: int)
    returns (frames': seq<CryptoFrame>)
    requires c.scramble && Dividing(c, hello, frames) && Log(c, frames) && c.written == hello && !c.Blocked()
    requires 11 <= maxLen && 0 <= cut.start < cut.end && cut.end - cut.start <= MaxDataLen(cut.start, maxLen)
    requires c.cuts[0] == cut || HasCut(frames, cut)
    modifies c
    ensures Dividing(c, hello, frames') && Log(c, frames') && c.written == hello && !c.Blocked()
    ensures (c.scramble && c.cuts[0] == cut) || HasCut(frames', cut)
    ensures c.scramble ==> c.ToSend() < old(c.ToSend())
  {
    hide Search, WholeClientHello, CutTable, CutsLeft, MaxDataLen, Log, Recorded, HeldBack, InCut;
    var f;
    frames', f := PopLogged(c, maxLen, frames, hello);
    assert f.Some?;
    assert frames'[|frames|] == f.value;
    assert forall i :: 0 <= i < |frames| ==> frames'[i] == frames[i];
  }

  lemma AllOfHello(c: InitialCryptoStream, hello: seq<Byte>, frames: seq<CryptoFrame>)
    requires Dividing(c, hello, frames) && Log(c, frames) && !c.scramble && c.written == hello
    ensures PartsOf(hello, frames) && AllSent(Carried(frames), |hello|)
  {
    hide Search, Recorded, Sent;
  }

  lemma CutUndivided(hello: seq<Byte>, frames: seq<CryptoFrame>)
    requires Scramblable(Search(hello)) && HasCut(frames, CutTable(Search(hello), |hello|).0)
    ensures var r := Search(hello); EchCoversName(r, |hello|) && 2 <= r.sniLen ==> !NameDivided(r, frames)
    ensures var r := Search(hello); 0 <= r.echPos && EchInName(r) ==> !EchDivided(r, frames)
  {
    hide Search;
    SearchSound(hello);
    var r, cut := Search(hello), CutTable(Search(hello), |hello|).0;
    var i :| 0 <= i < |frames| && frames[i].offset == cut.start && frames[i].offset + |frames[i].data| == cut.end;
    assert EchCoversName(r, |hello|) && 2 <= r.sniLen ==> Both(frames[i], r.sniPos, r.sniPos + r.sniLen - 1);
    assert 0 <= r.echPos && EchInName(r) ==> Both(frames[i], r.echPos, r.echPos + 1);
  }

  /**
   * With room for all of the first cut in one frame, one frame carries it. If the cut for ECH covers the host name, a
   * frame carries the whole name; if the ECH type lies in what is taken for a name, a frame carries the whole type.
   */
  method LargeFrames(hello: seq<Byte>, parts: seq<seq<Byte>>, maxLen: int) returns (frames: seq<CryptoFrame>)
    requires hello == Concat(parts) && 11 <= maxLen && Scramblable(Search(hello)) && Scrambles(Search(hello))
    requires var cut := CutTable(Search(hello), |hello|).0; 0 <= cut.start ==> cut.end - cut.start <= MaxDataLen(cut.start, maxLen)
    ensures PartsOf(hello, frames) && AllSent(Carried(frames), |hello|)
    ensures var r := Search(hello); EchCoversName(r, |hello|) && 2 <= r.sniLen ==> !NameDivided(r, frames)
    ensures var r := Search(hello); 0 <= r.echPos && EchInName(r) ==> !EchDivided(r, frames)
  {
    hide Search, WholeClientHello, CutTable, MaxDataLen, NameDivided, EchDivided;
    var c := new InitialCryptoStream(true);
    SearchSound(hello);
    WriteParts(c, hello, parts);
    StartsLogged(c);
    StartsDividing(c, hello);
    ghost var cut := CutTable(Search(hello), |hello|).0;
    FirstCut(hello);
    CutUntouched(c, hello);
    frames := [];
    while c.scramble
      invariant Dividing(c, hello, frames) && Log(c, frames) && c.written == hello && !c.Blocked()
      invariant (c.scramble && c.cuts[0] == cut) || HasCut(frames, cut)
      decreases c.scramble, if c.scramble then c.ToSend() else 0
    {
      frames := PopFirstCut(c, hello, frames, cut, maxLen);
    }
    AllOfHello(c, hello, frames);
    CutUndivided(hello, frames);
  }

  lemma FirstCut(hello: seq<Byte>)
    requires Scramblable(Search(hello))
    ensures var cut := CutTable(Search(hello), |hello|).0; 0 <= cut.start < cut.end <= |hello|
  {
    hide Search;
    CutTableOk(hello, Search(hello));
  }

  /** A ClientHello with an empty ECH extension in front of the host name "ab". */
  function ShortNameHello(): seq<Byte> {
    [1, 0, 0, 55] + seq(34, _ => 0) + [0, 0, 0, 0, 0, 15, 0xfe, 0x0d, 0, 0] + [0, 0, 0, 7, 0, 5, 0, 0, 2, 97, 98]
  }

  lemma ShortNameSearch()
    ensures Search(ShortNameHello()) == Found(57, 2, 44)
  {
    var d := ShortNameHello();
    assert |d| == 59 && d[0] == 1 && d[1] == 0 && d[2] == 0 && d[3] == 55;
    assert d[38] == 0 && d[39] == 0 && d[40] == 0 && d[41] == 0 && d[42] == 0 && d[43] == 15;
    assert SkipVector(d, 38, 1) == Some(39);
    assert SkipVector(d, 39, 2) == Some(41);
    assert SkipVector(d, 41, 1) == Some(42);
    assert SkipVector(d, 42, 2) == Some(59);
    assert d[44] == 0xfe && d[45] == 0x0d && d[46] == 0 && d[47] == 0;
    assert d[48] == 0 && d[49] == 0 && d[50] == 0 && d[51] == 7 && d[52] == 0 && d[53] == 5;
    assert d[54] == 0 && d[55] == 0 && d[56] == 2;
    assert NameSearch(d, 54, 59, 0) == Some((57, 2));
    assert ExtSearch(d, 59, 59, 57, 2, 44) == Found(57, 2, 44);
    assert ExtSearch(d, 48, 59, -1, 0, 44) == Found(57, 2, 44);
  }

  /** The name is sent in one frame. */
  method ShortNameRun() returns (frames: seq<CryptoFrame>)
    ensures PartsOf(ShortNameHello(), frames) && !NameDivided(Found(57, 2, 44), frames)
  {
    hide Search, NameDivided;
    ShortNameSearch();
    var hello := ShortNameHello();
    assert |hello| == 59;
    assert Concat([hello]) == hello;
    frames := LargeFrames(hello, [hello], 64);
  }

  /** A ClientHello with an empty ECH extension, and a server name of 47 bytes that is no host name. */
  function NoHostNameHello(): seq<Byte> {
    [1, 0, 0, 100] + seq(34, _ => 0) + [0, 0, 0, 0, 0, 60, 0xfe, 0x0d, 0, 0] + [0, 0, 0, 52, 0, 50, 1, 0, 47] + seq(47, _ => 0)
  }

  lemma NoHostNameSearch()
    ensures Search(NoHostNameHello()) == Found(-1, 47, 44)
  {
    var d := NoHostNameHello();
    assert |d| == 104 && d[0] == 1 && d[1] == 0 && d[2] == 0 && d[3] == 100;
    assert d[38] == 0 && d[39] == 0 && d[40] == 0 && d[41] == 0 && d[42] == 0 && d[43] == 60;
    assert SkipVector(d, 38, 1) == Some(39);
    assert SkipVector(d, 39, 2) == Some(41);
    assert SkipVector(d, 41, 1) == Some(42);
    assert SkipVector(d, 42, 2) == Some(104);
    assert d[44] == 0xfe && d[45] == 0x0d && d[46] == 0 && d[47] == 0;
    assert d[48] == 0 && d[49] == 0 && d[50] == 0 && d[51] == 52 && d[52] == 0 && d[53] == 50;
    assert d[54] == 1 && d[55] == 0 && d[56] == 47;
    assert NameSearch(d, 104, 104, 47) == Some((-1, 47));
    assert NameSearch(d, 54, 104, 0) == Some((-1, 47));
    assert ExtSearch(d, 104, 104, -1, 47, 44) == Found(-1, 47, 44);
    assert ExtSearch(d, 48, 104, -1, 0, 44) == Found(-1, 47, 44);
  }

  /** The ECH type is sent in one frame. */
  method NoHostNameRun() returns (frames: seq<CryptoFrame>)
    ensures PartsOf(NoHostNameHello(), frames) && !EchDivided(Found(-1, 47, 44), frames)
  {
    hide Search, EchDivided;
    NoHostNameSearch();
    var hello := NoHostNameHello();
    assert |hello| == 104;
    assert Concat([hello]) == hello;
    frames := LargeFrames(hello, [hello], 64);
  }

  // ---------------------------------------------------------------------------
  // When scrambling does not end
  // ---------------------------------------------------------------------------

  /**
   * A blocked stream stays blocked, whatever is written and popped: the data written behind the ClientHello is
   * never sent. It says that it has data forever, unless nothing was ever started; then it says so never.
   */
  method BlockedForever(c: InitialCryptoStream, ops: seq<SendOp>, before: seq<CryptoFrame>) returns (frames: seq<CryptoFrame>)
    requires c.Blocked() && Log(c, before)
    modifies c
    ensures c.Blocked() && c.end == old(c.end) && c.written == old(c.written) + Later(ops)
    ensures PartsOf(c.written, frames) && forall p: nat :: Sent(Carried(frames), p) ==> p < c.end
    ensures c.HasData() <==> !old(c.NotStarted())
    ensures Log(c, frames)
    ensures c.NotStarted() <==> old(c.NotStarted())
    ensures c.NotStarted() ==> frames == before && c.sent == {}
  {
    hide Search, WholeClientHello, CutTable, CutsLeft, HeldBack, Sent;
    frames := SendSteps(c, ops, before, []);
  }

  /** A ClientHello with an empty host name: version, random, no session id, ciphers or compression methods, SNI. */
  function EmptyNameHello(): seq<Byte> {
    [1, 0, 0, 49] + seq(34, _ => 0) + [0, 0, 0, 0, 0, 9, 0, 0, 0, 5, 0, 3, 0, 0, 0]
  }

  lemma EmptyNameSearch()
    ensures Search(EmptyNameHello()) == Found(53, 0, -1)
  {
    var d := EmptyNameHello();
    assert |d| == 53 && d[0] == 1 && d[1] == 0 && d[2] == 0 && d[3] == 49;
    assert d[38] == 0 && d[39] == 0 && d[40] == 0 && d[41] == 0 && d[42] == 0 && d[43] == 9;
    assert SkipVector(d, 38, 1) == Some(39);
    assert SkipVector(d, 39, 2) == Some(41);
    assert SkipVector(d, 41, 1) == Some(42);
    assert SkipVector(d, 42, 2) == Some(53);
    assert d[44] == 0 && d[45] == 0 && d[46] == 0 && d[47] == 5 && d[48] == 0 && d[49] == 3;
    assert d[50] == 0 && d[51] == 0 && d[52] == 0;
    assert NameSearch(d, 50, 53, 0) == Some((53, 0));
    assert ExtSearch(d, 53, 53, 53, 0, -1) == Found(53, 0, -1);
  }

  /** A stream with a ClientHello that was written and cannot be sent with all that follows. */
  method WriteBlocked(hello: seq<Byte>) returns (c: InitialCryptoStream)
    requires Search(hello).Found? && !Sendable(Search(hello))
    ensures fresh(c) && c.Blocked() && c.end == |hello| && c.written == hello && Log(c, [])
    ensures c.NotStarted() <==> NeverStarts(Search(hello))
  {
    SearchSound(hello);
    hide Search;
    c := new InitialCryptoStream(true);
    assert Concat([hello]) == hello;
    WriteParts(c, hello, [hello]);
    StartsLogged(c);
    StartOf(c, hello);
  }

  /** With an empty host name the ClientHello is sent, and nothing that is written behind it. */
  method EmptyNameRun(ops: seq<SendOp>, last: int) returns (c: InitialCryptoStream, frames: seq<CryptoFrame>)
    requires 11 <= last
    ensures c.written == EmptyNameHello() + Later(ops) && Log(c, frames) && c.Blocked() && c.HasData()
    ensures forall p: nat :: p in c.sent <==> p < |EmptyNameHello()|
  {
    hide Search, Sent;
    EmptyNameSearch();
    var hello := EmptyNameHello();
    c := WriteBlocked(hello);
    frames := BlockedForever(c, ops, []);
    frames := PopRest(c, last, frames, []);
    SentAtEnd(c, hello, frames);
  }

  /** A ClientHello with an ECH extension and without SNI. */
  function EchOnlyHello(): seq<Byte> {
    [1, 0, 0, 44] + seq(34, _ => 0) + [0, 0, 0, 0, 0, 4, 0xfe, 0x0d, 0, 0]
  }

  lemma EchOnlySearch()
    ensures Search(EchOnlyHello()) == Found(-1, 0, 44)
  {
    var d := EchOnlyHello();
    assert |d| == 48 && d[0] == 1 && d[1] == 0 && d[2] == 0 && d[3] == 44;
    assert d[38] == 0 && d[39] == 0 && d[40] == 0 && d[41] == 0 && d[42] == 0 && d[43] == 4;
    assert SkipVector(d, 38, 1) == Some(39);
    assert SkipVector(d, 39, 2) == Some(41);
    assert SkipVector(d, 41, 1) == Some(42);
    assert SkipVector(d, 42, 2) == Some(48);
    assert d[44] == 0xfe && d[45] == 0x0d && d[46] == 0 && d[47] == 0;
    assert ExtSearch(d, 48, 48, -1, 0, 44) == Found(-1, 0, 44);
  }

  /** With ECH and without SNI nothing is ever sent. */
  method EchOnlyRun(ops: seq<SendOp>) returns (c: InitialCryptoStream, frames: seq<CryptoFrame>)
    ensures c.written == EchOnlyHello() + Later(ops) && Log(c, frames) && c.Blocked() && !c.HasData()
    ensures c.sent == {}
  {
    hide Search, Sent;
    EchOnlySearch();
    c := WriteBlocked(EchOnlyHello());
    frames := BlockedForever(c, ops, []);
  }

  /** A ClientHello with no body at all is whole, but the search rejects it, and nothing is ever sent. */
  method EmptyBodyRun(ops: seq<SendOp>) returns (frames: seq<CryptoFrame>)
    ensures WholeClientHello([1, 0, 0, 0]) && Search([1, 0, 0, 0]) == UnexpectedEof && frames == []
  {
    var hello: seq<Byte> := [1, 0, 0, 0];
    assert Concat([hello]) == hello;
    assert Extensions(hello) == None;
    frames := SendHello(hello, [hello], ops, 11);
  }
}
