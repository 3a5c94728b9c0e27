/**
 * How a scrambled ClientHello is divided into frames: a first pass over everything but the cuts, and a second pass
 * over the cuts.
 */
module HelloPasses {
  import opened Protocol
  import opened Fragments
  import opened Sni
  import opened CryptoStreams

  function AsFragment(f: CryptoFrame): Fragment {
    Fragment(f.offset, |f.data|, None)
  }

  /** The fragments that the frames carry. */
  function Carried(frames: seq<CryptoFrame>): (fs: seq<Fragment>)
    ensures |fs| == |frames| && forall i :: 0 <= i < |fs| ==> fs[i] == AsFragment(frames[i])
  {
    seq(|frames|, i requires 0 <= i < |frames| => AsFragment(frames[i]))
  }

  /** A cut is skipped in the first pass, unless it begins with the message, or where an earlier cut ends or before. */
  predicate SkipsFirst(t: (Cut, Cut)) {
    0 < t.0.start
  }

  predicate SkipsSecond(t: (Cut, Cut)) {
    0 < t.1.start && (SkipsFirst(t) ==> t.0.end < t.1.start)
  }

  ghost predicate Skipped(t: (Cut, Cut), p: nat) {
    (SkipsFirst(t) && InCut(t.0, p)) || (SkipsSecond(t) && InCut(t.1, p))
  }

  /** Cuts in order, with the first one present. */
  ghost predicate CutsInOrder(t: (Cut, Cut)) {
    && Present(t.0) && t.0.start <= t.0.end
    && (Present(t.1) ==> t.0.start <= t.1.start <= t.1.end)
  }

  /** All that the frame carries lies in front of w and is not skipped. */
  ghost predicate Avoids(t: (Cut, Cut), f: CryptoFrame, w: nat) {
    forall p: nat :: Carries(AsFragment(f), p) ==> p < w && !Skipped(t, p)
  }

  /** The first pass has come to w: the frames carry exactly what lies in front of w and is not skipped, in order. */
  ghost predicate Passed(t: (Cut, Cut), frames: seq<CryptoFrame>, w: nat) {
    && (forall i :: 0 <= i < |frames| ==> Avoids(t, frames[i], w))
    && (forall p: nat :: p < w && !Skipped(t, p) ==> Sent(Carried(frames), p))
    && (forall i, j :: 0 <= i < j < |frames| ==> frames[i].offset + |frames[i].data| <= frames[j].offset)
    && (forall i :: 0 <= i < |frames| ==> frames[i].offset + |frames[i].data| <= w)
    && (SkipsFirst(t) ==> w < t.0.start || t.0.end <= w)
    && (SkipsSecond(t) ==> w < t.1.start || t.1.end <= w)
  }

  /** A frame of the second pass lies in one cut; behind it the data follows that was written later. */
  ghost predicate InSecondPass(t: (Cut, Cut), end: nat, f: CryptoFrame) {
    || (Present(t.0) && t.0.start <= f.offset && f.offset + |f.data| <= t.0.end)
    || (Present(t.1) && t.1.start <= f.offset && f.offset + |f.data| <= t.1.end)
    || end <= f.offset
  }

  /** The first k frames are the first pass over a ClientHello of end bytes, and it is complete. */
  ghost predicate InPasses(t: (Cut, Cut), end: nat, frames: seq<CryptoFrame>, k: nat) {
    && k <= |frames| && Passed(t, frames[..k], end)
    && forall i :: k <= i < |frames| ==> InSecondPass(t, end, frames[i])
  }

  // ---------------------------------------------------------------------------
  // One more frame
  // ---------------------------------------------------------------------------

  /** What the first pass sends next is not skipped, and it stops in front of the next cut. */
  lemma NextIsNotSkipped(t: (Cut, Cut), end: nat, w: nat, maxLen: int, f: CryptoFrame, w': nat, p: nat)
    requires CutsInOrder(t) && FirstPassFrame([t.0, t.1], end, w, maxLen, f, w') && w < end
    requires SkipsFirst(t) ==> w < t.0.start || t.0.end <= w
    requires SkipsSecond(t) ==> w < t.1.start || t.1.end <= w
    ensures w <= p < w + |f.data| ==> !Skipped(t, p) && p < w'
    ensures w + |f.data| <= p < w' ==> Skipped(t, p)
    ensures w + |f.data| <= w'
    ensures SkipsFirst(t) ==> w' < t.0.start || t.0.end <= w'
    ensures SkipsSecond(t) ==> w' < t.1.start || t.1.end <= w'
  {
    hide MaxDataLen;
  }

  lemma FirstPassStep(t: (Cut, Cut), end: nat, frames: seq<CryptoFrame>, w: nat, maxLen: int, f: CryptoFrame, w': nat)
    requires CutsInOrder(t) && Passed(t, frames, w) && FirstPassFrame([t.0, t.1], end, w, maxLen, f, w') && w < end
    ensures Passed(t, frames + [f], w')
  {
    hide Skipped, Sent, SkipsFirst, SkipsSecond, FirstPassFrame, MaxDataLen, CutsInOrder;
    var frames' := frames + [f];
    assert Carried(frames') == Carried(frames) + [AsFragment(f)];
    FrameBegins(t, end, w, maxLen, f, w');
    NextIsNotSkipped(t, end, w, maxLen, f, w', 0);
    forall p: nat | Carries(AsFragment(f), p)
      ensures p < w' && !Skipped(t, p)
    {
      NextIsNotSkipped(t, end, w, maxLen, f, w', p);
    }
    forall i | 0 <= i < |frames|
      ensures Avoids(t, frames'[i], w')
    {
      assert Avoids(t, frames[i], w);
    }
    forall p: nat | p < w' && !Skipped(t, p)
      ensures Sent(Carried(frames'), p)
    {
      NextIsNotSkipped(t, end, w, maxLen, f, w', p);
      SentSnoc(Carried(frames), AsFragment(f), p);
    }
  }

  lemma FrameBegins(t: (Cut, Cut), end: nat, w: nat, maxLen: int, f: CryptoFrame, w': nat)
    requires FirstPassFrame([t.0, t.1], end, w, maxLen, f, w')
    ensures f.offset == w
  {
  }

  /** The frames so far, when the stream has come to w: the first pass, and then the second. */
  ghost predicate Recorded(t: (Cut, Cut), end: nat, first: bool, w: nat, frames: seq<CryptoFrame>) {
    if first then Passed(t, frames, w) else exists k :: InPasses(t, end, frames, k)
  }

  lemma RecordFirst(t: (Cut, Cut), end: nat, frames: seq<CryptoFrame>, w: nat, maxLen: int, f: CryptoFrame, w': nat)
    requires CutsInOrder(t) && Recorded(t, end, true, w, frames) && w < end
    requires FirstPassFrame([t.0, t.1], end, w, maxLen, f, w') && w' <= end
    ensures Recorded(t, end, w' < end, w', frames + [f])
  {
    hide FirstPassFrame, Passed, CutsInOrder;
    FirstPassStep(t, end, frames, w, maxLen, f, w');
    if w' == end {
      var all := frames + [f];
      assert all[..|all|] == all;
      assert InPasses(t, end, all, |all|);
    }
  }

  lemma RecordSecond(t: (Cut, Cut), end: nat, frames: seq<CryptoFrame>, w: nat, f: CryptoFrame, w': nat)
    requires Recorded(t, end, false, w, frames) && InSecondPass(t, end, f)
    ensures Recorded(t, end, false, w', frames + [f])
  {
    hide Passed, InSecondPass;
    var k: nat :| InPasses(t, end, frames, k);
    assert (frames + [f])[..k] == frames[..k];
    assert InPasses(t, end, frames + [f], k);
  }

  /** What is left of a cut lies in the cut. */
  lemma CutFrameInSecondPass(r: SniResult, end: nat, cuts: seq<Cut>, maxLen: int, f: CryptoFrame)
    requires CutsLeft(r, end, cuts) && CutFrame(if Present(cuts[0]) then cuts[0] else cuts[1], maxLen, f)
    ensures InSecondPass(CutTable(r, end), end, f)
  {
    hide CutTable, MaxDataLen;
  }

  // ---------------------------------------------------------------------------
  // What the division is for
  // ---------------------------------------------------------------------------

  /** The search results with something to scramble, and with a first cut. */
  predicate Scrambles(r: SniResult) {
    r.Found? && !(r.sniPos == -1 && (r.echPos == -1 || r.sniLen <= 1))
  }

  lemma TableInOrder(data: seq<Byte>)
    requires Scrambles(Search(data))
    ensures CutsInOrder(CutTable(Search(data), |data|))
  {
    hide Search;
    SearchSound(data);
    CutTableOk(data, Search(data));
  }

  ghost predicate Both(f: CryptoFrame, p: nat, q: nat) {
    Carries(AsFragment(f), p) && Carries(AsFragment(f), q)
  }

  /** The cut for ECH reaches from in front of the host name to its end. */
  predicate EchCoversName(r: SniResult, end: nat)
    requires r.Found?
  {
    0 < r.echPos < r.sniPos && r.sniPos + r.sniLen <= Min(r.echPos + 17, end)
  }

  /** No frame carries the first and the last byte of the host name. */
  ghost predicate NameDivided(r: SniResult, frames: seq<CryptoFrame>)
    requires r.Found? && 0 <= r.sniPos && 0 < r.sniLen
  {
    forall i :: 0 <= i < |frames| ==> !Both(frames[i], r.sniPos, r.sniPos + r.sniLen - 1)
  }

  ghost predicate NameSplit(r: SniResult, end: nat, frames: seq<CryptoFrame>) {
    r.Found? && 0 <= r.sniPos && 2 <= r.sniLen && !EchCoversName(r, end) ==> NameDivided(r, frames)
  }

  /** What is taken for the second half of the name holds the type of the ECH extension. */
  predicate EchInName(r: SniResult)
    requires r.Found?
  {
    r.sniPos + r.sniLen / 2 <= r.echPos && r.echPos + 2 <= r.sniPos + r.sniLen
  }

  /** No frame carries both bytes of the type of the ECH extension. */
  ghost predicate EchDivided(r: SniResult, frames: seq<CryptoFrame>)
    requires r.Found? && 0 <= r.echPos
  {
    forall i :: 0 <= i < |frames| ==> !Both(frames[i], r.echPos, r.echPos + 1)
  }

  ghost predicate EchSplit(r: SniResult, frames: seq<CryptoFrame>) {
    r.Found? && 0 <= r.echPos && !EchInName(r) ==> EchDivided(r, frames)
  }

  /** Only the length of names that are no host names can be mistaken like that. */
  lemma EchInNoHostName(data: seq<Byte>)
    requires Search(data).Found? && EchInName(Search(data))
    ensures Search(data).sniPos == -1
  {
    hide Search;
    SearchSound(data);
    SearchApart(data);
  }

  lemma CarriesBetween(f: CryptoFrame, a: nat, b: nat, p: nat)
    ensures Both(f, a, b) && a <= p <= b ==> Carries(AsFragment(f), p)
  {
  }

  lemma FrameSplitsName(data: seq<Byte>, frames: seq<CryptoFrame>, k: nat, i: nat)
    requires var r := Search(data);
      && Scrambles(r) && InPasses(CutTable(r, |data|), |data|, frames, k)
      && 0 <= r.sniPos && 2 <= r.sniLen && !EchCoversName(r, |data|)
    requires i < |frames|
    ensures var r := Search(data); !Both(frames[i], r.sniPos, r.sniPos + r.sniLen - 1)
  {
    hide Search, Sent;
    SearchSound(data);
    CutTableOk(data, Search(data));
    var r, f := Search(data), frames[i];
    var pos, last, m, x: nat := r.sniPos, r.sniPos + r.sniLen - 1, r.sniPos + r.sniLen / 2, r.echPos + 1;
    CarriesBetween(f, pos, last, m);
    CarriesBetween(f, pos, last, x);
    if i < k {
      assert f == frames[..k][i];
      assert Avoids(CutTable(r, |data|), f, |data|);
    } else {
      assert InSecondPass(CutTable(r, |data|), |data|, f);
    }
  }

  lemma FrameSplitsEch(data: seq<Byte>, frames: seq<CryptoFrame>, k: nat, i: nat)
    requires var r := Search(data);
      && Scrambles(r) && InPasses(CutTable(r, |data|), |data|, frames, k)
      && 0 <= r.echPos && !EchInName(r)
    requires i < |frames|
    ensures var r := Search(data); !Both(frames[i], r.echPos, r.echPos + 1)
  {
    hide Search, Sent;
    SearchSound(data);
    CutTableOk(data, Search(data));
    var r, f := Search(data), frames[i];
    if i < k {
      assert f == frames[..k][i];
      assert Avoids(CutTable(r, |data|), f, |data|);
    } else {
      assert InSecondPass(CutTable(r, |data|), |data|, f);
    }
  }

  /** Scrambling splits the host name and the ECH type over frames. */
  lemma PassesSplit(data: seq<Byte>, frames: seq<CryptoFrame>, k: nat)
    requires Scrambles(Search(data)) && InPasses(CutTable(Search(data), |data|), |data|, frames, k)
    ensures NameSplit(Search(data), |data|, frames) && EchSplit(Search(data), frames)
  {
    hide Search, InPasses, Both;
    var r := Search(data);
    if 0 <= r.sniPos && 2 <= r.sniLen && !EchCoversName(r, |data|) {
      forall i | 0 <= i < |frames|
        ensures !Both(frames[i], r.sniPos, r.sniPos + r.sniLen - 1)
      {
        FrameSplitsName(data, frames, k, i);
      }
    }
    if 0 <= r.echPos && !EchInName(r) {
      forall i | 0 <= i < |frames|
        ensures !Both(frames[i], r.echPos, r.echPos + 1)
      {
        FrameSplitsEch(data, frames, k, i);
      }
    }
  }

  /** The second half of the host name is not sent in the first pass, unless the cut for ECH reaches its beginning. */
  lemma SecondHalfLater(data: seq<Byte>, frames: seq<CryptoFrame>, k: nat, i: nat, p: nat)
    requires var r := Search(data);
      && Scrambles(r) && InPasses(CutTable(r, |data|), |data|, frames, k) && 0 <= r.sniPos
      && !(0 < r.echPos < r.sniPos + r.sniLen / 2 <= Min(r.echPos + 17, |data|))
      && r.sniPos + r.sniLen / 2 <= p < r.sniPos + r.sniLen
    requires i < k
    ensures i < |frames| && !Carries(AsFragment(frames[i]), p)
  {
    hide Search, Sent;
    SearchSound(data);
    CutTableOk(data, Search(data));
    assert frames[i] == frames[..k][i];
    assert Avoids(CutTable(Search(data), |data|), frames[i], |data|);
  }
}
