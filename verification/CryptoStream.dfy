/** Sending the CRYPTO stream, with ClientHello scrambling (quicfork/crypto_stream.go). */
module CryptoStreams {
  import opened Protocol
  import opened Sni

  datatype CryptoFrame = CryptoFrame(offset: nat, data: seq<Byte>)

  /** A part of the ClientHello that is sent last. Absent if start is INVALID_BYTE_COUNT. */
  datatype Cut = Cut(start: int, end: int)

  const NO_CUT := Cut(INVALID_BYTE_COUNT, INVALID_BYTE_COUNT)

  // ---------------------------------------------------------------------------
  // Frame sizes
  // ---------------------------------------------------------------------------

  /** Bytes that a QUIC variable-length integer takes. */
  function VarintLen(n: nat): nat {
    if n < 64 then 1 else if n < 16384 then 2 else if n < 0x4000_0000 then 4 else 8
  }

  /** The shortest length that holds n in all bits but two (section 16 of RFC 9000). */
  lemma VarintLenIsShortest(n: nat)
    requires n < 0x4000_0000_0000_0000
    ensures match VarintLen(n)
            case 1 => n < 0x40
            case 2 => 0x40 <= n < 0x4000
            case 4 => 0x4000 <= n < 0x4000_0000
            case _ => VarintLen(n) == 8 && 0x4000_0000 <= n
  {
  }

  /** The encoded length of a CRYPTO frame. */
  function FrameLen(offset: nat, n: nat): nat {
    1 + VarintLen(offset) + VarintLen(n) + n
  }

  function MaxDataLen(offset: nat, maxSize: int): nat {
    var headerLen := 1 + VarintLen(offset) + 1;
    if headerLen > maxSize then 0
    else
      var n := maxSize - headerLen;
      if VarintLen(n) != 1 then n - 1 else n
  }

  /** A frame with that much data fits if and only if its length field takes at most two bytes. */
  lemma MaxDataLenFits(offset: nat, maxSize: int)
    requires MaxDataLen(offset, maxSize) > 0
    ensures FrameLen(offset, MaxDataLen(offset, maxSize)) <= maxSize <==> maxSize <= 16386 + VarintLen(offset)
    ensures maxSize <= 16386 + VarintLen(offset) <==> MaxDataLen(offset, maxSize) < 16384
  {
  }

  /** No frame with more data fits. */
  lemma MaxDataLenIsLargest(offset: nat, maxSize: int, n: nat)
    requires MaxDataLen(offset, maxSize) < n
    ensures maxSize < FrameLen(offset, n)
  {
  }

  /** The smallest limit that a frame does not keep to, at offset 0. */
  lemma LongFrame()
    ensures MaxDataLen(0, 16388) == 16384 && FrameLen(0, 16384) == 16390
  {
  }

  /** Eleven bytes are enough for a frame with one byte of data. */
  lemma RoomForOne(offset: nat, maxSize: int)
    requires 11 <= maxSize
    ensures MaxDataLen(offset, maxSize) > 0
  {
  }

  // ---------------------------------------------------------------------------
  // Cuts
  // ---------------------------------------------------------------------------

  predicate Present(c: Cut) {
    c.start != INVALID_BYTE_COUNT
  }

  ghost predicate InCut(c: Cut, p: nat) {
    Present(c) && c.start <= p < c.end
  }

  function CutLen(c: Cut): int {
    if Present(c) then c.end - c.start else 0
  }

  ghost predicate CutOk(c: Cut, end: int) {
    Present(c) ==> 0 <= c.start <= c.end <= end
  }

  /** The comparison of the cut sort, as a "less" test. */
  predicate Before(a: Cut, b: Cut) {
    Present(a) && a.start <= b.start
  }

  /** The cut table for a search result: the second half of the host name, and 16 bytes from inside the ECH type on. */
  function CutTable(r: SniResult, end: nat): (Cut, Cut)
    requires r.Found?
  {
    var sni := Cut(r.sniPos + r.sniLen / 2, r.sniPos + r.sniLen);
    var ech := if r.echPos > 0 then Cut(r.echPos + 1, Min(r.echPos + 17, end)) else NO_CUT;
    if Before(ech, sni) then (ech, sni) else (sni, ech)
  }

  /**
   * The search results for which both cuts are usable. It excludes exactly an empty name, and a name list
   * without host name whose last name has at most one byte.
   */
  predicate Scramblable(r: SniResult) {
    r.Found? && r.sniLen >= 1 && r.sniPos + r.sniLen / 2 >= 0
  }

  /**
   * The search results for which at least the ClientHello itself is sent: besides those without an unusable cut, an
   * empty host name that is not followed by an ECH extension.
   */
  predicate HelloGoesOut(r: SniResult) {
    r.Found? &&
    (Scramblable(r) || (r.sniPos == -1 && r.echPos == -1) ||
     (r.sniPos != -1 && r.sniLen == 0 && r.echPos < r.sniPos))
  }

  ghost predicate EmptyCut(c: Cut) {
    Present(c) && c.start == c.end
  }

  /** The cut begins inside the name, behind its first byte, and ends with it. */
  ghost predicate CutsName(c: Cut, r: SniResult)
    requires r.Found?
  {
    r.sniPos < c.start < c.end == r.sniPos + r.sniLen
  }

  /**
   * The cuts lie in the data; they are non-empty, with the first one present, exactly if the result is scramblable. One
   * divides the name, and one the type of the ECH extension.
   */
  lemma CutTableOk(data: seq<Byte>, r: SniResult)
    requires r == Search(data) && r.Found?
    ensures var (c0, c1) := CutTable(r, |data|);
      && CutOk(c0, |data|) && CutOk(c1, |data|)
      && (Scramblable(r) <==> Present(c0) && c0.start < c0.end && (Present(c1) ==> c1.start < c1.end))
      && (!Present(c0) ==> !Scramblable(r))
      && (EmptyCut(c0) && Present(c1) ==> c0.start < c1.start < c1.end)
      && (EmptyCut(c1) ==> Present(c0) && !EmptyCut(c0))
      && (r.sniPos != -1 || r.echPos != -1 ==>
            && (Present(c0) || Present(c1))
            && (HelloGoesOut(r) <==> Present(c0) && !(EmptyCut(c0) && Present(c1))))
      && (0 <= r.sniPos && 2 <= r.sniLen ==> CutsName(c0, r) || CutsName(c1, r))
      && (r.echPos != -1 ==> c0.start == r.echPos + 1 || c1.start == r.echPos + 1)
    ensures WholeClientHello(data) && 0 < |data|
  {
    SearchSound(data);
  }

  /** A finished ClientHello followed by more data no longer parses. */
  lemma LongerIsNoHello(data: seq<Byte>, end: nat)
    requires end < |data| && WholeClientHello(data[..end])
    ensures Search(data) == UnexpectedEof
  {
    assert data[..end][0] == data[0] && data[..end][1] == data[1];
    assert data[..end][2] == data[2] && data[..end][3] == data[3];
  }

  predicate InRange(p: nat, a: nat, b: nat) {
    a <= p < b
  }

  /** The offsets of a frame. */
  ghost function Range(a: nat, b: nat): (r: set<nat>)
    ensures forall p: nat :: p in r <==> a <= p < b
  {
    set p: nat | p < b && InRange(p, a, b)
  }

  /** f took its bytes from the front of cut k. */
  ghost predicate Trimmed(cuts: seq<Cut>, cuts': seq<Cut>, k: nat, f: CryptoFrame) {
    && |cuts| == 2 && k < 2
    && Present(cuts[k]) && f.offset == cuts[k].start < f.offset + |f.data| <= cuts[k].end
    && cuts' == cuts[k := if f.offset + |f.data| == cuts[k].end then NO_CUT else Cut(f.offset + |f.data|, cuts[k].end)]
  }

  /** The first cut behind w. */
  ghost function NextCutOf(cuts: seq<Cut>, w: nat): Cut
    requires |cuts| == 2
  {
    if Present(cuts[0]) && w < cuts[0].start then cuts[0]
    else if Present(cuts[1]) && w < cuts[1].start then cuts[1]
    else NO_CUT
  }

  /** The first pass goes on from w: as much as the limit, the next cut or the ClientHello allows; a cut that is reached is skipped. */
  ghost predicate FirstPassFrame(cuts: seq<Cut>, end: int, w: nat, maxLen: int, f: CryptoFrame, w': nat)
    requires |cuts| == 2
  {
    var c := NextCutOf(cuts, w);
    && f.offset == w
    && |f.data| == Min(MaxDataLen(w, maxLen), (if Present(c) then c.start else end) - w)
    && w' == if w + |f.data| == c.start then c.end else w + |f.data|
  }

  /** As much of a cut as the limit allows. */
  ghost predicate CutFrame(c: Cut, maxLen: int, f: CryptoFrame) {
    Present(c) && f.offset == c.start && |f.data| == Min(MaxDataLen(f.offset, maxLen), c.end - c.start)
  }

  /** An empty first cut keeps the second one from being sent. */
  ghost predicate HeldBack(cuts: seq<Cut>, writeOffset: nat, sent: set<nat>) {
    |cuts| == 2 &&
    (EmptyCut(cuts[0]) && Present(cuts[1]) ==>
       && 0 <= cuts[0].start < cuts[1].start
       && (writeOffset < cuts[1].start || cuts[1].end <= writeOffset)
       && forall p: nat :: InCut(cuts[1], p) ==> p !in sent)
  }

  /** c is what is left of the cut t. */
  ghost predicate LeftOf(c: Cut, t: Cut) {
    Present(c) ==> Present(t) && t.start <= c.start <= c.end == t.end && (EmptyCut(c) ==> EmptyCut(t))
  }

  /** The cuts are what is left of the cut table. An empty cut is always left. */
  ghost predicate CutsLeft(r: SniResult, end: int, cuts: seq<Cut>) {
    && r.Found? && |cuts| == 2 && 0 <= end
    && !(r.sniPos == -1 && r.echPos == -1)
    && LeftOf(cuts[0], CutTable(r, end).0)
    && LeftOf(cuts[1], CutTable(r, end).1)
    && (EmptyCut(CutTable(r, end).0) ==> cuts[0] == CutTable(r, end).0 && cuts[1] == CutTable(r, end).1)
    && (EmptyCut(CutTable(r, end).1) ==> cuts[1] == CutTable(r, end).1)
  }

  /** The sending side of the stream for Initial packets. */
  class InitialCryptoStream {
    var writeOffset: nat
    var writeBuf: seq<Byte>
    var scramble: bool
    var end: int
    var cuts: seq<Cut>
    /** Everything that was ever written. */
    ghost var written: seq<Byte>
    /** The offsets of all bytes that were sent. */
    ghost var sent: set<nat>

    /** No whole ClientHello was written yet. */
    ghost predicate Waiting()
      reads this
    {
      && scramble && cuts == [NO_CUT, NO_CUT]
      && end == 0 && writeOffset == 0 && writeBuf == written && sent == {}
    }

    /** The ClientHello written[..end] is being sent with cuts. */
    ghost predicate Scrambling()
      reads this
    {
      && scramble && |cuts| == 2
      && 0 < end <= |written| && writeOffset <= end && writeBuf == written
      && CutOk(cuts[0], end) && CutOk(cuts[1], end)
      && (Present(cuts[0]) || Present(cuts[1]))
      && (forall p :: p in sent ==> p < end)
      && (forall p: nat :: p < writeOffset ==> p in sent || InCut(cuts[0], p) || InCut(cuts[1], p))
      && WholeClientHello(written[..end]) && Search(written[..end]).Found?
      && CutsLeft(Search(written[..end]), end, cuts)
      && (writeOffset < end ==> (cuts[0], cuts[1]) == CutTable(Search(written[..end]), end))
      && (writeOffset == 0 ==> sent == {})
      && HeldBack(cuts, writeOffset, sent)
    }

    /** Data is sent in order. */
    ghost predicate Plain()
      reads this
    {
      && !scramble && |cuts| == 2
      && writeOffset <= |written| && writeBuf == written[writeOffset..]
      && sent == Range(0, writeOffset)
    }

    ghost predicate Valid()
      reads this
    {
      Waiting() || Scrambling() || Plain()
    }

    constructor (scramble: bool)
      ensures written == [] && sent == {}
      ensures if scramble then Waiting() else Plain()
    {
      this.scramble := scramble;
      writeOffset, writeBuf, end := 0, [], 0;
      cuts := [NO_CUT, NO_CUT];
      written, sent := [], {};
    }

    predicate HasData()
      requires |cuts| == 2
      reads this
    {
      !(scramble && writeOffset == 0 && !Present(cuts[0])) && |writeBuf| > 0
    }

    /** Without the first cut nothing is started. */
    ghost predicate NotStarted()
      reads this
    {
      Scrambling() && writeOffset == 0 && !Present(cuts[0])
    }

    /** An empty cut is never finished. */
    ghost predicate Blocked()
      reads this
    {
      NotStarted() || (Scrambling() && (EmptyCut(cuts[0]) || EmptyCut(cuts[1])))
    }

    /** Everything but the cuts was sent, and the next cut is empty. */
    ghost predicate Stuck()
      reads this
    {
      Scrambling() && writeOffset == end && (EmptyCut(cuts[0]) || (!Present(cuts[0]) && EmptyCut(cuts[1])))
    }

    /** What is still to be sent: the first pass, the cuts, and what follows the ClientHello. */
    ghost function ToSend(): nat
      requires Valid()
      reads this
    {
      if Scrambling() then |written| - writeOffset + CutLen(cuts[0]) + CutLen(cuts[1])
      else |writeBuf|
    }

    method Write(p: seq<Byte>) returns (ok: bool)
      requires Valid()
      modifies this`writeBuf, this`scramble, this`end, this`cuts, this`written
      ensures Valid() && written == old(written) + p
      ensures old(Plain()) ==> ok && Plain()
      ensures old(Scrambling()) ==> ok && Scrambling() && end == old(end)
      ensures old(Scrambling()) && (p != [] || Present(old(cuts)[0]) || writeOffset < end) ==> cuts == old(cuts)
      ensures old(Scrambling()) ==> (Blocked() <==> old(Blocked()))
      ensures old(Waiting()) ==>
              match Search(written)
              case UnexpectedEof => ok && Waiting()
              case Malformed => !ok && Waiting()
              case Found(sniPos, _, echPos) =>
                ok && if sniPos == -1 && echPos == -1 then Plain()
                      else Scrambling() && end == |written| && (Blocked() <==> !Scramblable(Search(written)))
    {
      hide Search, WholeClientHello, CutTable, CutsLeft, HeldBack, CutOk;
      writeBuf := writeBuf + p;
      written := written + p;
      if !scramble {
        return true;
      }
      assert old(Scrambling()) ==> written[..end] == old(written)[..end];
      if !Present(cuts[0]) {
        var r := FindSniAndEch(writeBuf);
        if old(Scrambling()) {
          if end < |writeBuf| {
            LongerIsNoHello(writeBuf, end);
          } else {
            assert written[..end] == writeBuf;
            CutsToPlace(r, end, cuts);
          }
        }
        if r == UnexpectedEof {
          return true;
        }
        if r == Malformed {
          return false;
        }
        if r.sniPos == -1 && r.echPos == -1 {
          scramble := false;
          return true;
        }
        assert writeBuf == writeBuf[..|writeBuf|];
        if r.echPos <= 0 {
          SecondCut(r, |writeBuf|);
        }
        end := |writeBuf|;
        PlaceCuts(r);
        PlacedCuts(writeBuf, r, cuts, writeOffset, sent);
      }
      return true;
    }

    /** The frame is a part of what was written, not empty, and no larger than allowed. */
    ghost predicate Carries(f: CryptoFrame, maxLen: int)
      reads this
    {
      && 0 < |f.data| <= MaxDataLen(f.offset, maxLen)
      && f.offset + |f.data| <= |written|
      && f.data == written[f.offset..f.offset + |f.data|]
    }

    /** The base stream: the next bytes in order. */
    method PopInOrder(maxLen: int) returns (f: Option<CryptoFrame>)
      requires Plain()
      modifies this`writeBuf, this`writeOffset, this`sent
      ensures Plain() && old(writeOffset) <= writeOffset
      ensures f.None? ==> writeOffset == old(writeOffset) && (writeBuf == [] || MaxDataLen(writeOffset, maxLen) == 0)
      ensures f.Some? ==> && Carries(f.value, maxLen) && f.value.offset == old(writeOffset)
                          && |f.value.data| == Min(MaxDataLen(old(writeOffset), maxLen), old(|writeBuf|))
                          && sent == old(sent) + Range(f.value.offset, f.value.offset + |f.value.data|)
                          && |writeBuf| < old(|writeBuf|)
    {
      var n := Min(MaxDataLen(writeOffset, maxLen), |writeBuf|);
      if n <= 0 {
        return None;
      }
      f := Some(CryptoFrame(writeOffset, writeBuf[..n]));
      sent := sent + Range(writeOffset, writeOffset + n);
      writeBuf := writeBuf[n..];
      writeOffset := writeOffset + n;
    }

    /** The first cut behind the write offset. */
    method NextCut() returns (c: Cut)
      requires |cuts| == 2
      ensures c == NextCutOf(cuts, writeOffset)
    {
      c := NO_CUT;
      var i := 0;
      while i < 2
        invariant i <= 2 && c == NO_CUT
        invariant forall k :: 0 <= k < i ==> !(Present(cuts[k]) && writeOffset < cuts[k].start)
      {
        if Present(cuts[i]) && cuts[i].start > writeOffset {
          return cuts[i];
        }
        i := i + 1;
      }
    }

    /** The first pass: up to the next cut, which is then skipped. */
    method PopFirstPass(maxLen: int) returns (f: Option<CryptoFrame>)
      requires Scrambling() && writeOffset < end
      modifies this`writeOffset, this`sent
      ensures Scrambling() && old(writeOffset) <= writeOffset
      ensures f.None? ==> writeOffset == old(writeOffset) && sent == old(sent) && MaxDataLen(writeOffset, maxLen) == 0
      ensures f.Some? ==> && Carries(f.value, maxLen)
                          && FirstPassFrame(cuts, end, old(writeOffset), maxLen, f.value, writeOffset)
                          && sent == old(sent) + Range(f.value.offset, f.value.offset + |f.value.data|)
                          && old(writeOffset) < writeOffset
    {
      hide Search, WholeClientHello, CutTable;
      var nextCut := NextCut();
      var maxOffset := nextCut.start;
      if maxOffset == INVALID_BYTE_COUNT {
        maxOffset := end;
      }
      var n := Min(MaxDataLen(writeOffset, maxLen), maxOffset - writeOffset);
      if n <= 0 {
        return None;
      }
      f := Some(CryptoFrame(writeOffset, writeBuf[writeOffset..writeOffset + n]));
      sent := sent + Range(writeOffset, writeOffset + n);
      writeOffset := writeOffset + n;
      if writeOffset == nextCut.start {
        writeOffset := nextCut.end;
      }
    }

    /** Sends from the front of cut i, which is absent when all of it was sent. */
    method TrimCut(i: nat, maxLen: int) returns (f: Option<CryptoFrame>)
      requires |cuts| == 2 && i < 2 && writeBuf == written && Present(cuts[i]) && CutOk(cuts[i], |written|)
      modifies this`cuts, this`sent
      ensures f.None? ==> && cuts == old(cuts) && sent == old(sent)
                          && (EmptyCut(cuts[i]) || MaxDataLen(cuts[i].start, maxLen) == 0)
      ensures f.Some? ==> && Carries(f.value, maxLen) && Trimmed(old(cuts), cuts, i, f.value)
                          && CutFrame(old(cuts)[i], maxLen, f.value)
                          && sent == old(sent) + Range(f.value.offset, f.value.offset + |f.value.data|)
    {
      var c := cuts[i];
      var n := Min(MaxDataLen(c.start, maxLen), c.end - c.start);
      if n <= 0 {
        return None;
      }
      f := Some(CryptoFrame(c.start, writeBuf[c.start..c.start + n]));
      sent := sent + Range(c.start, c.start + n);
      cuts := cuts[i := Cut(c.start + n, c.end)];
      if cuts[i].start == c.end {
        cuts := cuts[i := NO_CUT];
      }
    }

    /** The loop of the second pass: sends from the first cut that is left, and tells whether any is left then. */
    method SendCut(maxLen: int) returns (f: Option<CryptoFrame>, foundCuts: bool, ghost k: nat)
      requires |cuts| == 2 && writeBuf == written && CutOk(cuts[0], |written|) && CutOk(cuts[1], |written|)
      requires Present(cuts[0]) || Present(cuts[1])
      modifies this`cuts, this`sent
      ensures forall m :: 0 <= m < k < 2 ==> !Present(old(cuts)[m])
      ensures f.None? ==> && foundCuts && cuts == old(cuts) && sent == old(sent)
                          && k < 2 && Present(cuts[k])
                          && (EmptyCut(cuts[k]) || MaxDataLen(cuts[k].start, maxLen) == 0)
      ensures f.Some? ==> && Carries(f.value, maxLen) && Trimmed(old(cuts), cuts, k, f.value)
                          && CutFrame(old(cuts)[k], maxLen, f.value)
                          && sent == old(sent) + Range(f.value.offset, f.value.offset + |f.value.data|)
                          && (foundCuts <==> Present(cuts[0]) || Present(cuts[1]))
    {
      hide MaxDataLen;
      foundCuts, f, k := false, None, 0;
      ghost var cuts0, sent0 := cuts, sent;
      var i := 0;
      while i < 2
        invariant i <= 2 && |cuts| == 2
        invariant f.None? ==> !foundCuts && cuts == cuts0 && sent == sent0 && (forall m :: 0 <= m < i ==> !Present(cuts0[m]))
        invariant f.Some? ==> && k < i && Carries(f.value, maxLen) && Trimmed(cuts0, cuts, k, f.value)
                              && CutFrame(cuts0[k], maxLen, f.value)
                              && (forall m :: 0 <= m < i && m != k ==> !Present(cuts0[m]))
                              && sent == sent0 + Range(f.value.offset, f.value.offset + |f.value.data|)
                              && (foundCuts <==> Present(cuts[k]))
      {
        if Present(cuts[i]) {
          foundCuts := true;
          if f.Some? {
            break;
          }
          k := i;
          f := TrimCut(i, maxLen);
          if f.None? {
            return;
          }
          foundCuts := Present(cuts[i]);
        }
        i := i + 1;
      }
    }

    /** The second pass: the rest of the first cut that is left. With the last one scrambling ends. */
    method PopCut(maxLen: int) returns (f: Option<CryptoFrame>)
      requires Scrambling() && writeOffset == end
      modifies this`writeBuf, this`scramble, this`end, this`cuts, this`sent
      ensures if scramble then Scrambling() && end == old(end) else Plain() && end == INVALID_BYTE_COUNT
      ensures f.None? ==> && scramble && cuts == old(cuts) && sent == old(sent)
                          && (Stuck() || exists o: nat :: MaxDataLen(o, maxLen) == 0)
      ensures f.Some? ==> && Carries(f.value, maxLen)
                          && CutFrame(old(if Present(cuts[0]) then cuts[0] else cuts[1]), maxLen, f.value)
                          && sent == old(sent) + Range(f.value.offset, f.value.offset + |f.value.data|)
                          && (scramble ==> CutLen(cuts[0]) + CutLen(cuts[1]) < old(CutLen(cuts[0]) + CutLen(cuts[1])))
      ensures old(Blocked()) <==> Blocked()
    {
      hide Search, WholeClientHello, CutTable, MaxDataLen;
      var foundCuts;
      ghost var k;
      f, foundCuts, k := SendCut(maxLen);
      if f.Some? {
        forall p: nat
          ensures InCut(old(cuts)[k], p) ==> InCut(cuts[k], p) || p in sent
        {
        }
      }
      if !foundCuts {
        assert forall p: nat :: p < writeOffset ==> p in sent;
        writeBuf := writeBuf[end..];
        end := INVALID_BYTE_COUNT;
        scramble := false;
        assert sent == Range(0, writeOffset);
      }
    }

    /**
     * PopCryptoFrame. Every frame carries written bytes at their offset and brings sending closer to its end;
     * with room for one byte there is a frame whenever there is data, unless the stream is blocked.
     */
    method PopCryptoFrame(maxLen: int) returns (f: Option<CryptoFrame>)
      requires Valid()
      modifies this`writeBuf, this`writeOffset, this`scramble, this`end, this`cuts, this`sent
      ensures Valid()
      ensures f.None? ==> sent == old(sent) && ToSend() == old(ToSend())
      ensures f.Some? ==> && Carries(f.value, maxLen)
                          && sent == old(sent) + Range(f.value.offset, f.value.offset + |f.value.data|)
                          && ToSend() < old(ToSend())
      ensures 11 <= maxLen && old(HasData()) && f.None? ==> Stuck()
      ensures old(Scrambling()) && f.None? ==> scramble && writeOffset == old(writeOffset) && cuts == old(cuts)
      ensures old(Scrambling()) && f.Some? ==> writeOffset > 0
      ensures !old(Blocked()) ==> !Blocked()
      ensures old(Blocked()) && old(HasData()) ==> Blocked() && end == old(end)
      ensures old(Plain()) ==> Plain() && old(writeOffset) <= writeOffset && (f.None? ==> writeOffset == old(writeOffset))
      ensures old(Waiting()) ==> Plain() && f.None?
      ensures old(Scrambling()) ==> if scramble then Scrambling() && end == old(end) else Plain() && writeOffset == old(end)
      ensures old(Plain()) && f.Some? ==>
              && f.value.offset == old(writeOffset)
              && |f.value.data| == Min(MaxDataLen(f.value.offset, maxLen), old(|writeBuf|))
      ensures old(Scrambling() && writeOffset < end) ==> scramble && cuts == old(cuts)
      ensures old(Scrambling() && writeOffset < end) && f.Some? ==>
              FirstPassFrame(cuts, end, old(writeOffset), maxLen, f.value, writeOffset)
      ensures old(Scrambling() && writeOffset == end) ==> writeOffset == old(writeOffset)
      ensures old(Scrambling() && writeOffset == end) && f.Some? ==>
              CutFrame(old(if Present(cuts[0]) then cuts[0] else cuts[1]), maxLen, f.value)
    {
      hide Search, WholeClientHello, CutTable, MaxDataLen;
      if 11 <= maxLen {
        forall o: nat {
          RoomForOne(o, maxLen);
        }
      }
      if !scramble {
        f := PopInOrder(maxLen);
        return;
      }
      if writeOffset == end {
        if !Present(cuts[0]) && !Present(cuts[1]) {
          // no whole ClientHello was written yet, and there are no cuts
          writeBuf := writeBuf[end..];
          end := INVALID_BYTE_COUNT;
          scramble := false;
          return None;
        }
        f := PopCut(maxLen);
        return;
      }
      f := PopFirstPass(maxLen);
    }

    /** Fills the cut table and sorts it. */
    method PlaceCuts(r: SniResult)
      requires r.Found? && |cuts| == 2 && 0 <= end
      requires r.echPos <= 0 ==> cuts[1] == NO_CUT
      modifies this`cuts
      ensures |cuts| == 2 && cuts[0] == CutTable(r, end).0 && cuts[1] == CutTable(r, end).1
    {
      cuts := cuts[0 := Cut(r.sniPos + r.sniLen / 2, r.sniPos + r.sniLen)];
      if r.echPos > 0 {
        var start := r.echPos + 1;
        cuts := cuts[1 := Cut(start, Min(start + 16, end))];
      }
      if Before(cuts[1], cuts[0]) {
        cuts := [cuts[1], cuts[0]];
      }
    }
  }

  /** The cut table before it is filled again. */
  lemma CutsToPlace(r: SniResult, end: int, cuts: seq<Cut>)
    requires CutsLeft(r, end, cuts) && !Present(cuts[0]) && Present(cuts[1])
    ensures !EmptyCut(CutTable(r, end).0) && (EmptyCut(cuts[1]) <==> EmptyCut(CutTable(r, end).1))
    ensures r.echPos > 0 && forall p: nat :: InCut(cuts[1], p) ==> InCut(CutTable(r, end).1, p)
  {
  }

  /** The cut table after it is filled, for the first time or again. */
  lemma PlacedCuts(data: seq<Byte>, r: SniResult, cuts: seq<Cut>, writeOffset: nat, sent: set<nat>)
    requires r == Search(data) && r.Found? && !(r.sniPos == -1 && r.echPos == -1)
    requires |cuts| == 2 && (cuts[0], cuts[1]) == CutTable(r, |data|)
    requires (writeOffset == 0 && sent == {}) || !EmptyCut(cuts[0])
    ensures WholeClientHello(data) && 0 < |data|
    ensures CutOk(cuts[0], |data|) && CutOk(cuts[1], |data|) && (Present(cuts[0]) || Present(cuts[1]))
    ensures CutsLeft(r, |data|, cuts) && HeldBack(cuts, writeOffset, sent)
    ensures Scramblable(r) <==> Present(cuts[0]) && !EmptyCut(cuts[0]) && !EmptyCut(cuts[1])
  {
    hide Search, WholeClientHello;
    CutTableOk(data, r);
  }

  lemma SecondCut(r: SniResult, end: nat)
    requires r.Found? && r.echPos <= 0
    ensures CutTable(r, end).1 == NO_CUT
  {
  }

  /** A stuck stream has sent all of the ClientHello if and only if the search result lets it go out. */
  lemma StuckHasSent(c: InitialCryptoStream)
    requires c.Stuck()
    ensures (forall p: nat :: p < c.end ==> p in c.sent) <==> HelloGoesOut(Search(c.written[..c.end]))
    ensures c.Blocked()
  {
    hide Search, WholeClientHello;
    var r := Search(c.written[..c.end]);
    CutTableOk(c.written[..c.end], r);
    if EmptyCut(c.cuts[0]) && Present(c.cuts[1]) {
      assert InCut(c.cuts[1], c.cuts[1].start);
    }
  }
}
