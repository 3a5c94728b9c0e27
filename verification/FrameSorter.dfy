/** Stream reassembly (quicfork/frame_sorter.go). */
module FrameSorting {
  import opened Protocol
  import opened Fragments
  import opened Tiling

  /** Panic stands for the "no gap found" panics of the gap searches. */
  datatype PushResult = Ok | Duplicate | TooManyGaps | Panic

  // ---------------------------------------------------------------------------
  // Callbacks
  // ---------------------------------------------------------------------------

  ghost function Holders(q: Queue, c: nat): set<nat> {
    set k | k in q && q[k].doneCb == Some(c)
  }

  /** How often callback c waits in the queue. */
  ghost function Pending(q: Queue, c: nat): nat {
    |Holders(q, c)|
  }

  lemma PendingRemove(q: Queue, k: nat, c: nat)
    requires k in q
    ensures Pending(q, c) == Pending(q - {k}, c) + One(q[k].doneCb, c)
  {
    if q[k].doneCb == Some(c) {
      assert Holders(q, c) == Holders(q - {k}, c) + {k};
    } else {
      assert Holders(q, c) == Holders(q - {k}, c);
    }
  }

  lemma PendingAdd(q: Queue, k: nat, x: Entry, c: nat)
    requires k !in q
    ensures Pending(q[k := x], c) == Pending(q, c) + One(x.doneCb, c)
  {
    assert q[k := x] - {k} == q;
    PendingRemove(q[k := x], k, c);
  }

  /** The callbacks that wait in q or were called (rel). */
  ghost function Account(q: Queue, rel: multiset<nat>, c: nat): nat {
    Pending(q, c) + rel[c]
  }

  function Call(rel: multiset<nat>, cb: Option<nat>): multiset<nat> {
    match cb
    case None => rel
    case Some(c) => rel[c := rel[c] + 1]
  }

  // ---------------------------------------------------------------------------
  // Runs of consecutive entries
  // ---------------------------------------------------------------------------

  /** From a on, either nothing starts before b, or entries fill [a, b); b itself is free. */
  ghost predicate Stretch(q: Queue, a: nat, b: nat) {
    && a <= b && b !in q
    && (a in q ==> Segment(q, a, b))
    && (a !in q ==> forall k :: k in q ==> !(a <= k < b))
  }

  lemma RemoveNone(q: Queue, a: nat)
    ensures RemoveRange(q, a, a) == q
  {
  }

  /** Deleting one more entry of a run. */
  lemma RemoveStep(q: Queue, a: nat, pos: nat, b: nat)
    requires Segment(q, a, b) && a <= pos < b && pos in q
    ensures RemoveRange(q, a, pos) - {pos} == RemoveRange(q, a, EndOf(q, pos))
  {
    assert forall k :: k in q && pos < k < b ==> EndOf(q, pos) <= k;
  }

  /** The next entry of a stretch whose entries in front of pos are gone. */
  lemma StretchStep(q: Queue, a: nat, pos: nat, b: nat)
    requires Stretch(q, a, b) && a in q && a <= pos <= b && pos in RemoveRange(q, a, pos)
    ensures pos in q && RemoveRange(q, a, pos)[pos] == q[pos] && pos < EndOf(q, pos) <= b
    ensures EndOf(q, pos) == b || EndOf(q, pos) in q
    ensures RemoveRange(q, a, pos) - {pos} == RemoveRange(q, a, EndOf(q, pos))
  {
    RemoveStep(q, a, pos, b);
  }

  lemma InFront(q: Queue, a: nat, pos: nat)
    requires pos in RemoveRange(q, a, pos)
    ensures pos in q
  {
  }

  /** The end of a stretch is reached where no entry is. */
  lemma RestOfStretch(q: Queue, a: nat, pos: nat, b: nat)
    requires Stretch(q, a, b) && a <= pos <= b && (pos == a || pos == b || pos in q) && pos !in RemoveRange(q, a, pos)
    requires a < pos ==> a in q
    ensures if a in q then pos == b else pos == a
    ensures RemoveRange(q, a, pos) == RemoveRange(q, a, b)
  {
  }

  lemma FirstInStretch(q: Queue, a: nat, b: nat)
    requires Stretch(q, a, b)
    ensures a <= b && b !in q && (a in q ==> a < b)
    ensures forall k :: k in q && a <= k < b ==> a in q
  {
  }

  // ---------------------------------------------------------------------------
  // Where a frame lies
  // ---------------------------------------------------------------------------

  /** What the gap searches establish about a frame [start, end) that is not a plain duplicate. */
  ghost predicate Located(g: seq<Interval>, start: nat, end: nat, i: nat, j: nat) {
    && start < end < MAX_BYTE_COUNT
    && i <= j < |g|
    && start <= g[i].end && g[i].start < end
    && (i > 0 ==> g[i - 1].end < start)
    && g[j].start <= end
    && (g[j].end <= end ==> j + 1 < |g| && end < g[j + 1].start)
  }

  lemma LocatedIn(g: seq<Interval>, start: nat, end: nat, i: nat, j: nat)
    requires Located(g, start, end, i, j)
    ensures i <= j < |g|
  {
  }

  /** Where the entries end that follow each other from start on. */
  ghost function RunEnd(g: seq<Interval>, i: nat, start: nat): nat
    requires i < |g|
  {
    if start < g[i].start then g[i].start
    else if start == g[i].end && i + 1 < |g| then g[i + 1].start
    else start
  }

  lemma StretchFromStart(q: Queue, g: seq<Interval>, r: nat, start: nat, end: nat, i: nat, j: nat)
    requires GapsOk(g) && Tiles(q, g, r) && Located(g, start, end, i, j)
    ensures start <= RunEnd(g, i, start)
    ensures start in q ==> Stretch(q, start, RunEnd(g, i, start))
    ensures start == g[i].end ==> i + 1 < |g| && start in q
  {
    hide Segment;
    if start == g[i].end {
      assert i + 1 < |g|;
      StretchBetween(q, g, r, i);
    } else if start in q {
      assert start < g[i].start;
      TilesSegment(q, g, r, i);
      SegmentSuffix(q, Lo(g, r, i), start, g[i].start);
    }
  }

  /** Between two gaps there is one stretch of entries. */
  lemma StretchBetween(q: Queue, g: seq<Interval>, r: nat, i: nat)
    requires GapsOk(g) && Tiles(q, g, r) && i + 1 < |g|
    ensures g[i].end in q && Stretch(q, g[i].end, g[i + 1].start)
  {
    TilesSegment(q, g, r, i + 1);
    assert g[i + 1].start !in q;
  }

  /** Deleting whole stretches leaves the other stretches alone. */
  lemma StretchAfterRemove(q: Queue, a: nat, m: nat, c: nat, d: nat)
    requires Stretch(q, c, d) && (m <= c || (a <= c && d <= m))
    ensures Stretch(RemoveRange(q, a, m), c, d)
  {
    hide Segment;
    if m <= c && c in q {
      SegmentFrame(q, RemoveRange(q, a, m), c, d);
    }
  }

  lemma RemoveTwice(q: Queue, a: nat, m: nat, c: nat, d: nat)
    requires a <= c <= d
    requires m == c || m == d
    ensures RemoveRange(RemoveRange(q, a, m), c, d) == RemoveRange(q, a, d)
  {
  }

  /** Entries can be deleted stretch by stretch: up to m they are gone, next comes the stretch behind gap n. */
  lemma StepReady(q: Queue, g: seq<Interval>, r: nat, start: nat, n: nat, m: nat)
    requires GapsOk(g) && Tiles(q, g, r) && n + 1 < |g| && start <= g[n].end
    requires m == g[n].start || m == g[n].end || m == g[n + 1].start
    ensures Stretch(RemoveRange(q, start, m), g[n].end, g[n + 1].start)
    ensures RemoveRange(RemoveRange(q, start, m), g[n].end, g[n + 1].start) == RemoveRange(q, start, g[n + 1].start)
  {
    hide Segment;
    hide Stretch;
    StretchBetween(q, g, r, n);
    NoKeysInGap(q, g, r, start, n);
    var m' := if m == g[n].start then g[n].end else m;
    StretchAfterRemove(q, start, m', g[n].end, g[n + 1].start);
    RemoveTwice(q, start, m', g[n].end, g[n + 1].start);
  }

  lemma NoKeysInGap(q: Queue, g: seq<Interval>, r: nat, start: nat, n: nat)
    requires GapsOk(g) && Tiles(q, g, r) && n < |g|
    ensures RemoveRange(q, start, g[n].start) == RemoveRange(q, start, g[n].end)
  {
  }

  lemma GapOrder(g: seq<Interval>, n: nat, j: nat)
    requires GapsOk(g) && n <= j < |g|
    ensures g[n].end < g[j].start <==> n < j
    ensures n < j ==> g[n].end < g[n + 1].end
    ensures g[n].start < g[n].end && g[j].start < g[j].end
  {
  }

  /** What the replacement loop establishes, when it finds no duplicate. */
  ghost predicate Replaced(q: Queue, g: seq<Interval>, start: nat, end: nat, i: nat, pos: nat, cut: bool)
    requires i < |g|
  {
    && start <= pos <= RunEnd(g, i, start) && pos <= end
    && (start < pos ==> start in q)
    && (cut ==> start < pos && pos in q && (end == pos || end < EndOf(q, pos)))
    && (!cut ==> pos == if start in q then RunEnd(g, i, start) else start)
  }

  /** Where the stored part of the frame begins. */
  ghost function PlacedStart(g: seq<Interval>, start: nat, i: nat, pos: nat): nat
    requires i < |g|
  {
    if start < g[i].start && pos == start then g[i].start else start
  }

  /** Where the stored part of the frame ends. */
  ghost function PlacedEnd(g: seq<Interval>, start: nat, end: nat, i: nat, j: nat, pos: nat, cut: bool): nat
    requires i < |g| && j < |g|
  {
    if cut then pos
    else if g[j].end < end && PlacedStart(g, start, i, pos) != g[j].end then g[j].end
    else end
  }

  /** A frame is cut in front of a longer entry only if it begins right behind a gap and reaches no other. */
  lemma CutBehindGap(q: Queue, g: seq<Interval>, r: nat, start: nat, end: nat, i: nat, j: nat, pos: nat)
    requires GapsOk(g) && Tiles(q, g, r) && Located(g, start, end, i, j) && Replaced(q, g, start, end, i, pos, true)
    ensures start == g[i].end && i == j && i + 1 < |g| && pos < g[i + 1].start
  {
    hide Segment, Stretch, Tiles;
    StretchFromStart(q, g, r, start, end, i, j);
    var m := EntrySegment(q, g, r, pos);
    SegmentIndex(g, r, i, m, pos);
    assert end <= g[m].start;
    assert g[i].start <= start;
    assert start == g[i].end;
    assert end < g[i + 1].start || i + 1 == |g|;
    GapOrder(g, i, j);
  }

  lemma BehindGapReplaces(q: Queue, g: seq<Interval>, r: nat, start: nat, end: nat, i: nat, j: nat, pos: nat, cut: bool)
    requires GapsOk(g) && Tiles(q, g, r) && Located(g, start, end, i, j) && Replaced(q, g, start, end, i, pos, cut)
    requires start == g[i].end
    ensures i + 1 < |g| && start < pos && (i == j ==> cut)
  {
    hide Segment;
    hide Stretch;
    StretchFromStart(q, g, r, start, end, i, j);
    GapOrder(g, i, i + 1);
  }

  lemma CutMeansBehindGap(q: Queue, g: seq<Interval>, r: nat, start: nat, end: nat, i: nat, j: nat, pos: nat, cut: bool)
    requires GapsOk(g) && Tiles(q, g, r) && Located(g, start, end, i, j) && Replaced(q, g, start, end, i, pos, cut)
    ensures cut ==> start == g[i].end && i == j && i + 1 < |g| && pos < g[i + 1].start
    ensures start == g[i].end ==> i + 1 < |g| && start < pos && (i == j ==> cut)
  {
    hide Segment;
    hide Tiles;
    hide GapsOk;
    hide Replaced;
    if cut {
      CutBehindGap(q, g, r, start, end, i, j, pos);
    }
    if start == g[i].end {
      BehindGapReplaces(q, g, r, start, end, i, j, pos, cut);
    }
  }

  lemma SegmentIndex(g: seq<Interval>, r: nat, i: nat, m: nat, pos: nat)
    requires GapsOk(g) && i < |g| && m < |g| && Lo(g, r, m) <= pos < g[m].start
    ensures pos <= g[i].start ==> g[m].start <= g[i].start
    ensures i + 1 < |g| && pos <= g[i + 1].start ==> g[m].start <= g[i + 1].start
  {
  }

  /** The stored part begins and ends where the tiling allows it. */
  lemma PlacementFits(q: Queue, g: seq<Interval>, r: nat, start: nat, end: nat, i: nat, j: nat, pos: nat, cut: bool)
    requires GapsOk(g) && Tiles(q, g, r) && Located(g, start, end, i, j) && Replaced(q, g, start, end, i, pos, cut)
    ensures var s, e := PlacedStart(g, start, i, pos), PlacedEnd(g, start, end, i, j, pos, cut);
      && start <= s < e <= end
      && StartBoundary(q, g, r, i, s) && EndBoundary(q, g, j, e)
  {
    hide Segment, Tiles, Stretch, GapsOk;
    CutMeansBehindGap(q, g, r, start, end, i, j, pos, cut);
    LoAtLeast(g, q, r, i);
    TilesSegment(q, g, r, i);
    SegmentOrder(q, Lo(g, r, i), g[i].start);
    StretchFromStart(q, g, r, start, end, i, j);
    GapOrder(g, i, j);
    KeysFrom(q, g, r);
  }

  lemma KeysFrom(q: Queue, g: seq<Interval>, r: nat)
    requires Tiles(q, g, r)
    ensures forall k :: k in q ==> r <= k
  {
  }

  lemma SegmentOrder(q: Queue, a: nat, b: nat)
    requires Segment(q, a, b)
    ensures a <= b
  {
  }

  /** Nothing is removed inside a gap. */
  lemma RemoveExtend(q: Queue, g: seq<Interval>, r: nat, n: nat, a: nat, b: nat, c: nat)
    requires Tiles(q, g, r) && n < |g| && a <= b && g[n].start <= b <= c <= g[n].end
    ensures RemoveRange(q, a, b) == RemoveRange(q, a, c)
  {
    hide Segment;
  }

  /** What the replacement loop deleted is what the stored part takes the place of, up to gap i + 1. */
  lemma PlacementRemovesFirst(q: Queue, g: seq<Interval>, r: nat, start: nat, end: nat, i: nat, j: nat, pos: nat, cut: bool)
    requires GapsOk(g) && Tiles(q, g, r) && Located(g, start, end, i, j) && Replaced(q, g, start, end, i, pos, cut)
    ensures var s, e := PlacedStart(g, start, i, pos), PlacedEnd(g, start, end, i, j, pos, cut);
      && (i == j ==> RemoveRange(q, start, pos) == RemoveRange(q, s, e))
      && (i < j ==> || RemoveRange(q, start, pos) == RemoveRange(q, s, g[i].end)
                    || RemoveRange(q, start, pos) == RemoveRange(q, s, g[i + 1].start))
  {
    hide Tiles;
    hide RemoveRange;
    CutMeansBehindGap(q, g, r, start, end, i, j, pos, cut);
    var s, e := PlacedStart(g, start, i, pos), PlacedEnd(g, start, end, i, j, pos, cut);
    if start != g[i].end {
      var b := if start < g[i].start then g[i].start else start;
      var c := if i == j then e else g[i].end;
      assert c <= g[i].end;
      assert b <= c;
      if pos == start {
        RemoveNone(q, start);
        RemoveNone(q, s);
        RemoveExtend(q, g, r, i, s, s, c);
      } else {
        assert pos == g[i].start;
        RemoveExtend(q, g, r, i, start, pos, c);
      }
    }
  }

  lemma PlacementRemovesLast(q: Queue, g: seq<Interval>, r: nat, start: nat, end: nat, i: nat, j: nat, pos: nat, cut: bool)
    requires GapsOk(g) && Tiles(q, g, r) && Located(g, start, end, i, j) && Replaced(q, g, start, end, i, pos, cut)
    requires i < j
    ensures var s, e := PlacedStart(g, start, i, pos), PlacedEnd(g, start, end, i, j, pos, cut);
      RemoveRange(q, s, g[j].start) == RemoveRange(q, s, e)
  {
    hide Tiles;
    hide RemoveRange;
    CutMeansBehindGap(q, g, r, start, end, i, j, pos, cut);
    GapOrder(g, i, j);
    var s, e := PlacedStart(g, start, i, pos), PlacedEnd(g, start, end, i, j, pos, cut);
    RemoveExtend(q, g, r, j, s, g[j].start, e);
  }

  /** What is cut off the frame was received before. */
  lemma PlacementSkips(q: Queue, g: seq<Interval>, r: nat, start: nat, end: nat, i: nat, j: nat, pos: nat, cut: bool, p: nat)
    requires GapsOk(g) && Tiles(q, g, r) && Located(g, start, end, i, j) && Replaced(q, g, start, end, i, pos, cut)
    requires start <= p < end && InGap(g, p)
    ensures PlacedStart(g, start, i, pos) <= p < PlacedEnd(g, start, end, i, j, pos, cut)
  {
    hide Tiles;
    hide Segment;
    CutMeansBehindGap(q, g, r, start, end, i, j, pos, cut);
    var n :| 0 <= n < |g| && g[n].start <= p < g[n].end;
    assert i <= n <= j;
  }

  /** The arithmetic of a placement, in one place. */
  lemma PlacementFacts(q: Queue, g: seq<Interval>, r: nat, start: nat, end: nat, i: nat, j: nat, pos: nat, cut: bool)
    requires GapsOk(g) && Tiles(q, g, r) && Located(g, start, end, i, j) && Replaced(q, g, start, end, i, pos, cut)
    ensures i <= j < |g| && start <= pos
    ensures var s, e := PlacedStart(g, start, i, pos), PlacedEnd(g, start, end, i, j, pos, cut);
      && s == (if start < g[i].start && pos == start then g[i].start else start)
      && e == (if cut then pos else if g[j].end < end && s != g[j].end then g[j].end else end)
      && start <= s < e <= end && s <= g[i].end
      && g[i].start < end && g[j].start < g[j].end
      && (s <= g[i].start || start == pos || s == g[i].end)
      && (s == g[i].end ==> start < pos && (i == j ==> cut))
      && (cut ==> i == j && s == g[i].end && start < pos <= end)
      && (i < j ==> g[i].end < g[j].start <= end)
  {
    hide Tiles;
    CutMeansBehindGap(q, g, r, start, end, i, j, pos, cut);
    PlacementFits(q, g, r, start, end, i, j, pos, cut);
    GapOrder(g, i, j);
  }

  /** The built-in copy: the first n bytes of data go to p[at..at + n]. */
  method CopyInto(p: array<Byte>, at: nat, data: seq<Byte>, n: nat)
    requires at + n <= p.Length && n <= |data|
    modifies p
    ensures forall i :: 0 <= i < p.Length ==> p[i] == if at <= i < at + n then data[i - at] else old(p[i])
  {
    forall i | 0 <= i < n {
      p[at + i] := data[i];
    }
  }

  lemma PopStart(q: Queue, g: seq<Interval>, r: nat)
    requires GapsOk(g) && Tiles(q, g, r)
    ensures |g| > 0 && g[0].start < g[0].end
    ensures r !in q <==> r == g[0].start
  {
    TilesSegment(q, g, r, 0);
  }

  lemma ReadPosInGap(q: Queue, g: seq<Interval>, r: nat)
    requires GapsOk(g) && Tiles(q, g, r)
    ensures InGap(g, r) <==> r == g[0].start
  {
    TilesSegment(q, g, r, 0);
    if r == g[0].start {
      assert g[0].start <= r < g[0].end;
    }
  }

  lemma PopTiles(q: Queue, g: seq<Interval>, r: nat)
    requires GapsOk(g) && Tiles(q, g, r) && r in q
    ensures r < EndOf(q, r) <= g[0].start && Tiles(q - {r}, g, EndOf(q, r))
  {
    hide Segment, GapsOk;
    PopStart(q, g, r);
    TilesSegment(q, g, r, 0);
    SegmentOrder(q, r, g[0].start);
    FirstEntry(q, r, g[0].start);
    PopSegments(q, g, r);
    PopKeys(q, r, g[0].start);
  }

  lemma PopSegments(q: Queue, g: seq<Interval>, r: nat)
    requires GapsOk(g) && Tiles(q, g, r) && r in q
    requires r < EndOf(q, r) <= g[0].start && Segment(q, EndOf(q, r), g[0].start)
    ensures forall n :: 0 <= n < |g| ==> Segment(q - {r}, Lo(g, EndOf(q, r), n), g[n].start)
  {
    hide Segment, Tiles, GapsOk;
    forall n | 0 <= n < |g|
      ensures Segment(q - {r}, Lo(g, EndOf(q, r), n), g[n].start)
    {
      PopSegment(q, g, r, n);
    }
  }

  lemma PopKeys(q: Queue, r: nat, b: nat)
    requires Segment(q, r, b) && r in q && EndOf(q, r) <= b && forall k :: k in q ==> r <= k
    ensures forall k :: k in q - {r} ==> EndOf(q, r) <= k
  {
    hide Segment;
    forall k | k in q - {r}
      ensures EndOf(q, r) <= k
    {
      PopKey(q, r, b, k);
    }
  }

  lemma PopKey(q: Queue, r: nat, b: nat, k: nat)
    requires Segment(q, r, b) && r in q && EndOf(q, r) <= b && k in q && r < k
    ensures EndOf(q, r) <= k
  {
    if k < b {
      assert r < b;
    }
  }

  lemma PopSegment(q: Queue, g: seq<Interval>, r: nat, n: nat)
    requires GapsOk(g) && Tiles(q, g, r) && r in q && n < |g|
    requires r < EndOf(q, r) <= g[0].start && Segment(q, EndOf(q, r), g[0].start)
    ensures Segment(q - {r}, Lo(g, EndOf(q, r), n), g[n].start)
  {
    hide Segment, Tiles;
    TilesSegment(q, g, r, n);
    SegmentFrame(q, q - {r}, Lo(g, EndOf(q, r), n), g[n].start);
  }

  lemma FirstEntry(q: Queue, a: nat, b: nat)
    requires Segment(q, a, b) && a < b
    ensures a in q && a < EndOf(q, a) <= b && Segment(q, EndOf(q, a), b)
  {
  }

  // ---------------------------------------------------------------------------
  // The readable bytes
  // ---------------------------------------------------------------------------

  ghost function Behind(q: Queue, pos: nat): set<nat> {
    set k | k in q && pos <= k
  }

  lemma BehindShrinks(q: Queue, pos: nat, next: nat)
    requires pos in q && pos < next
    ensures Behind(q, next) < Behind(q, pos)
  {
    assert pos in Behind(q, pos) && pos !in Behind(q, next);
    assert Behind(q, next) <= Behind(q, pos);
  }

  /** The bytes of the entries that follow each other from pos on. */
  ghost function Run(q: Queue, pos: nat): seq<Byte>
    decreases Behind(q, pos)
  {
    if pos in q && q[pos].data != [] then
      BehindShrinks(q, pos, EndOf(q, pos));
      q[pos].data + Run(q, EndOf(q, pos))
    else []
  }

  lemma {:induction false} RunAfterRemove(q: Queue, k: nat, pos: nat)
    requires k in q && k < pos
    ensures Run(q - {k}, pos) == Run(q, pos)
    decreases Behind(q, pos)
  {
    if pos in q && q[pos].data != [] {
      BehindShrinks(q, pos, EndOf(q, pos));
      RunAfterRemove(q, k, EndOf(q, pos));
    }
  }

  /** Up to the first gap everything is readable. */
  lemma {:induction false} RunLength(q: Queue, a: nat, b: nat)
    requires Segment(q, a, b) && b !in q
    ensures |Run(q, a)| == b - a
    decreases b - a
  {
    if a < b {
      FirstEntry(q, a, b);
      RunLength(q, EndOf(q, a), b);
    }
  }

  /** All entries carry bytes of the stream s, at their place. */
  ghost predicate Consistent(q: Queue, s: seq<Byte>) {
    forall k :: k in q ==> EndOf(q, k) <= |s| && q[k].data == s[k..EndOf(q, k)]
  }

  lemma {:induction false} RunConsistent(q: Queue, s: seq<Byte>, pos: nat)
    requires Consistent(q, s) && pos <= |s|
    ensures pos + |Run(q, pos)| <= |s| && Run(q, pos) == s[pos..pos + |Run(q, pos)|]
    decreases |s| - pos
  {
    if pos in q && q[pos].data != [] {
      RunConsistent(q, s, EndOf(q, pos));
    }
  }

  lemma WithinConsistent(q: Queue, q': Queue, s: seq<Byte>)
    requires Consistent(q, s) && Within(q', q)
    ensures Consistent(q', s)
  {
    forall k | k in q'
      ensures EndOf(q', k) <= |s| && q'[k].data == s[k..EndOf(q', k)]
    {
      assert EndOf(q', k) == EndOf(q, k);
    }
  }

  lemma SliceOfSlice(s: seq<Byte>, frame: seq<Byte>, offset: nat, k: nat, n: nat)
    requires offset + |frame| <= |s| && frame == s[offset..offset + |frame|]
    requires offset <= k && k + n <= offset + |frame|
    ensures frame[k - offset..k - offset + n] == s[k..k + n]
  {
    var l, r := frame[k - offset..k - offset + n], s[k..k + n];
    assert |l| == |r|;
    assert forall i :: 0 <= i < |r| ==> l[i] == r[i];
  }

  ghost predicate IsPart(data: seq<Byte>, k: nat, frame: seq<Byte>, offset: nat) {
    offset <= k && k + |data| <= offset + |frame| && data == frame[k - offset..k - offset + |data|]
  }

  /** Every entry was there before or is a part of the frame, in its place. */
  ghost predicate Provenance(q: Queue, q': Queue, frame: seq<Byte>, offset: nat) {
    forall k :: k in q' ==> || (k in q && q'[k] == q[k])
                            || IsPart(q'[k].data, k, frame, offset)
  }

  /** Frames cut from a stream keep the queue consistent with it. */
  lemma PushConsistent(q: Queue, q': Queue, frame: seq<Byte>, offset: nat, s: seq<Byte>)
    requires Consistent(q, s) && Provenance(q, q', frame, offset)
    requires offset + |frame| <= |s| && frame == s[offset..offset + |frame|]
    ensures Consistent(q', s)
  {
    forall k | k in q'
      ensures EndOf(q', k) <= |s| && q'[k].data == s[k..EndOf(q', k)]
    {
      if k in q && q'[k] == q[k] {
        assert EndOf(q, k) == EndOf(q', k);
      } else {
        var d := q'[k].data;
        assert IsPart(d, k, frame, offset);
        SliceOfSlice(s, frame, offset, k, |d|);
      }
    }
  }

  /** Where a frame lies: behind all gaps, in received data, or reaching from gap i to gap j. */
  datatype Place = Beyond | Known | At(i: nat, j: nat, startsInGap: bool, endsInGap: bool)

  ghost predicate NoGapIn(g: seq<Interval>, start: nat, end: nat) {
    forall p: nat :: start <= p < end ==> !InGap(g, p)
  }

  /** A frame inside one gap that touches neither of its ends. */
  ghost predicate SplitsGap(g: seq<Interval>, start: nat, end: nat) {
    exists i :: 0 <= i < |g| && g[i].start < start < end < g[i].end
  }

  ghost predicate GapsPunched(g: seq<Interval>, g': seq<Interval>, start: nat, end: nat) {
    && GapsOk(g')
    && forall p: nat :: InGap(g', p) <==> InGap(g, p) && !(start <= p < end)
  }

  lemma NothingNew(g: seq<Interval>, start: nat, end: nat)
    requires GapsOk(g) && NoGapIn(g, start, end)
    ensures GapsPunched(g, g, start, end)
    ensures !SplitsGap(g, start, end)
  {
    if SplitsGap(g, start, end) {
      assert InGap(g, start);
      assert false;
    }
  }

  lemma DuplicateEntry(q: Queue, g: seq<Interval>, r: nat, start: nat, end: nat)
    requires GapsOk(g) && Tiles(q, g, r) && start in q && end <= EndOf(q, start)
    ensures NoGapIn(g, start, end)
  {
    hide Tiles;
    var m := EntrySegment(q, g, r, start);
    forall p: nat | start <= p < end
      ensures !InGap(g, p)
    {
      BetweenGaps(g, m, p);
    }
  }

  lemma ReplacedHolds(q: Queue, q': Queue, g: seq<Interval>, start: nat, end: nat, i: nat, pos: nat, cut: bool)
    requires i < |g| && start <= RunEnd(g, i, start)
    requires start <= pos <= RunEnd(g, i, start) && pos <= end && q' == RemoveRange(q, start, pos)
    requires start < pos ==> start in q
    requires cut ==> start < pos && pos in q' && (end == pos || end < EndOf(q', pos))
    requires !cut ==> pos == if start in q then RunEnd(g, i, start) else start
    ensures Replaced(q, g, start, end, i, pos, cut)
  {
  }

  // ---------------------------------------------------------------------------
  // What a push stores
  // ---------------------------------------------------------------------------

  ghost predicate AllInGaps(g: seq<Interval>, start: nat, end: nat) {
    forall p: nat :: start <= p < end ==> InGap(g, p)
  }

  ghost predicate BehindGap(g: seq<Interval>, p: nat) {
    exists i :: 0 <= i < |g| && g[i].end == p
  }

  /**
   * A frame is dropped if nothing in it is new, except if it begins right behind a gap with an entry that is shorter than
   * the frame.
   */
  ghost predicate Dropped(q: Queue, g: seq<Interval>, start: nat, end: nat) {
    && NoGapIn(g, start, end)
    && !(BehindGap(g, start) && start in q && EndOf(q, start) < end)
  }

  /**
   * The part of a frame that is stored. It begins with the frame if an entry or a gap is there, otherwise with the first
   * gap. It ends with the frame if that ends in a gap or in front of one, otherwise with the last gap; without a gap it
   * ends with the frame or in front of the entry that reaches further.
   */
  ghost predicate Extent(q: Queue, g: seq<Interval>, start: nat, end: nat, s: nat, e: nat) {
    && start <= s < e <= end
    && (if start in q then s == start else InGap(g, s) && NoGapIn(g, start, s))
    && (if NoGapIn(g, start, end) then e == end || (e in q && end < EndOf(q, e))
        else if InGap(g, end - 1) || InGap(g, end) then e == end
        else InGap(g, e - 1) && NoGapIn(g, e, end))
  }

  /**
   * Whether the stored part [s, e) is a copy, so that the buffer of the frame can be given back. It is short, and either
   * less than the frame or all of it without anything new and with an entry right behind.
   */
  ghost predicate Copied(q: Queue, g: seq<Interval>, start: nat, end: nat, s: nat, e: nat) {
    && e - s < MIN_STREAM_FRAME_BUFFER_SIZE
    && (e - s < end - start || (NoGapIn(g, start, end) && end in q))
  }

  ghost predicate StoresPart(q: Queue, g: seq<Interval>, frame: seq<Byte>, offset: nat, doneCb: Option<nat>, q': Queue, s: nat, e: nat) {
    var end := offset + |frame|;
    && Extent(q, g, offset, end, s, e)
    && q' == RemoveRange(q, s, e)[s := Entry(frame[s - offset..e - offset], if Copied(q, g, offset, end, s, e) then None else doneCb)]
  }

  /** One part of the frame takes the place of what was stored there. */
  ghost predicate Stores(q: Queue, g: seq<Interval>, frame: seq<Byte>, offset: nat, doneCb: Option<nat>, q': Queue) {
    exists s, e :: StoresPart(q, g, frame, offset, doneCb, q', s, e)
  }

  lemma NotBehindGap(g: seq<Interval>, start: nat, end: nat, i: nat)
    requires GapsOk(g) && i < |g| && start < end <= g[i].start && (i > 0 ==> g[i - 1].end < start)
    ensures NoGapIn(g, start, end) && !BehindGap(g, start)
  {
  }

  lemma NothingInEmpty(q: Queue, g: seq<Interval>, start: nat)
    ensures NoGapIn(g, start, start) && Dropped(q, g, start, start)
  {
  }

  lemma KnownIsDropped(q: Queue, g: seq<Interval>, start: nat, end: nat)
    requires NoGapIn(g, start, end) && (!BehindGap(g, start) || (start in q && end <= EndOf(q, start)))
    ensures Dropped(q, g, start, end)
  {
  }

  /** A located frame without a gap in it begins right behind one. */
  lemma LocatedBehindGap(g: seq<Interval>, start: nat, end: nat, i: nat, j: nat)
    requires GapsOk(g) && Located(g, start, end, i, j)
    ensures NoGapIn(g, start, end) <==> start == g[i].end && (i == j || end <= g[i + 1].start)
  {
    var p := Max(start, g[i].start);
    assert p < g[i].end ==> InGap(g, p);
    assert i < j ==> InGap(g, g[i + 1].start);
  }

  lemma ExtentStart(q: Queue, g: seq<Interval>, r: nat, start: nat, end: nat, i: nat, j: nat, pos: nat, cut: bool)
    requires GapsOk(g) && Tiles(q, g, r) && Located(g, start, end, i, j) && Replaced(q, g, start, end, i, pos, cut)
    ensures var s := PlacedStart(g, start, i, pos); if start in q then s == start else InGap(g, s) && NoGapIn(g, start, s)
  {
    hide Tiles, Segment, Stretch;
    StretchFromStart(q, g, r, start, end, i, j);
    if start !in q {
      assert start < g[i].end;
    }
  }

  lemma ExtentEnd(q: Queue, g: seq<Interval>, r: nat, start: nat, end: nat, i: nat, j: nat, pos: nat, cut: bool)
    requires GapsOk(g) && Tiles(q, g, r) && Located(g, start, end, i, j) && Replaced(q, g, start, end, i, pos, cut)
    ensures var e := PlacedEnd(g, start, end, i, j, pos, cut);
      && 0 < e
      && (if NoGapIn(g, start, end) then e == end || (e in q && end < EndOf(q, e))
          else if InGap(g, end - 1) || InGap(g, end) then e == end
          else InGap(g, e - 1) && NoGapIn(g, e, end))
  {
    hide Tiles, Segment, Stretch;
    CutMeansBehindGap(q, g, r, start, end, i, j, pos, cut);
    LocatedBehindGap(g, start, end, i, j);
    GapOrder(g, i, j);
  }

  lemma CutIsCopied(q: Queue, g: seq<Interval>, r: nat, start: nat, end: nat, i: nat, j: nat, pos: nat, cut: bool)
    requires GapsOk(g) && Tiles(q, g, r) && Located(g, start, end, i, j) && Replaced(q, g, start, end, i, pos, cut)
    ensures var s, e := PlacedStart(g, start, i, pos), PlacedEnd(g, start, end, i, j, pos, cut);
      cut || e - s < end - start <==> e - s < end - start || (NoGapIn(g, start, end) && end in q)
  {
    hide Tiles, Segment, Stretch;
    CutMeansBehindGap(q, g, r, start, end, i, j, pos, cut);
    LocatedBehindGap(g, start, end, i, j);
    NoEntryAtGap(q, g, r, j);
  }

  lemma PlacementExtent(q: Queue, g: seq<Interval>, r: nat, start: nat, end: nat, i: nat, j: nat, pos: nat, cut: bool)
    requires GapsOk(g) && Tiles(q, g, r) && Located(g, start, end, i, j) && Replaced(q, g, start, end, i, pos, cut)
    ensures i <= j < |g|
    ensures var s, e := PlacedStart(g, start, i, pos), PlacedEnd(g, start, end, i, j, pos, cut);
      && Extent(q, g, start, end, s, e)
      && (Copied(q, g, start, end, s, e) <==> e - s < MIN_STREAM_FRAME_BUFFER_SIZE && (cut || e - s < end - start))
  {
    hide GapsOk, Tiles, Replaced, PlacedStart, PlacedEnd, InGap, NoGapIn, StartBoundary, EndBoundary;
    PlacementFits(q, g, r, start, end, i, j, pos, cut);
    ExtentStart(q, g, r, start, end, i, j, pos, cut);
    ExtentEnd(q, g, r, start, end, i, j, pos, cut);
    CutIsCopied(q, g, r, start, end, i, j, pos, cut);
  }

  /** A frame that is located, and is not a duplicate of one entry, is not dropped. */
  lemma LocatedIsKept(q: Queue, g: seq<Interval>, r: nat, start: nat, end: nat, i: nat, j: nat)
    requires GapsOk(g) && Tiles(q, g, r) && Located(g, start, end, i, j) && (start in q ==> EndOf(q, start) < end)
    ensures !Dropped(q, g, start, end)
  {
    hide Tiles, Stretch;
    LocatedBehindGap(g, start, end, i, j);
    StretchFromStart(q, g, r, start, end, i, j);
  }

  lemma PartIsStored(q: Queue, g: seq<Interval>, frame: seq<Byte>, offset: nat, doneCb: Option<nat>, q': Queue, s: nat, e: nat)
    requires StoresPart(q, g, frame, offset, doneCb, q', s, e)
    ensures Stores(q, g, frame, offset, doneCb, q')
  {
    hide StoresPart;
  }

  lemma NewIsKept(q: Queue, g: seq<Interval>, start: nat, end: nat)
    requires start < end && AllInGaps(g, start, end)
    ensures !Dropped(q, g, start, end)
  {
    assert InGap(g, start);
  }

  lemma NothingThere(q: Queue, g: seq<Interval>, r: nat, start: nat, end: nat)
    requires Tiles(q, g, r) && AllInGaps(g, start, end)
    ensures RemoveRange(q, start, end) == q && (start < end ==> start !in q)
  {
    hide Tiles, InGap;
    forall k | k in q
      ensures !(start <= k < end)
    {
      NoEntryInGap(q, g, r, k);
    }
  }

  lemma NewExtent(q: Queue, g: seq<Interval>, start: nat, end: nat, s: nat, e: nat)
    requires start < end && start !in q && AllInGaps(g, start, end) && Extent(q, g, start, end, s, e)
    ensures s == start && e == end && !Copied(q, g, start, end, s, e)
  {
    hide InGap;
    assert InGap(g, start) && InGap(g, end - 1);
    assert !NoGapIn(g, start, end);
  }

  /** A frame that is new as a whole is stored as a whole, with its callback. */
  lemma NewIsStored(q: Queue, g: seq<Interval>, r: nat, frame: seq<Byte>, offset: nat, doneCb: Option<nat>, q': Queue)
    requires GapsOk(g) && Tiles(q, g, r) && |frame| > 0 && AllInGaps(g, offset, offset + |frame|)
    requires Stores(q, g, frame, offset, doneCb, q')
    ensures offset !in q && q' == q[offset := Entry(frame, doneCb)]
  {
    hide Tiles, GapsOk, AllInGaps, Extent, RemoveRange, Copied;
    var end := offset + |frame|;
    var s, e :| StoresPart(q, g, frame, offset, doneCb, q', s, e);
    NothingThere(q, g, r, offset, end);
    NewExtent(q, g, offset, end, s, e);
    assert frame[..|frame|] == frame;
  }

  lemma NoEntryInGap(q: Queue, g: seq<Interval>, r: nat, k: nat)
    requires Tiles(q, g, r) && k in q
    ensures !InGap(g, k)
  {
  }

  lemma NothingReleased(q: Queue, q': Queue, rel: multiset<nat>, rel': multiset<nat>, offset: nat, frame: seq<Byte>, doneCb: Option<nat>)
    requires offset !in q && q' == q[offset := Entry(frame, doneCb)]
    requires forall c :: Account(q', rel', c) == Account(q, rel, c) + One(doneCb, c)
    ensures rel' == rel
  {
    hide Pending;
    forall c
      ensures rel'[c] == rel[c]
    {
      PendingAdd(q, offset, Entry(frame, doneCb), c);
      assert Account(q', rel', c) == Account(q, rel, c) + One(doneCb, c);
    }
  }

  lemma NoEntryAtGap(q: Queue, g: seq<Interval>, r: nat, j: nat)
    requires GapsOk(g) && Tiles(q, g, r) && j < |g|
    ensures g[j].start !in q
  {
  }

  /** The gaps lose exactly the pushed range, and grow in number only if one gap is split. */
  lemma PunchedByPlacement(q: Queue, g: seq<Interval>, r: nat, start: nat, end: nat, i: nat, j: nat, pos: nat, cut: bool)
    requires GapsOk(g) && Tiles(q, g, r) && Located(g, start, end, i, j) && Replaced(q, g, start, end, i, pos, cut)
    requires |g| <= MAX_STREAM_FRAME_SORTER_GAPS
    ensures i <= j < |g|
    ensures var g' := Punch(g, i, j, PlacedStart(g, start, i, pos), PlacedEnd(g, start, end, i, j, pos, cut));
      && GapsOk(g') && GapsPunched(g, g', start, end) && |g'| <= |g| + 1
      && (|g'| > MAX_STREAM_FRAME_SORTER_GAPS <==>
            |g| == MAX_STREAM_FRAME_SORTER_GAPS && SplitsGap(g, start, end))
  {
    hide Tiles, Replaced, Punch, InGap, StartBoundary, EndBoundary;
    var s, e := PlacedStart(g, start, i, pos), PlacedEnd(g, start, end, i, j, pos, cut);
    PlacementFits(q, g, r, start, end, i, j, pos, cut);
    PunchGapsOk(q, g, r, i, j, s, e);
    forall p: nat
      ensures InGap(Punch(g, i, j, s, e), p) <==> InGap(g, p) && !(start <= p < end)
    {
      PunchInGap(q, g, r, i, j, s, e, p);
      if start <= p < end && InGap(g, p) {
        PlacementSkips(q, g, r, start, end, i, j, pos, cut, p);
      }
    }
    PunchCount(q, g, r, start, end, i, j, pos, cut);
  }

  lemma PunchedGapList(q: Queue, g: seq<Interval>, r: nat, start: nat, end: nat, i: nat, j: nat, pos: nat, cut: bool,
                       s: nat, e: nat, g': seq<Interval>)
    requires GapsOk(g) && Tiles(q, g, r) && Located(g, start, end, i, j) && Replaced(q, g, start, end, i, pos, cut)
    requires |g| <= MAX_STREAM_FRAME_SORTER_GAPS && i <= j < |g|
    requires s == PlacedStart(g, start, i, pos) && e == PlacedEnd(g, start, end, i, j, pos, cut) && g' == Punch(g, i, j, s, e)
    ensures GapsOk(g') && GapsPunched(g, g', start, end) && |g'| <= |g| + 1
    ensures |g'| > MAX_STREAM_FRAME_SORTER_GAPS <==> |g| == MAX_STREAM_FRAME_SORTER_GAPS && SplitsGap(g, start, end)
  {
    hide *;
    PunchedByPlacement(q, g, r, start, end, i, j, pos, cut);
  }

  lemma PunchCount(q: Queue, g: seq<Interval>, r: nat, start: nat, end: nat, i: nat, j: nat, pos: nat, cut: bool)
    requires GapsOk(g) && Tiles(q, g, r) && Located(g, start, end, i, j) && Replaced(q, g, start, end, i, pos, cut)
    ensures i <= j < |g|
    ensures var g' := Punch(g, i, j, PlacedStart(g, start, i, pos), PlacedEnd(g, start, end, i, j, pos, cut));
      |g'| <= |g| + 1 && (|g'| == |g| + 1 <==> SplitsGap(g, start, end))
  {
    hide Tiles, Replaced, PlacedStart, PlacedEnd;
    PlacementFacts(q, g, r, start, end, i, j, pos, cut);
  }

  lemma StoreTiles(q: Queue, g: seq<Interval>, r: nat, i: nat, j: nat, s: nat, e: nat, x: Entry)
    requires Fits(q, g, r, i, j, s, e, x)
    ensures Tiles(RemoveRange(q, s, e)[s := x], Punch(g, i, j, s, e), r)
  {
    hide Tiles;
    InsertTiles(q, g, r, i, j, s, e, x);
  }

  lemma StoreProvenance(q: Queue, frame: seq<Byte>, offset: nat, s: nat, e: nat, x: Entry)
    requires offset <= s < e <= offset + |frame| && x.data == frame[s - offset..e - offset]
    ensures Provenance(q, RemoveRange(q, s, e)[s := x], frame, offset)
  {
  }

  lemma StoreAccount(q: Queue, s: nat, e: nat, x: Entry, c: nat)
    requires s < e
    ensures Pending(RemoveRange(q, s, e)[s := x], c) == Pending(RemoveRange(q, s, e), c) + One(x.doneCb, c)
  {
    PendingAdd(RemoveRange(q, s, e), s, x, c);
  }

  /** What AdjustStartGap leaves of a gap. */
  ghost function StartRest(gap: Interval, start: nat, end: nat): seq<Interval> {
    if gap.start < start then [Interval(gap.start, start)]
    else if gap.end <= end then []
    else [Interval(end, gap.end)]
  }

  lemma StartRestTail(g: seq<Interval>, i: nat, start: nat, end: nat)
    requires i < |g|
    ensures (g[..i] + StartRest(g[i], start, end) + g[i + 1..])[i + |StartRest(g[i], start, end)|..] == g[i + 1..]
    ensures (g[..i] + StartRest(g[i], start, end) + g[i + 1..])[..i + |StartRest(g[i], start, end)|]
         == g[..i] + StartRest(g[i], start, end)
  {
  }

  lemma DropGap(front: seq<Interval>, g: seq<Interval>, n: nat)
    requires n < |g|
    ensures var all := front + g[n..]; all[..|front|] == front && all[|front| + 1..] == g[n + 1..]
  {
  }

  lemma FrontTail(front: seq<Interval>, g: seq<Interval>, j: nat)
    requires j < |g|
    ensures var h := front + g[j..];
      h[|front|] == g[j] && h[..|front|] == front && h[|front| + 1..] == g[j + 1..]
  {
  }

  /** The two gap updates punch the frame out, when it starts and ends in the same gap. */
  lemma PunchSame(g: seq<Interval>, i: nat, start: nat, e: nat, end: nat, adjustedEnd: bool, g': seq<Interval>)
    requires i < |g| && end <= e && (e != end ==> end == g[i].end)
    requires g[i].start < start && !adjustedEnd ==> start == g[i].end && g[i].end < end
    requires adjustedEnd ==> g[i].start < start && end <= g[i].end
    requires var h := g[..i] + StartRest(g[i], start, e) + g[i + 1..];
      g' == if end != g[i].end && adjustedEnd then h[..i + 1] + [Interval(end, g[i].end)] + h[i + 1..] else h
    ensures g' == Punch(g, i, i, start, end)
  {
  }

  lemma PunchAcross(g: seq<Interval>, i: nat, j: nat, start: nat, e: nat, end: nat, g': seq<Interval>)
    requires i < j < |g| && end <= e && g[i].end < e && end <= g[j].end
    requires var h := g[..i] + StartRest(g[i], start, e);
      g' == h + (if end == g[j].end then [] else [Interval(end, g[j].end)]) + g[j + 1..]
    ensures g' == Punch(g, i, j, start, end)
  {
  }

  // ---------------------------------------------------------------------------
  // The gap limit
  // ---------------------------------------------------------------------------

  /** g lists the gaps that the fragments leave. */
  ghost predicate GapsOf(fs: seq<Fragment>, g: seq<Interval>) {
    GapsOk(g) && forall p: nat :: InGap(g, p) <==> p < MAX_BYTE_COUNT && !Sent(fs, p)
  }

  /** The fragments leave as many gaps as are allowed, and x would split one of them. */
  ghost predicate TooFragmented(fs: seq<Fragment>, x: Fragment) {
    exists g :: GapsOf(fs, g) && |g| == MAX_STREAM_FRAME_SORTER_GAPS && SplitsGap(g, x.offset, x.offset + x.len)
  }

  /** A push that fills its range leaves the gaps of one fragment more. */
  lemma PushedGaps(fs: seq<Fragment>, x: Fragment, g: seq<Interval>, g': seq<Interval>)
    requires GapsOf(fs, g) && GapsPunched(g, g', x.offset, x.offset + x.len)
    ensures GapsOf(fs + [x], g')
  {
    hide InGap, Sent;
    forall p: nat
      ensures InGap(g', p) <==> p < MAX_BYTE_COUNT && !Sent(fs + [x], p)
    {
      SentSnoc(fs, x, p);
    }
  }

  lemma NoFragments()
    ensures GapsOf([], [Interval(0, MAX_BYTE_COUNT)])
  {
    var g := [Interval(0, MAX_BYTE_COUNT)];
    forall p: nat
      ensures InGap(g, p) <==> p < MAX_BYTE_COUNT
    {
      assert g[0] == Interval(0, MAX_BYTE_COUNT);
    }
  }

  lemma FirstGapSame(g: seq<Interval>, h: seq<Interval>)
    requires GapsOk(g) && GapsOk(h) && forall p: nat :: InGap(g, p) <==> InGap(h, p)
    ensures g[0] == h[0]
  {
    FirstGapBounds(g, h);
    FirstGapBounds(h, g);
  }

  lemma FirstGapBounds(g: seq<Interval>, h: seq<Interval>)
    requires GapsOk(g) && GapsOk(h) && forall p: nat :: InGap(g, p) <==> InGap(h, p)
    ensures h[0].start <= g[0].start && (g[0].start == h[0].start ==> g[0].end <= h[0].end)
  {
    assert InGap(g, g[0].start);
    assert InGap(h, g[0].start);
    BehindFirstGap(h);
    assert !InGap(g, h[0].end);
  }

  lemma BehindFirstGap(g: seq<Interval>)
    requires GapsOk(g)
    ensures !InGap(g, g[0].end)
  {
  }

  lemma RestInGap(g: seq<Interval>, p: nat)
    requires GapsOk(g) && |g| > 1
    ensures GapsOk(g[1..]) && (InGap(g[1..], p) <==> InGap(g, p) && g[0].end <= p)
  {
    if InGap(g[1..], p) {
      var i :| 0 <= i < |g[1..]| && g[1..][i].start <= p < g[1..][i].end;
      assert g[i + 1].start <= p < g[i + 1].end;
    }
    if InGap(g, p) && g[0].end <= p {
      var i :| 0 <= i < |g| && g[i].start <= p < g[i].end;
      assert g[1..][i - 1] == g[i];
    }
  }

  /** A gap list is determined by the bytes in its gaps. */
  lemma {:induction false} SameGaps(g: seq<Interval>, h: seq<Interval>)
    requires GapsOk(g) && GapsOk(h) && forall p: nat :: InGap(g, p) <==> InGap(h, p)
    ensures g == h
    decreases |g|
  {
    FirstGapSame(g, h);
    if |g| > 1 && |h| > 1 {
      forall p: nat
        ensures InGap(g[1..], p) <==> InGap(h[1..], p)
      {
        RestInGap(g, p);
        RestInGap(h, p);
      }
      RestInGap(g, 0);
      RestInGap(h, 0);
      SameGaps(g[1..], h[1..]);
      assert g == [g[0]] + g[1..] && h == [h[0]] + h[1..];
    }
  }

  /** With the gaps at hand, the limit is a test. */
  lemma LimitReached(fs: seq<Fragment>, g: seq<Interval>, x: Fragment)
    requires GapsOf(fs, g)
    ensures TooFragmented(fs, x) <==> |g| == MAX_STREAM_FRAME_SORTER_GAPS && SplitsGap(g, x.offset, x.offset + x.len)
  {
    hide SplitsGap;
    if TooFragmented(fs, x) {
      var h :| GapsOf(fs, h) && |h| == MAX_STREAM_FRAME_SORTER_GAPS && SplitsGap(h, x.offset, x.offset + x.len);
      forall p: nat
        ensures InGap(g, p) <==> InGap(h, p)
      {
      }
      SameGaps(g, h);
    }
  }

  /** A fragment that does not begin behind the first missing byte never meets the limit. */
  lemma NextFragmentFits(fs: seq<Fragment>, x: Fragment, end: nat)
    requires FirstMissing(fs, end) && x.offset <= end
    ensures !TooFragmented(fs, x)
  {
    hide Sent;
    forall g: seq<Interval> | GapsOf(fs, g)
      ensures !SplitsGap(g, x.offset, x.offset + x.len)
    {
      forall i | 0 <= i < |g|
        ensures x.offset <= g[i].start
      {
        assert InGap(g, g[i].start);
      }
    }
  }

  // ---------------------------------------------------------------------------
  // The sorter
  // ---------------------------------------------------------------------------

  // ---------------------------------------------------------------------------
  // Fragments that do not overlap
  // ---------------------------------------------------------------------------

  /** Every entry is a fragment as it was pushed, with its callback. */
  ghost predicate Whole(q: Queue, fs: seq<Fragment>) {
    forall k :: k in q ==> Fragment(k, |q[k].data|, q[k].doneCb) in fs
  }

  /** A fragment that is disjoint from the others lies in the gaps that they leave. */
  lemma DisjointInGaps(fs: seq<Fragment>, x: Fragment, g: seq<Interval>)
    requires Disjoint(fs + [x]) && GapsOf(fs, g) && x.offset + x.len < MAX_BYTE_COUNT
    ensures Disjoint(fs) && AllInGaps(g, x.offset, x.offset + x.len)
  {
    hide InGap, GapsOk;
    var fs' := fs + [x];
    forall i, j, p: nat | 0 <= i < j < |fs| && Carries(fs[i], p)
      ensures !Carries(fs[j], p)
    {
      assert fs'[i] == fs[i] && fs'[j] == fs[j];
    }
    forall p: nat | x.offset <= p < x.offset + x.len
      ensures InGap(g, p)
    {
      assert Carries(fs'[|fs|], p);
      assert forall i :: 0 <= i < |fs| ==> fs'[i] == fs[i] && !Carries(fs[i], p);
      assert !Sent(fs, p);
    }
  }

  lemma WholePush(q: Queue, fs: seq<Fragment>, x: Fragment, q': Queue, frame: seq<Byte>)
    requires Whole(q, fs) && |frame| == x.len
    requires q' == if x.len == 0 then q else q[x.offset := Entry(frame, x.doneCb)]
    ensures Whole(q', fs + [x])
  {
    assert (fs + [x])[|fs|] == x;
  }

  class FrameSorter {
    var queue: Queue
    var readPos: nat
    var gaps: seq<Interval>
    /** The DoneCb calls made by the sorter. */
    var released: multiset<nat>

    ghost predicate Valid()
      reads this
    {
      && GapsOk(gaps)
      && |gaps| <= MAX_STREAM_FRAME_SORTER_GAPS
      && Tiles(queue, gaps, readPos)
    }

    constructor ()
      ensures Valid()
      ensures queue == map[] && readPos == 0 && released == multiset{}
      ensures gaps == [Interval(0, MAX_BYTE_COUNT)]
    {
      queue, readPos, released := map[], 0, multiset{};
      gaps := [Interval(0, MAX_BYTE_COUNT)];
    }

    /** The first gap that ends at or behind offset, and whether offset lies in it or at its end. */
    method FindStartGap(offset: nat) returns (i: nat, inGap: bool)
      requires GapsOk(gaps)
      ensures i <= |gaps| && (i == |gaps| <==> MAX_BYTE_COUNT < offset)
      ensures i > 0 ==> gaps[i - 1].end < offset
      ensures i < |gaps| ==> offset <= gaps[i].end && (inGap <==> gaps[i].start <= offset)
    {
      i := 0;
      while i < |gaps|
        invariant i <= |gaps|
        invariant i > 0 ==> gaps[i - 1].end < offset
      {
        if offset >= gaps[i].start && offset <= gaps[i].end {
          return i, true;
        }
        if offset < gaps[i].start {
          return i, false;
        }
        i := i + 1;
      }
      return |gaps|, false;
    }

    /** The last gap from i on that begins at or before offset; i - 1 if there is none. */
    method FindEndGap(i: nat, offset: nat) returns (j: int, inGap: bool)
      requires GapsOk(gaps) && i < |gaps|
      ensures i - 1 <= j <= |gaps| && (j == |gaps| <==> MAX_BYTE_COUNT <= offset)
      ensures i <= j < |gaps| ==> gaps[j].start <= offset && (inGap <==> offset < gaps[j].end)
      ensures j < |gaps| && !inGap ==> j + 1 < |gaps| && offset < gaps[j + 1].start
      ensures j < i ==> !inGap
    {
      var n := i;
      while n < |gaps|
        invariant i <= n <= |gaps|
        invariant n > i ==> gaps[n - 1].end <= offset
      {
        if offset >= gaps[n].start && offset < gaps[n].end {
          return n, true;
        }
        if offset < gaps[n].start {
          return n - 1, false;
        }
        n := n + 1;
      }
      return |gaps|, false;
    }

    /** Deletes an entry and calls its callback. */
    method DeleteEntry(pos: nat)
      requires pos in queue
      modifies this`queue, this`released
      ensures queue == old(queue) - {pos}
      ensures forall c :: Account(queue, released, c) == old(Account(queue, released, c))
    {
      hide Pending;
      forall c {
        PendingRemove(queue, pos, c);
      }
      released := Call(released, queue[pos].doneCb);
      queue := queue - {pos};
    }

    /** Deletes the entries that follow each other from pos on; b is where they end. */
    method DeleteConsecutive(a: nat, ghost b: nat)
      requires Stretch(queue, a, b)
      modifies this`queue, this`released
      ensures queue == RemoveRange(old(queue), a, b)
      ensures forall c :: Account(queue, released, c) == old(Account(queue, released, c))
    {
      hide Account, Stretch, RemoveRange;
      var pos := a;
      RemoveNone(queue, a);
      FirstInStretch(queue, a, b);
      while pos in queue
        invariant a <= pos <= b && (a < pos ==> a in old(queue))
        invariant pos == a || pos == b || pos in old(queue)
        invariant queue == RemoveRange(old(queue), a, pos)
        invariant forall c :: Account(queue, released, c) == old(Account(queue, released, c))
        decreases b - pos
      {
        var oldEntry := queue[pos];
        InFront(old(queue), a, pos);
        StretchStep(old(queue), a, pos, b);
        DeleteEntry(pos);
        pos := pos + |oldEntry.data|;
      }
      RestOfStretch(old(queue), a, pos, b);
    }

    /**
     * The replacement loop of push: deletes the entries from start on that the frame [start, end) covers.
     * With an entry that reaches at least as far as the frame, the frame is a duplicate if that entry is
     * the first one, and has to be cut at pos otherwise. b is where the entries from start on end.
     */
    method ReplaceFrom(start: nat, end: nat, ghost b: nat)
      returns (pos: nat, replaced: bool, cut: bool, duplicate: bool)
      requires start < end && start <= b && (start in queue ==> Stretch(queue, start, b))
      modifies this`queue, this`released
      ensures start <= pos <= b && pos <= end
      ensures queue == RemoveRange(old(queue), start, pos)
      ensures replaced <==> start < pos
      ensures replaced ==> start in old(queue)
      ensures duplicate ==> !replaced && start in queue && end <= EndOf(queue, start) && released == old(released)
      ensures cut ==> replaced && pos in queue && (end == pos || end < EndOf(queue, pos))
      ensures !cut && !duplicate ==> if start in old(queue) then pos == b else pos == start
      ensures !duplicate && start in old(queue) ==> EndOf(old(queue), start) < end
      ensures forall c :: Account(queue, released, c) == old(Account(queue, released, c))
    {
      hide Account, Stretch, RemoveRange;
      if start in queue {
        FirstInStretch(queue, start, b);
      }
      pos, replaced, cut, duplicate := start, false, false, false;
      RemoveNone(queue, start);
      while pos in queue
        invariant start <= pos <= b && pos <= end
        invariant pos == start || pos == b || pos in old(queue)
        invariant replaced <==> start < pos
        invariant if replaced then start in old(queue) else released == old(released)
        invariant replaced ==> EndOf(old(queue), start) < end
        invariant queue == RemoveRange(old(queue), start, pos)
        invariant forall c :: Account(queue, released, c) == old(Account(queue, released, c))
        decreases b - pos
      {
        var oldEntry := queue[pos];
        InFront(old(queue), start, pos);
        StretchStep(old(queue), start, pos, b);
        if end - pos > |oldEntry.data| || (replaced && end - pos == |oldEntry.data|) {
          DeleteEntry(pos);
          pos, replaced := pos + |oldEntry.data|, true;
        } else {
          duplicate, cut := !replaced, replaced;
          return;
        }
      }
      if start in old(queue) {
        RestOfStretch(old(queue), start, pos, b);
      }
    }

    /**
     * Removes the gaps that a frame covers completely, and the entries between them. The gaps i + 1 .. j of g
     * follow the first next gaps; the frame begins at start, reaches gap j, and everything it replaces up to
     * the end of gap i (or up to gap i + 1) is already gone.
     */
    method DeleteBetween(next: nat, startGapEnd: nat, endGapStart: nat,
                         ghost q: Queue, ghost g: seq<Interval>, ghost r: nat, ghost i: nat, ghost j: nat, ghost start: nat)
      requires GapsOk(g) && Tiles(q, g, r) && i < j < |g| && start <= g[i].end
      requires startGapEnd == g[i].end && endGapStart == g[j].start
      requires next <= |gaps| && gaps[next..] == g[i + 1..]
      requires queue == RemoveRange(q, start, g[i].end) || queue == RemoveRange(q, start, g[i + 1].start)
      modifies this`queue, this`gaps, this`released
      ensures gaps == old(gaps[..next]) + g[j..]
      ensures queue == RemoveRange(q, start, g[j].start)
      ensures forall c :: Account(queue, released, c) == old(Account(queue, released, c))
    {
      hide *;
      ghost var n := i + 1;
      ghost var m := if queue == RemoveRange(q, start, g[i].end) then g[i].end else g[n].start;
      GapOrder(g, i, j);
      StepReady(q, g, r, start, i, m);
      DeleteConsecutive(startGapEnd, g[n].start);
      while gaps[next].end < endGapStart
        invariant i < n <= j && start <= g[n].end
        invariant next <= |gaps| && gaps == old(gaps[..next]) + g[n..]
        invariant queue == RemoveRange(q, start, g[n].start)
        invariant forall c :: Account(queue, released, c) == old(Account(queue, released, c))
        decreases j - n
      {
        GapOrder(g, n, j);
        StepReady(q, g, r, start, n, g[n].start);
        DeleteConsecutive(gaps[next].end, g[n + 1].start);
        DropGap(old(gaps[..next]), g, n);
        gaps := gaps[..next] + gaps[next + 1..];
        n := n + 1;
      }
      GapOrder(g, n, j);
    }

    /** Takes the frame [start, end) out of the gap it starts in. Returns where the gap behind that one now is. */
    method AdjustStartGap(i: nat, start: nat, end: nat, replaced: bool) returns (next: nat, adjustedEnd: bool)
      requires i < |gaps| && gaps[i].start < end
      requires gaps[i].start < start && replaced ==> start == gaps[i].end
      modifies this`gaps
      ensures i <= next <= i + 1 && (adjustedEnd ==> i < |gaps|)
      ensures adjustedEnd <==> old(gaps[i].start) < start && !replaced
      ensures gaps == old(gaps)[..i] + StartRest(old(gaps)[i], start, end) + old(gaps)[i + 1..]
      ensures next == i + |StartRest(old(gaps)[i], start, end)|
    {
      next, adjustedEnd := i + 1, false;
      if start <= gaps[i].start {
        if end >= gaps[i].end {
          gaps := gaps[..i] + gaps[i + 1..];
          next := i;
        } else {
          gaps := gaps[i := Interval(end, gaps[i].end)];
        }
      } else if !replaced {
        gaps := gaps[i := Interval(gaps[i].start, start)];
        adjustedEnd := true;
      }
    }

    /** Takes the frame out of the gap it ends in, which is at next if it is not the gap the frame starts in. */
    method AdjustEndGap(i: nat, next: nat, end: nat, startGapEnd: nat, endGapEnd: nat, same: bool, adjustedEnd: bool)
      requires !same ==> next < |gaps| && gaps[next].end == endGapEnd
      requires same && adjustedEnd ==> i < |gaps|
      modifies this`gaps
      ensures gaps ==
              if same then
                if end != endGapEnd && adjustedEnd
                then old(gaps)[..i + 1] + [Interval(end, startGapEnd)] + old(gaps)[i + 1..]
                else old(gaps)
              else
                old(gaps)[..next] + (if end == endGapEnd then [] else [Interval(end, endGapEnd)]) + old(gaps)[next + 1..]
    {
      if end == endGapEnd {
        if !same {
          gaps := gaps[..next] + gaps[next + 1..];
        }
      } else if same && adjustedEnd {
        gaps := gaps[..i + 1] + [Interval(end, startGapEnd)] + gaps[i + 1..];
      } else if !same {
        gaps := gaps[next := Interval(end, gaps[next].end)];
      }
    }

    /**
     * The three cuts of push: in front of an entry that reaches further (cut), at the start of the gap the
     * frame starts in, and at the end of the gap it ends in. reach is the end of the frame before the last cut.
     */
    static method CutFrame(data0: seq<Byte>, start0: nat, end0: nat, startGapStart: nat, endGapEnd: nat,
                           startsInGap: bool, endsInGap: bool, replaced: bool, cut: bool, pos: nat)
      returns (data: seq<Byte>, start: nat, reach: nat, end: nat, wasCut: bool)
      requires start0 < end0 && |data0| == end0 - start0
      requires !startsInGap && !replaced ==> start0 < startGapStart < end0 && !cut
      requires cut ==> start0 < pos <= end0
      requires var s := if !startsInGap && !replaced then startGapStart else start0;
        cut || endsInGap || s == endGapEnd || s < endGapEnd
      requires cut ==> start0 == endGapEnd
      ensures start == if !startsInGap && !replaced then startGapStart else start0
      ensures reach == if cut then pos else end0
      ensures end == if !cut && !endsInGap && start != endGapEnd && end0 > endGapEnd then endGapEnd else reach
      ensures start0 <= start < end <= end0 && data == data0[start - start0..end - start0]
      ensures wasCut <==> cut || |data| < |data0|
    {
      data, start, reach, wasCut := data0, start0, end0, false;
      if cut {
        data, reach, wasCut := data[..pos - start], pos, true;
      }
      if !startsInGap && !replaced {
        data := data[startGapStart - start..];
        start := startGapStart;
        wasCut := true;
      }
      end := reach;
      if !endsInGap && start != endGapEnd && end > endGapEnd {
        data := data[..endGapEnd - start];
        end := endGapEnd;
        wasCut := true;
      }
    }

    /** The gap updates of push for a frame that reaches from gap i to gap j. */
    method SpliceGaps(start: nat, reach: nat, end: nat, i: nat, j: nat, replaced: bool, ghost q: Queue)
      requires GapsOk(gaps) && Tiles(q, gaps, readPos) && i <= j < |gaps|
      requires gaps[i].start < reach && start <= gaps[i].end
      requires gaps[i].start < start ==> (replaced <==> start == gaps[i].end)
      requires i == j ==> end <= reach && (end != reach ==> end == gaps[i].end)
      requires i == j && gaps[i].start < start ==> if replaced then gaps[i].end < end else end <= gaps[i].end
      requires i < j ==> gaps[i].end < reach && end <= reach && end <= gaps[j].end
      requires i == j ==> queue == RemoveRange(q, start, end)
      requires i < j ==> || queue == RemoveRange(q, start, gaps[i].end)
                         || queue == RemoveRange(q, start, gaps[i + 1].start)
      requires i < j ==> RemoveRange(q, start, gaps[j].start) == RemoveRange(q, start, end)
      modifies this`queue, this`gaps, this`released
      ensures gaps == Punch(old(gaps), i, j, start, end)
      ensures queue == RemoveRange(q, start, end)
      ensures forall c :: Account(queue, released, c) == old(Account(queue, released, c))
    {
      hide *;
      ghost var g, r := gaps, readPos;
      var same := i == j;
      var startGapEnd, endGapStart, endGapEnd := gaps[i].end, gaps[j].start, gaps[j].end;
      var next, adjustedEnd := AdjustStartGap(i, start, reach, replaced);
      if same {
        AdjustEndGap(i, next, end, startGapEnd, endGapEnd, true, adjustedEnd);
        PunchSame(g, i, start, reach, end, adjustedEnd, gaps);
      } else {
        StartRestTail(g, i, start, reach);
        DeleteBetween(next, startGapEnd, endGapStart, q, g, r, i, j, start);
        FrontTail(g[..i] + StartRest(g[i], start, reach), g, j);
        AdjustEndGap(i, next, end, startGapEnd, endGapEnd, false, adjustedEnd);
        PunchAcross(g, i, j, start, reach, end, gaps);
      }
    }

    /**
     * The part of push behind the replacement loop, up to the gap limit: cuts the frame to what fits,
     * updates the gaps and deletes the entries it covers. Gaps i and j are the gaps where the frame
     * starts and ends; pos is how far the loop got.
     */
    method Splice(data0: seq<Byte>, start0: nat, end0: nat, i: nat, j: nat, startsInGap: bool, endsInGap: bool,
                  replaced: bool, cut: bool, pos: nat, ghost q: Queue)
      returns (data: seq<Byte>, start: nat, end: nat, wasCut: bool)
      requires GapsOk(gaps) && Tiles(q, gaps, readPos)
      requires |data0| == end0 - start0
      requires Located(gaps, start0, end0, i, j) && Replaced(q, gaps, start0, end0, i, pos, cut)
      requires startsInGap <==> gaps[i].start <= start0
      requires endsInGap <==> end0 < gaps[j].end
      requires replaced <==> start0 < pos
      requires queue == RemoveRange(q, start0, pos)
      modifies this`queue, this`gaps, this`released
      ensures start == PlacedStart(old(gaps), start0, i, pos)
      ensures end == PlacedEnd(old(gaps), start0, end0, i, j, pos, cut)
      ensures start0 <= start < end <= end0 && data == data0[start - start0..end - start0]
      ensures wasCut <==> cut || |data| < |data0|
      ensures gaps == Punch(old(gaps), i, j, start, end)
      ensures queue == RemoveRange(q, start, end)
      ensures forall c :: Account(queue, released, c) == old(Account(queue, released, c))
    {
      hide *;
      PlacementFacts(q, gaps, readPos, start0, end0, i, j, pos, cut);
      PlacementRemovesFirst(q, gaps, readPos, start0, end0, i, j, pos, cut);
      if i < j {
        PlacementRemovesLast(q, gaps, readPos, start0, end0, i, j, pos, cut);
      }
      var reach;
      data, start, reach, end, wasCut :=
        CutFrame(data0, start0, end0, gaps[i].start, gaps[j].end, startsInGap, endsInGap, replaced, cut, pos);
      SpliceGaps(start, reach, end, i, j, replaced, q);
    }

    /** The gap searches of push, with the two early tests for frames that were received before. */
    method Locate(start: nat, end: nat) returns (place: Place)
      requires GapsOk(gaps) && start < end
      ensures place == Beyond <==> MAX_BYTE_COUNT <= end
      ensures place == Known ==> NoGapIn(gaps, start, end) && !BehindGap(gaps, start)
      ensures place.At? ==>
              && Located(gaps, start, end, place.i, place.j)
              && (place.startsInGap <==> gaps[place.i].start <= start)
              && (place.endsInGap <==> end < gaps[place.j].end)
    {
      hide NoGapIn, BehindGap;
      if end <= gaps[0].start {
        NotBehindGap(gaps, start, end, 0);
        return Known;
      }
      var i, startsInGap := FindStartGap(start);
      if i == |gaps| {
        return Beyond;
      }
      var j, endsInGap := FindEndGap(i, end);
      if j == |gaps| {
        return Beyond;
      }
      assert 0 <= j;
      if || (i == j && end <= gaps[i].start)
         || (i != j && gaps[i].end >= gaps[j].start && end <= gaps[i].start)
      {
        NotBehindGap(gaps, start, end, i);
        return Known;
      }
      if j < i {
        assert false;
      }
      return At(i, j, startsInGap, endsInGap);
    }

    /** push: the frame is stored, or everything in it was received before, or an error is reported. */
    method TryPush(frame: seq<Byte>, offset: nat, doneCb: Option<nat>) returns (r: PushResult)
      requires Valid()
      modifies this
      ensures readPos == old(readPos)
      ensures r == Panic <==> |frame| > 0 && MAX_BYTE_COUNT <= offset + |frame|
      ensures r == TooManyGaps <==>
              r != Panic && old(|gaps|) == MAX_STREAM_FRAME_SORTER_GAPS && SplitsGap(old(gaps), offset, offset + |frame|)
      ensures r == Panic || r == Duplicate ==>
              queue == old(queue) && gaps == old(gaps) && released == old(released)
      ensures r == Duplicate <==> r != Panic && old(Dropped(queue, gaps, offset, offset + |frame|))
      ensures r == Ok ==> Stores(old(queue), old(gaps), frame, offset, doneCb, queue)
      ensures r != TooManyGaps ==> Valid()
      ensures r != Panic ==> GapsPunched(old(gaps), gaps, offset, offset + |frame|) && |gaps| <= old(|gaps|) + 1
      ensures r == Ok ==> Provenance(old(queue), queue, frame, offset)
      ensures r == Ok ==>
              forall c :: Account(queue, released, c) == old(Account(queue, released, c)) + One(doneCb, c)
    {
      hide GapsOk, Tiles, Located, NoGapIn, BehindGap, Dropped, Stores, SplitsGap, GapsPunched, Provenance, Account;
      ghost var g := gaps;
      if |frame| == 0 {
        NothingInEmpty(queue, g, offset);
        NothingNew(g, offset, offset);
        return Duplicate;
      }
      var start, end := offset, offset + |frame|;
      var place := Locate(start, end);
      if place == Beyond {
        return Panic;
      }
      if place == Known {
        KnownIsDropped(queue, g, start, end);
        NothingNew(g, start, end);
        return Duplicate;
      }
      LocatedIn(g, start, end, place.i, place.j);
      r := PushAt(frame, offset, doneCb, place);
    }

    /** push, once the gaps at both ends of the frame are known. */
    method PushAt(frame: seq<Byte>, offset: nat, doneCb: Option<nat>, place: Place) returns (r: PushResult)
      requires Valid() && |frame| > 0 && place.At? && Located(gaps, offset, offset + |frame|, place.i, place.j)
      requires place.i <= place.j < |gaps| && (place.startsInGap <==> gaps[place.i].start <= offset)
      requires place.endsInGap <==> offset + |frame| < gaps[place.j].end
      modifies this
      ensures readPos == old(readPos) && r != Panic
      ensures r == TooManyGaps <==>
              old(|gaps|) == MAX_STREAM_FRAME_SORTER_GAPS && SplitsGap(old(gaps), offset, offset + |frame|)
      ensures r == Duplicate ==> queue == old(queue) && gaps == old(gaps) && released == old(released)
      ensures r == Duplicate <==> old(Dropped(queue, gaps, offset, offset + |frame|))
      ensures r == Ok ==> Stores(old(queue), old(gaps), frame, offset, doneCb, queue)
      ensures r != TooManyGaps ==> Valid()
      ensures GapsPunched(old(gaps), gaps, offset, offset + |frame|) && |gaps| <= old(|gaps|) + 1
      ensures r == Ok ==> Provenance(old(queue), queue, frame, offset)
      ensures r == Ok ==>
              forall c :: Account(queue, released, c) == old(Account(queue, released, c)) + One(doneCb, c)
    {
      hide GapsOk, Tiles, Located, Replaced, Stretch, RunEnd, EndOf, RemoveRange, NoGapIn;
      hide SplitsGap, GapsPunched, Punch, PlacedStart, PlacedEnd, Provenance, Account, StartBoundary, EndBoundary;
      hide Dropped, Stores, StoresPart, Copied, Extent, BehindGap;
      ghost var q, g := queue, gaps;
      var At(i, j, startsInGap, endsInGap) := place;
      var start, end := offset, offset + |frame|;
      StretchFromStart(q, g, readPos, start, end, i, j);
      var pos, replaced, cut, duplicate := ReplaceFrom(start, end, RunEnd(gaps, i, start));
      RemoveNone(q, start);
      if duplicate {
        DuplicateEntry(q, g, readPos, start, end);
        KnownIsDropped(q, g, start, end);
        NothingNew(g, start, end);
        return Duplicate;
      }
      ReplacedHolds(q, queue, g, start, end, i, pos, cut);
      LocatedIsKept(q, g, readPos, start, end, i, j);
      r := Insert(frame, offset, doneCb, place, replaced, cut, pos, q);
    }

    /** push behind the replacement loop, which got as far as pos. */
    method Insert(frame: seq<Byte>, offset: nat, doneCb: Option<nat>, place: Place, replaced: bool, cut: bool, pos: nat, ghost q: Queue)
      returns (r: PushResult)
      requires GapsOk(gaps) && |gaps| <= MAX_STREAM_FRAME_SORTER_GAPS && Tiles(q, gaps, readPos)
      requires |frame| > 0 && place.At? && Located(gaps, offset, offset + |frame|, place.i, place.j)
      requires place.i <= place.j < |gaps| && (place.startsInGap <==> gaps[place.i].start <= offset)
      requires place.endsInGap <==> offset + |frame| < gaps[place.j].end
      requires Replaced(q, gaps, offset, offset + |frame|, place.i, pos, cut)
      requires (replaced <==> offset < pos) && queue == RemoveRange(q, offset, pos)
      modifies this`queue, this`gaps, this`released
      ensures r == Ok || r == TooManyGaps
      ensures r == TooManyGaps <==>
              old(|gaps|) == MAX_STREAM_FRAME_SORTER_GAPS && SplitsGap(old(gaps), offset, offset + |frame|)
      ensures GapsPunched(old(gaps), gaps, offset, offset + |frame|) && |gaps| <= old(|gaps|) + 1
      ensures r == Ok ==> Valid() && Provenance(q, queue, frame, offset) && Stores(q, old(gaps), frame, offset, doneCb, queue)
      ensures r == Ok ==> forall c :: Account(queue, released, c) == old(Account(queue, released, c)) + One(doneCb, c)
    {
      hide GapsOk, Tiles, Located, Replaced, RemoveRange, SplitsGap, GapsPunched, Punch, PlacedStart, PlacedEnd, Provenance;
      hide Account, StartBoundary, EndBoundary, Stores, Copied, Extent;
      ghost var g := gaps;
      var data, start, end, wasCut :=
        Splice(frame, offset, offset + |frame|, place.i, place.j, place.startsInGap, place.endsInGap, replaced, cut, pos, q);
      r := Store(frame, offset, data, start, end, wasCut, doneCb, q, g, place.i, place.j, pos, cut);
    }

    /** The end of push: a short piece of a frame is copied, and the data is stored unless there are too many gaps. */
    method Store(ghost frame: seq<Byte>, ghost offset: nat, data: seq<Byte>, start: nat, end: nat, wasCut: bool,
                 doneCb: Option<nat>, ghost q: Queue, ghost g: seq<Interval>, ghost i: nat, ghost j: nat,
                 ghost pos: nat, ghost cut: bool)
      returns (r: PushResult)
      requires GapsOk(g) && Tiles(q, g, readPos) && i <= j < |g|
      requires Located(g, offset, offset + |frame|, i, j) && Replaced(q, g, offset, offset + |frame|, i, pos, cut)
      requires start == PlacedStart(g, offset, i, pos) && end == PlacedEnd(g, offset, offset + |frame|, i, j, pos, cut)
      requires offset <= start < end <= offset + |frame| && data == frame[start - offset..end - offset]
      requires wasCut <==> cut || |data| < |frame|
      requires gaps == Punch(g, i, j, start, end) && queue == RemoveRange(q, start, end)
      requires |g| <= MAX_STREAM_FRAME_SORTER_GAPS
      modifies this`queue, this`released
      ensures r == Ok || r == TooManyGaps
      ensures r == TooManyGaps <==> |g| == MAX_STREAM_FRAME_SORTER_GAPS && SplitsGap(g, offset, offset + |frame|)
      ensures GapsPunched(g, gaps, offset, offset + |frame|) && |gaps| <= |g| + 1
      ensures r == Ok ==> Valid() && Provenance(q, queue, frame, offset)
      ensures r == Ok ==> Stores(q, g, frame, offset, doneCb, queue)
      ensures r == Ok ==> forall c :: Account(queue, released, c) == old(Account(queue, released, c)) + One(doneCb, c)
    {
      hide GapsOk, Tiles, Located, Replaced, PlacedStart, PlacedEnd, RemoveRange, Punch, Provenance, StartBoundary, EndBoundary;
      hide Pending, Extent, Copied, Stores, SplitsGap, GapsPunched;
      PunchedGapList(q, g, readPos, offset, offset + |frame|, i, j, pos, cut, start, end, gaps);
      PlacementFits(q, g, readPos, offset, offset + |frame|, i, j, pos, cut);
      PlacementExtent(q, g, readPos, offset, offset + |frame|, i, j, pos, cut);
      var cb := doneCb;
      if wasCut && |data| < MIN_STREAM_FRAME_BUFFER_SIZE {
        // the data is copied, so the buffer can be released
        released := Call(released, cb);
        cb := None;
      }
      if |gaps| > MAX_STREAM_FRAME_SORTER_GAPS {
        return TooManyGaps;
      }
      ghost var x := Entry(data, cb);
      StoreTiles(q, g, readPos, i, j, start, end, x);
      StoreProvenance(q, frame, offset, start, end, x);
      PartIsStored(q, g, frame, offset, doneCb, queue[start := x], start, end);
      forall c
        ensures Account(queue[start := x], released, c) == old(Account(queue, released, c)) + One(doneCb, c)
      {
        StoreAccount(q, start, end, x, c);
      }
      queue := queue[start := Entry(data, cb)];
      return Ok;
    }

    /** Push: a frame that brings nothing new is dropped and its callback called. */
    method Push(frame: seq<Byte>, offset: nat, doneCb: Option<nat>) returns (r: PushResult)
      requires Valid()
      modifies this
      ensures r != Duplicate
      ensures readPos == old(readPos)
      ensures r == Panic <==> |frame| > 0 && MAX_BYTE_COUNT <= offset + |frame|
      ensures r == TooManyGaps <==>
              r != Panic && old(|gaps|) == MAX_STREAM_FRAME_SORTER_GAPS && SplitsGap(old(gaps), offset, offset + |frame|)
      ensures r == Ok ==> Valid()
      ensures r == Ok ==> GapsPunched(old(gaps), gaps, offset, offset + |frame|) && |gaps| <= old(|gaps|) + 1
      ensures r == Ok ==>
              forall p: nat :: Covered(queue, p) <==>
                               Covered(old(queue), p) || (readPos <= p && offset <= p < offset + |frame|)
      ensures r == Ok ==> Provenance(old(queue), queue, frame, offset)
      ensures r == Ok ==>
              if old(Dropped(queue, gaps, offset, offset + |frame|))
              then queue == old(queue) && gaps == old(gaps) && released == Call(old(released), doneCb)
              else Stores(old(queue), old(gaps), frame, offset, doneCb, queue)
      ensures r == Ok && |frame| > 0 && old(AllInGaps(gaps, offset, offset + |frame|)) ==>
              queue == old(queue)[offset := Entry(frame, doneCb)] && released == old(released)
      ensures r == Ok ==>
              forall c :: Account(queue, released, c) == old(Account(queue, released, c)) + One(doneCb, c)
    {
      hide Tiles, GapsOk, SplitsGap, Covered, InGap, Dropped, Stores, AllInGaps, Pending;
      ghost var q, g := queue, gaps;
      r := TryPush(frame, offset, doneCb);
      if r == Duplicate {
        released := Call(released, doneCb);
        r := Ok;
      }
      if r == Ok {
        forall p: nat
          ensures Covered(queue, p) <==> Covered(q, p) || (readPos <= p && offset <= p < offset + |frame|)
        {
          TilesCover(q, g, readPos, p);
          TilesCover(queue, gaps, readPos, p);
        }
        if |frame| > 0 && AllInGaps(g, offset, offset + |frame|) {
          NewIsKept(q, g, offset, offset + |frame|);
          NewIsStored(q, g, readPos, frame, offset, doneCb, queue);
          NothingReleased(q, queue, old(released), released, offset, frame, doneCb);
        }
      }
    }

    /** Pop: the entry at the read position, if there is one. */
    method Pop() returns (offset: nat, data: seq<Byte>, doneCb: Option<nat>)
      requires Valid()
      modifies this`queue, this`readPos
      ensures Valid()
      ensures offset == old(readPos) && readPos == offset + |data|
      ensures data == [] <==> old(readPos == gaps[0].start)
      ensures data == [] ==> queue == old(queue) && doneCb == None
      ensures data != [] ==> offset in old(queue) && old(queue)[offset] == Entry(data, doneCb) && queue == old(queue) - {offset}
      ensures old(Run(queue, readPos)) == data + Run(queue, readPos)
      ensures forall c :: old(Pending(queue, c)) == Pending(queue, c) + One(doneCb, c)
    {
      hide GapsOk, Tiles, Segment, Pending;
      PopStart(queue, gaps, readPos);
      if readPos !in queue {
        return readPos, [], None;
      }
      var entry := queue[readPos];
      PopTiles(queue, gaps, readPos);
      forall c {
        PendingRemove(queue, readPos, c);
      }
      RunAfterRemove(queue, readPos, EndOf(queue, readPos));
      queue := queue - {readPos};
      offset := readPos;
      readPos := readPos + |entry.data|;
      // the source panics here if the first gap ends at or before the read position
      assert readPos < gaps[0].end;
      return offset, entry.data, entry.doneCb;
    }

    /** Whether anything is queued, at any offset. */
    method HasMoreData() returns (more: bool)
      requires Valid()
      ensures more <==> exists p :: Covered(queue, p)
    {
      more := |queue| > 0;
      if more {
        assert queue.Keys != {};
        ghost var k :| k in queue;
        ghost var m := EntrySegment(queue, gaps, readPos, k);
        assert Covered(queue, k);
      }
    }

    /** The first loop of Peek: whether n bytes follow each other from offset on. */
    method HasConsecutive(offset: nat, n: nat) returns (ok: bool)
      requires Valid()
      ensures ok <==> n <= |Run(queue, offset)|
    {
      hide Valid;
      ghost var all := Run(queue, offset);
      var pos: nat, remaining := offset, n;
      while remaining > 0
        invariant |all| == n - remaining + |Run(queue, pos)|
      {
        if pos !in queue {
          return false;
        }
        EntryNonEmpty(pos);
        var entryLen := |queue[pos].data|;
        if remaining <= entryLen {
          break;
        }
        remaining := remaining - entryLen;
        pos := pos + entryLen;
      }
      return true;
    }

    /** The second loop of Peek: copies the bytes that follow each other from offset on into p[lo..hi]. */
    method CopyConsecutive(offset: nat, p: array<Byte>, lo: nat, hi: nat)
      requires lo <= hi <= p.Length && hi - lo <= |Run(queue, offset)|
      modifies p
      ensures p[lo..hi] == Run(queue, offset)[..hi - lo]
      ensures p[..lo] == old(p[..lo]) && p[hi..] == old(p[hi..])
    {
      ghost var all := Run(queue, offset);
      var pos: nat, copied := offset, lo;
      while copied < hi
        invariant lo <= copied <= hi
        invariant forall i :: lo <= i < copied ==> p[i] == all[i - lo]
        invariant forall i :: 0 <= i < p.Length && !(lo <= i < hi) ==> p[i] == old(p[i])
        invariant copied < hi ==> all[copied - lo..] == Run(queue, pos)
      {
        var data := queue[pos].data;
        var n := Min(hi - copied, |data|);
        ghost var done := copied - lo;
        assert all[done..] == data + Run(queue, pos + |data|);
        assert forall i :: 0 <= i < |data| ==> all[done..][i] == data[i];
        CopyInto(p, copied, data, n);
        copied := copied + n;
        pos := pos + |data|;
        if copied < hi {
          assert all[done..][n..] == all[done + n..];
        }
      }
    }

    /** Peek: copies bytes that follow each other from offset on into p[lo..hi], if there are enough. */
    method Peek(offset: nat, p: array<Byte>, lo: nat, hi: nat) returns (ok: bool)
      requires Valid() && lo <= hi <= p.Length
      modifies p
      ensures ok <==> hi - lo <= |Run(queue, offset)|
      ensures ok ==> p[lo..hi] == Run(queue, offset)[..hi - lo]
      ensures !ok ==> p[..] == old(p[..])
      ensures p[..lo] == old(p[..lo]) && p[hi..] == old(p[hi..])
    {
      hide Run;
      ok := HasConsecutive(offset, hi - lo);
      if ok {
        CopyConsecutive(offset, p, lo, hi);
      }
    }

    lemma EntryNonEmpty(k: nat)
      requires Valid() && k in queue
      ensures |queue[k].data| > 0
    {
      var m := EntrySegment(queue, gaps, readPos, k);
    }
  }

  /** A short frame that replaces an entry and goes on in a gap is not copied: its callback waits in the queue. */
  method ReplacingFrame(a: seq<Byte>, b: seq<Byte>, c: nat) returns (data: seq<Byte>, doneCb: Option<nat>)
    requires 0 < |a| < |b| < MIN_STREAM_FRAME_BUFFER_SIZE
    ensures data == b && doneCb == Some(c)
  {
    hide Account, Covered, Provenance, Dropped, Stores, InGap;
    var f := new FrameSorter();
    hide f.Valid;
    OneGap(0, |b|);
    var r := f.Push(a, 0, None);
    ghost var q, g := f.queue, f.gaps;
    assert InGap(g, |a|) && InGap(g, |b| - 1);
    NotDropped(q, g, |a|, |b|);
    r := f.Push(b, 0, Some(c));
    ReplacesEntry(q, g, |a|, b, c, f.queue);
    assert !InGap(f.gaps, 0);
    NotAtGap(f.gaps, 0);
    var offset;
    offset, data, doneCb := f.Pop();
  }

  lemma NotDropped(q: Queue, g: seq<Interval>, p: nat, end: nat)
    requires p < end && InGap(g, p)
    ensures !Dropped(q, g, 0, end)
  {
  }

  lemma ReplacesEntry(q: Queue, g: seq<Interval>, p: nat, b: seq<Byte>, c: nat, q': Queue)
    requires 0 in q && p < |b| && InGap(g, p) && InGap(g, |b| - 1) && Stores(q, g, b, 0, Some(c), q')
    ensures 0 in q' && q'[0] == Entry(b, Some(c))
  {
    hide InGap;
    var s, e :| StoresPart(q, g, b, 0, Some(c), q', s, e);
    assert !NoGapIn(g, 0, |b|);
    assert b[..|b|] == b;
  }

  lemma NotAtGap(g: seq<Interval>, p: nat)
    requires GapsOk(g) && !InGap(g, p)
    ensures g[0].start != p
  {
    assert !(g[0].start <= p < g[0].end);
  }

  lemma OneGap(start: nat, end: nat)
    requires end < MAX_BYTE_COUNT
    ensures AllInGaps([Interval(0, MAX_BYTE_COUNT)], start, end)
  {
    var g := [Interval(0, MAX_BYTE_COUNT)];
    forall p: nat | start <= p < end
      ensures InGap(g, p)
    {
      assert g[0].start <= p < g[0].end;
    }
  }
}
