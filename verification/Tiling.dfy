/**
 * The value-level model of a frame sorter: a sorted list of gaps and a queue of received
 * fragments that together tile the stream from the read position on.
 */
module Tiling {
  import opened Protocol

  /** A half-open byte range that has not been received. */
  datatype Interval = Interval(start: nat, end: nat)

  /** A received fragment. The callback, if any, is named by a number. */
  datatype Entry = Entry(data: seq<Byte>, doneCb: Option<nat>)

  /** Received fragments, keyed by the stream offset of their first byte. */
  type Queue = map<nat, Entry>

  // ---------------------------------------------------------------------------
  // Gaps
  // ---------------------------------------------------------------------------

  /** Gaps are non-empty, sorted, never touch each other, and the last one is open-ended. */
  ghost predicate GapsOk(g: seq<Interval>) {
    && |g| > 0
    && (forall i :: 0 <= i < |g| ==> g[i].start < g[i].end)
    && (forall i, j :: 0 <= i < j < |g| ==> g[i].end < g[j].start)
    && g[|g| - 1].end == MAX_BYTE_COUNT
  }

  ghost predicate InGap(g: seq<Interval>, p: nat) {
    exists i :: 0 <= i < |g| && g[i].start <= p < g[i].end
  }

  // ---------------------------------------------------------------------------
  // Queue
  // ---------------------------------------------------------------------------

  /** First offset behind entry k. */
  ghost function EndOf(q: Queue, k: nat): nat
    requires k in q
  {
    k + |q[k].data|
  }

  ghost predicate Covered(q: Queue, p: nat) {
    exists k :: k in q && k <= p < EndOf(q, k)
  }

  function RemoveRange(q: Queue, a: nat, b: nat): Queue {
    map k | k in q && !(a <= k < b) :: q[k]
  }

  /** The entries that start in [a, b) lie end to end and fill [a, b) exactly. */
  ghost predicate Segment(q: Queue, a: nat, b: nat) {
    && a <= b
    && (a < b ==> a in q)
    && (forall k :: k in q && a <= k < b ==>
          |q[k].data| > 0 && EndOf(q, k) <= b && (EndOf(q, k) < b ==> EndOf(q, k) in q))
    && (forall k, k' :: k in q && k' in q && a <= k < k' < b ==> EndOf(q, k) <= k')
  }

  /** Where the received data in front of gap n begins. */
  ghost function Lo(g: seq<Interval>, r: nat, n: nat): nat
    requires n < |g|
  {
    if n == 0 then r else g[n - 1].end
  }

  /** Entries were only taken away. */
  ghost predicate Within(q': Queue, q: Queue) {
    forall k :: k in q' ==> k in q && q'[k] == q[k]
  }

  /** The queue tiles exactly the part of [r, MAX_BYTE_COUNT) that is outside the gaps. */
  ghost predicate Tiles(q: Queue, g: seq<Interval>, r: nat) {
    && (forall n :: 0 <= n < |g| ==> Segment(q, Lo(g, r, n), g[n].start))
    && (forall k :: k in q ==> r <= k < MAX_BYTE_COUNT)
    && (forall k, n :: k in q && 0 <= n < |g| ==> k < g[n].start || g[n].end <= k)
  }

  // ---------------------------------------------------------------------------
  // Segments
  // ---------------------------------------------------------------------------

  /** A segment depends only on the entries that start inside it. */
  lemma SegmentFrame(q: Queue, q': Queue, a: nat, b: nat)
    requires Segment(q, a, b)
    requires forall k :: a <= k < b ==> (k in q <==> k in q') && (k in q ==> q[k] == q'[k])
    ensures Segment(q', a, b)
  {
    forall k | k in q' && a <= k < b
      ensures |q'[k].data| > 0 && EndOf(q', k) <= b && (EndOf(q', k) < b ==> EndOf(q', k) in q')
    {
      assert EndOf(q, k) == EndOf(q', k);
    }
    forall k, k' | k in q' && k' in q' && a <= k < k' < b
      ensures EndOf(q', k) <= k'
    {
      assert EndOf(q, k) == EndOf(q', k);
      assert k in q && k' in q;
    }
  }

  /** A segment can be cut where an entry starts. */
  lemma SegmentPrefix(q: Queue, a: nat, m: nat, b: nat)
    requires Segment(q, a, b)
    requires a <= m <= b
    requires m == b || m in q
    ensures Segment(q, a, m)
  {
    forall k | k in q && a <= k < m
      ensures |q[k].data| > 0 && EndOf(q, k) <= m && (EndOf(q, k) < m ==> EndOf(q, k) in q)
    {
    }
  }

  lemma SegmentSuffix(q: Queue, a: nat, m: nat, b: nat)
    requires Segment(q, a, b)
    requires a <= m <= b
    requires m == a || m == b || m in q
    ensures Segment(q, m, b)
  {
  }

  lemma SegmentJoin(q: Queue, a: nat, m: nat, b: nat)
    requires Segment(q, a, m) && Segment(q, m, b)
    ensures Segment(q, a, b)
  {
    forall k | k in q && a <= k < b
      ensures |q[k].data| > 0 && EndOf(q, k) <= b && (EndOf(q, k) < b ==> EndOf(q, k) in q)
    {
    }
    JoinedOrder(q, a, m, b);
  }

  lemma JoinedOrder(q: Queue, a: nat, m: nat, b: nat)
    requires Segment(q, a, m) && Segment(q, m, b)
    ensures forall k, k' :: k in q && k' in q && a <= k < k' < b ==> EndOf(q, k) <= k'
  {
    forall k, k' | k in q && k' in q && a <= k < k' < b
      ensures EndOf(q, k) <= k'
    {
      if k < m {
        assert EndOf(q, k) <= m;
      }
    }
  }

  /** Every position of a segment is covered. */
  lemma {:induction false} SegmentCovers(q: Queue, a: nat, b: nat, p: nat)
    requires Segment(q, a, b) && a <= p < b
    ensures Covered(q, p)
    decreases b - a
  {
    if p < EndOf(q, a) {
      assert a in q && a <= p < EndOf(q, a);
    } else {
      SegmentSuffix(q, a, EndOf(q, a), b);
      SegmentCovers(q, EndOf(q, a), b, p);
    }
  }

  /** The first gap that begins behind p. */
  lemma {:induction false} NextGap(g: seq<Interval>, p: nat, n: nat) returns (m: nat)
    requires GapsOk(g) && n < |g| && p < g[|g| - 1].start
    requires n == 0 || g[n - 1].start <= p
    ensures n <= m < |g| && p < g[m].start && (m == 0 || g[m - 1].start <= p)
    decreases |g| - n
  {
    if p < g[n].start {
      m := n;
    } else {
      m := NextGap(g, p, n + 1);
    }
  }

  /** An entry lies in the segment in front of the next gap. */
  lemma EntrySegment(q: Queue, g: seq<Interval>, r: nat, k: nat) returns (m: nat)
    requires GapsOk(g) && Tiles(q, g, r) && k in q
    ensures m < |g| && Lo(g, r, m) <= k < EndOf(q, k) <= g[m].start
  {
    assert k < g[|g| - 1].start;
    m := NextGap(g, k, 0);
    assert Segment(q, Lo(g, r, m), g[m].start);
  }

  /** Between two neighbouring gaps there is no gap. */
  lemma BetweenGaps(g: seq<Interval>, m: nat, p: nat)
    requires GapsOk(g) && m < |g| && p < g[m].start && (m == 0 || g[m - 1].end <= p)
    ensures !InGap(g, p)
  {
  }

  /** The queue covers exactly what lies at or behind the read position and in no gap. */
  lemma TilesCover(q: Queue, g: seq<Interval>, r: nat, p: nat)
    requires GapsOk(g) && Tiles(q, g, r)
    ensures Covered(q, p) <==> r <= p < MAX_BYTE_COUNT && !InGap(g, p)
  {
    if Covered(q, p) {
      var k :| k in q && k <= p < EndOf(q, k);
      var m := EntrySegment(q, g, r, k);
      BetweenGaps(g, m, p);
    }
    if r <= p < MAX_BYTE_COUNT && !InGap(g, p) {
      UncoveredIsGap(q, g, r, p);
    }
  }

  lemma UncoveredIsGap(q: Queue, g: seq<Interval>, r: nat, p: nat)
    requires GapsOk(g) && Tiles(q, g, r)
    requires r <= p < MAX_BYTE_COUNT && !InGap(g, p)
    ensures Covered(q, p)
  {
    var last := |g| - 1;
    assert p < g[last].start;
    var m := NextGap(g, p, 0);
    assert Segment(q, Lo(g, r, m), g[m].start);
    SegmentCovers(q, Lo(g, r, m), g[m].start, p);
  }

  // ---------------------------------------------------------------------------
  // Inserting one fragment
  // ---------------------------------------------------------------------------

  /** What is left of gap i in front of s and of gap j behind e. */
  ghost function Remains(g: seq<Interval>, i: nat, j: nat, s: nat, e: nat): seq<Interval>
    requires i <= j < |g|
  {
    (if g[i].start < s then [Interval(g[i].start, s)] else []) +
    (if e < g[j].end then [Interval(e, g[j].end)] else [])
  }

  /** The gaps i..j are replaced by what [s, e) leaves of them. */
  ghost function Punch(g: seq<Interval>, i: nat, j: nat, s: nat, e: nat): seq<Interval>
    requires i <= j < |g|
  {
    g[..i] + Remains(g, i, j, s, e) + g[j + 1..]
  }

  /** A place where a fragment may begin: in gap i, or where an entry around it begins. */
  ghost predicate StartBoundary(q: Queue, g: seq<Interval>, r: nat, i: nat, s: nat)
    requires i < |g|
  {
    && Lo(g, r, i) <= s <= g[i].end
    && (s < g[i].start ==> s in q)
  }

  /** A place where a fragment may end: in gap j, or where an entry right behind it begins. */
  ghost predicate EndBoundary(q: Queue, g: seq<Interval>, j: nat, e: nat)
    requires j < |g|
  {
    && g[j].start <= e < MAX_BYTE_COUNT
    && (g[j].end < e ==> j + 1 < |g| && e < g[j + 1].start && e in q)
  }

  /** Punching a range out of the gap list keeps it sorted, open-ended and without touching gaps. */
  lemma PunchGapsOk(q: Queue, g: seq<Interval>, r: nat, i: nat, j: nat, s: nat, e: nat)
    requires GapsOk(g) && i <= j < |g| && s < e
    requires StartBoundary(q, g, r, i, s) && EndBoundary(q, g, j, e)
    ensures GapsOk(Punch(g, i, j, s, e))
  {
    var g' := Punch(g, i, j, s, e);
    assert e < g[j].end || j + 1 < |g|;
    forall n | 0 <= n < |g'|
      ensures g'[n].start < g'[n].end
    {
      hide Punch;
      PunchAt(g, i, j, s, e, n);
    }
    forall n, m | 0 <= n < m < |g'|
      ensures g'[n].end < g'[m].start
    {
      hide Punch;
      PunchAt(g, i, j, s, e, n);
      PunchAt(g, i, j, s, e, m);
    }
  }

  /** Punching [s, e) out of the gap list removes exactly that range. */
  lemma PunchInGap(q: Queue, g: seq<Interval>, r: nat, i: nat, j: nat, s: nat, e: nat, p: nat)
    requires GapsOk(g) && i <= j < |g| && s < e
    requires StartBoundary(q, g, r, i, s) && EndBoundary(q, g, j, e)
    ensures InGap(Punch(g, i, j, s, e), p) <==> InGap(g, p) && !(s <= p < e)
  {
    if InGap(Punch(g, i, j, s, e), p) {
      PunchShrinks(q, g, r, i, j, s, e, p);
    }
    if InGap(g, p) && !(s <= p < e) {
      PunchKeeps(q, g, r, i, j, s, e, p);
    }
  }

  /** Each gap of the punched list is an old one or one of the two remains. */
  lemma PunchAt(g: seq<Interval>, i: nat, j: nat, s: nat, e: nat, n: nat)
    requires i <= j < |g| && n < |Punch(g, i, j, s, e)|
    ensures var h, k := Punch(g, i, j, s, e)[n], n - i - |Remains(g, i, j, s, e)| + j + 1;
      || (n < i && h == g[n])
      || (j < k < |g| && h == g[k])
      || (n == i && g[i].start < s && h == Interval(g[i].start, s))
      || (n == i + |Remains(g, i, j, s, e)| - 1 && e < g[j].end && h == Interval(e, g[j].end))
  {
  }

  lemma PunchShrinks(q: Queue, g: seq<Interval>, r: nat, i: nat, j: nat, s: nat, e: nat, p: nat)
    requires GapsOk(g) && i <= j < |g| && s < e
    requires StartBoundary(q, g, r, i, s) && EndBoundary(q, g, j, e)
    requires InGap(Punch(g, i, j, s, e), p)
    ensures InGap(g, p) && !(s <= p < e)
  {
    var g' := Punch(g, i, j, s, e);
    var n :| 0 <= n < |g'| && g'[n].start <= p < g'[n].end;
    PunchAt(g, i, j, s, e, n);
  }

  lemma PunchKeeps(q: Queue, g: seq<Interval>, r: nat, i: nat, j: nat, s: nat, e: nat, p: nat)
    requires GapsOk(g) && i <= j < |g| && s < e
    requires StartBoundary(q, g, r, i, s) && EndBoundary(q, g, j, e)
    requires InGap(g, p) && !(s <= p < e)
    ensures InGap(Punch(g, i, j, s, e), p)
  {
    hide Punch;
    var n :| 0 <= n < |g| && g[n].start <= p < g[n].end;
    PunchOther(g, i, j, s, e, n);
    if i <= n <= j {
      if p < s {
        OnlyFirst(g, i, j, s, n, p);
      } else {
        OnlyLast(g, i, j, e, n, p);
      }
    }
  }

  /** Where the gaps of the old list are in the punched one. */
  lemma PunchOther(g: seq<Interval>, i: nat, j: nat, s: nat, e: nat, n: nat)
    requires i <= j < |g| && n < |g|
    ensures var g', rest := Punch(g, i, j, s, e), Remains(g, i, j, s, e);
      && |g'| == i + |rest| + |g| - j - 1
      && (n < i ==> g'[n] == g[n])
      && (j < n ==> g'[n - j - 1 + i + |rest|] == g[n])
      && (g[i].start < s ==> g'[i] == Interval(g[i].start, s))
      && (e < g[j].end ==> g'[i + |rest| - 1] == Interval(e, g[j].end))
  {
  }

  lemma OnlyFirst(g: seq<Interval>, i: nat, j: nat, s: nat, n: nat, p: nat)
    requires GapsOk(g) && i <= n <= j < |g| && g[n].start <= p < g[n].end && p < s <= g[i].end
    ensures n == i
  {
  }

  lemma OnlyLast(g: seq<Interval>, i: nat, j: nat, e: nat, n: nat, p: nat)
    requires GapsOk(g) && i <= n <= j < |g| && g[n].start <= p < g[n].end && g[j].start <= e <= p
    ensures n == j
  {
  }

  /** The queue after the fragment [s, e) took the place of every entry that started in it. */
  ghost function Insert(q: Queue, s: nat, e: nat, x: Entry): Queue {
    RemoveRange(q, s, e)[s := x]
  }

  /** The preconditions under which a fragment can be inserted. */
  ghost predicate Fits(q: Queue, g: seq<Interval>, r: nat, i: nat, j: nat, s: nat, e: nat, x: Entry) {
    && GapsOk(g) && Tiles(q, g, r)
    && i <= j < |g| && s < e && |x.data| == e - s
    && StartBoundary(q, g, r, i, s) && EndBoundary(q, g, j, e)
  }

  /** Segments that do not meet [s, e) survive the insertion. */
  lemma InsertFrame(q: Queue, s: nat, e: nat, x: Entry, a: nat, b: nat)
    requires Segment(q, a, b) && s < e && (b <= s || e <= a)
    ensures Segment(Insert(q, s, e, x), a, b)
  {
    SegmentFrame(q, Insert(q, s, e, x), a, b);
  }

  lemma InsertedSegment(q: Queue, s: nat, e: nat, x: Entry)
    requires s < e && |x.data| == e - s
    ensures Segment(Insert(q, s, e, x), s, e)
  {
  }

  /** In front of the new fragment the received data still reaches up to it. */
  lemma HeadSegment(q: Queue, g: seq<Interval>, r: nat, i: nat, j: nat, s: nat, e: nat, x: Entry)
    requires Fits(q, g, r, i, j, s, e, x) && s <= g[i].start
    ensures Segment(Insert(q, s, e, x), Lo(g, r, i), s)
  {
    hide Segment;
    hide Insert;
    assert Segment(q, Lo(g, r, i), g[i].start);
    SegmentPrefix(q, Lo(g, r, i), s, g[i].start);
    InsertFrame(q, s, e, x, Lo(g, r, i), s);
  }

  /** Behind the new fragment the received data reaches up to the next gap. */
  lemma TailSegment(q: Queue, g: seq<Interval>, r: nat, i: nat, j: nat, s: nat, e: nat, x: Entry)
    requires Fits(q, g, r, i, j, s, e, x) && g[j].end <= e
    ensures j + 1 < |g| && Segment(Insert(q, s, e, x), e, g[j + 1].start)
  {
    hide Segment;
    hide Insert;
    assert j + 1 < |g|;
    assert Segment(q, Lo(g, r, j + 1), g[j + 1].start);
    assert e == g[j].end || e in q;
    SegmentSuffix(q, g[j].end, e, g[j + 1].start);
    InsertFrame(q, s, e, x, e, g[j + 1].start);
  }

  /** The segment that contains the new fragment. */
  lemma MiddleSegment(q: Queue, g: seq<Interval>, r: nat, i: nat, j: nat, s: nat, e: nat, x: Entry)
    requires Fits(q, g, r, i, j, s, e, x)
    ensures g[j].end <= e ==> j + 1 < |g|
    ensures Segment(Insert(q, s, e, x),
                    if g[i].start < s then s else Lo(g, r, i),
                    if e < g[j].end then e else g[j + 1].start)
  {
    hide Segment;
    hide Insert;
    var q' := Insert(q, s, e, x);
    InsertedSegment(q, s, e, x);
    if s <= g[i].start {
      HeadSegment(q, g, r, i, j, s, e, x);
      SegmentJoin(q', Lo(g, r, i), s, e);
    }
    if g[j].end <= e {
      TailSegment(q, g, r, i, j, s, e, x);
      SegmentJoin(q', if g[i].start < s then s else Lo(g, r, i), e, g[j + 1].start);
    }
  }

  /** The bounds of the received data in front of each gap of the punched list. */
  lemma PunchBounds(g: seq<Interval>, r: nat, i: nat, j: nat, s: nat, e: nat, n: nat)
    requires i <= j < |g| && n < |Punch(g, i, j, s, e)|
    ensures
      var g' := Punch(g, i, j, s, e);
      var m := if g[i].start < s then i + 1 else i;
      var k := n - i - |Remains(g, i, j, s, e)| + j + 1;
      && (n < m ==> g'[n].start == g[n].start && Lo(g', r, n) == Lo(g, r, n))
      && (n == m ==>
            && Lo(g', r, n) == (if g[i].start < s then s else Lo(g, r, i))
            && (e < g[j].end ==> g'[n].start == e)
            && (g[j].end <= e ==> j + 1 < |g| && g'[n].start == g[j + 1].start))
      && (n > m ==> j < k < |g| && (g[j].end <= e ==> j + 1 < k)
                    && g'[n].start == g[k].start && Lo(g', r, n) == Lo(g, r, k))
  {
  }

  /** Every segment of the new state. */
  lemma InsertSegments(q: Queue, g: seq<Interval>, r: nat, i: nat, j: nat, s: nat, e: nat, x: Entry, n: nat)
    requires Fits(q, g, r, i, j, s, e, x)
    requires n < |Punch(g, i, j, s, e)|
    ensures var g' := Punch(g, i, j, s, e);
      Segment(Insert(q, s, e, x), Lo(g', r, n), g'[n].start)
  {
    hide Segment, Insert, Punch, Tiles, Remains;
    PunchBounds(g, r, i, j, s, e, n);
    var m := if g[i].start < s then i + 1 else i;
    if n < m {
      SegmentInFront(q, g, r, i, j, s, e, x, n);
    } else if n == m {
      MiddleSegment(q, g, r, i, j, s, e, x);
    } else {
      SegmentBehind(q, g, r, i, j, s, e, x, n - i - |Remains(g, i, j, s, e)| + j + 1);
    }
  }

  lemma SegmentInFront(q: Queue, g: seq<Interval>, r: nat, i: nat, j: nat, s: nat, e: nat, x: Entry, n: nat)
    requires Fits(q, g, r, i, j, s, e, x) && n < if g[i].start < s then i + 1 else i
    ensures Segment(Insert(q, s, e, x), Lo(g, r, n), g[n].start)
  {
    hide Segment, Insert, Tiles;
    TilesSegment(q, g, r, n);
    assert g[n].start <= s;
    InsertFrame(q, s, e, x, Lo(g, r, n), g[n].start);
  }

  lemma SegmentBehind(q: Queue, g: seq<Interval>, r: nat, i: nat, j: nat, s: nat, e: nat, x: Entry, k: nat)
    requires Fits(q, g, r, i, j, s, e, x) && j < k < |g| && (g[j].end <= e ==> j + 1 < k)
    ensures Segment(Insert(q, s, e, x), Lo(g, r, k), g[k].start)
  {
    hide Segment, Insert, Tiles;
    TilesSegment(q, g, r, k);
    assert e <= g[k - 1].end;
    InsertFrame(q, s, e, x, Lo(g, r, k), g[k].start);
  }

  lemma TilesSegment(q: Queue, g: seq<Interval>, r: nat, n: nat)
    requires Tiles(q, g, r) && n < |g|
    ensures Segment(q, Lo(g, r, n), g[n].start)
  {
  }

  /** No entry of the new state starts inside a gap. */
  lemma InsertAvoidsGaps(q: Queue, g: seq<Interval>, r: nat, i: nat, j: nat, s: nat, e: nat, x: Entry, k: nat, n: nat)
    requires Fits(q, g, r, i, j, s, e, x)
    requires k in Insert(q, s, e, x) && n < |Punch(g, i, j, s, e)|
    ensures var g' := Punch(g, i, j, s, e);
      k < g'[n].start || g'[n].end <= k
  {
    hide Segment;
    hide Punch;
    PunchAt(g, i, j, s, e, n);
  }

  /** Inserting a fragment keeps the tiling: the representation invariant of the sorter. */
  lemma InsertTiles(q: Queue, g: seq<Interval>, r: nat, i: nat, j: nat, s: nat, e: nat, x: Entry)
    requires Fits(q, g, r, i, j, s, e, x)
    ensures Tiles(Insert(q, s, e, x), Punch(g, i, j, s, e), r)
  {
    hide Segment;
    hide Punch;
    var g', q' := Punch(g, i, j, s, e), Insert(q, s, e, x);
    forall n | 0 <= n < |g'|
      ensures Segment(q', Lo(g', r, n), g'[n].start)
    {
      InsertSegments(q, g, r, i, j, s, e, x, n);
    }
    LoAtLeast(g, q, r, i);
    forall k, n | k in q' && 0 <= n < |g'|
      ensures k < g'[n].start || g'[n].end <= k
    {
      InsertAvoidsGaps(q, g, r, i, j, s, e, x, k, n);
    }
  }

  lemma LoAtLeast(g: seq<Interval>, q: Queue, r: nat, i: nat)
    requires GapsOk(g) && Tiles(q, g, r) && i < |g|
    ensures r <= Lo(g, r, i)
  {
    assert Segment(q, Lo(g, r, 0), g[0].start);
  }
}
