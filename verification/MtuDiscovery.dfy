/** Path MTU search (quicfork/mtu_discoverer.go). */
module MtuDiscovery {
  import opened Protocol

  const MAX_MTU_DIFF: nat := 20
  const MAX_LOST_MTU_PROBES: nat := 3

  // ---------------------------------------------------------------------------
  // The table of lost probe sizes
  // ---------------------------------------------------------------------------

  /** Sorted sizes, at least one of them, then free slots. */
  ghost predicate TableOk(l: seq<int>) {
    && |l| == MAX_LOST_MTU_PROBES
    && 0 <= l[0]
    && (l[1] == INVALID_BYTE_COUNT || l[0] <= l[1])
    && (l[2] == INVALID_BYTE_COUNT || (l[1] != INVALID_BYTE_COUNT && l[1] <= l[2]))
  }

  /** No size in the table is below min. */
  ghost predicate LostOk(l: seq<int>, min: nat) {
    TableOk(l) && min <= l[0]
  }

  /** The upper end of the search: the largest size in the table. */
  ghost function Upper(l: seq<int>): int
    requires |l| == MAX_LOST_MTU_PROBES
  {
    if l[1] == INVALID_BYTE_COUNT then l[0] else if l[2] == INVALID_BYTE_COUNT then l[1] else l[2]
  }

  /** How many sizes lie strictly between min and the upper end. */
  ghost function Between(l: seq<int>, min: nat): nat
    requires |l| == MAX_LOST_MTU_PROBES
  {
    Bit(min < l[0] < Upper(l)) + Bit(min < l[1] < Upper(l)) + Bit(min < l[2] < Upper(l))
  }

  /** How many slots are free or hold the upper end. */
  ghost function Slack(l: seq<int>): nat
    requires |l| == MAX_LOST_MTU_PROBES
  {
    var free := (x: int) => x == INVALID_BYTE_COUNT || x == Upper(l);
    Bit(free(l[0])) + Bit(free(l[1])) + Bit(free(l[2]))
  }

  /** How many sizes are at most m. */
  ghost function AtMost(l: seq<int>, m: nat): nat
    requires |l| == MAX_LOST_MTU_PROBES
  {
    Bit(0 <= l[0] <= m) + Bit(0 <= l[1] <= m) + Bit(0 <= l[2] <= m)
  }

  /** The state of a search, without the heap. */
  datatype Search = Search(min: nat, lost: seq<int>, lastProbeWasLost: bool)

  ghost predicate SearchOk(s: Search) {
    && LostOk(s.lost, s.min)
    && (!s.lastProbeWasLost ==> s.min < s.lost[0])
  }

  /** The order in which every probe makes progress. */
  ghost predicate Closer(s': Search, s: Search)
    requires |s.lost| == |s'.lost| == MAX_LOST_MTU_PROBES
  {
    var w', w := Upper(s'.lost) - s'.min, Upper(s.lost) - s.min;
    var b', b := Between(s'.lost, s'.min), Between(s.lost, s.min);
    var f', f := Bit(s'.lastProbeWasLost), Bit(s.lastProbeWasLost);
    || w' < w
    || (w' == w && b' > b)
    || (w' == w && b' == b && f' < f)
    || (w' == w && b' == b && f' == f && Slack(s'.lost) < Slack(s.lost))
  }

  predicate IsDone(upper: int, min: int) {
    upper - min <= MAX_MTU_DIFF + 1
  }

  /** The size of the next probe. */
  ghost function ProbeSize(s: Search): nat
    requires SearchOk(s)
  {
    if s.lastProbeWasLost then (s.min + s.lost[0]) / 2 else (s.min + Upper(s.lost)) / 2
  }

  /** What an acknowledged probe leaves of the table: the sizes above it. */
  ghost function Above(l: seq<int>, size: nat): seq<int>
    requires |l| == MAX_LOST_MTU_PROBES
  {
    if size < l[0] then l
    else if size < l[1] then [l[1], l[2], INVALID_BYTE_COUNT]
    else if size < l[2] then [l[2], INVALID_BYTE_COUNT, INVALID_BYTE_COUNT]
    else l
  }

  /** A lost probe takes its place in the table; the largest size drops out if there is no free slot. */
  ghost function With(l: seq<int>, size: nat): seq<int>
    requires |l| == MAX_LOST_MTU_PROBES
  {
    if size < l[0] then [size, l[0], l[1]]
    else if size < l[1] then [l[0], size, l[1]]
    else if size < l[2] then [l[0], l[1], size]
    else l
  }

  ghost function Acked(s: Search): Search
    requires SearchOk(s)
  {
    Search(ProbeSize(s), Above(s.lost, ProbeSize(s)), false)
  }

  ghost function Lost(s: Search): Search
    requires SearchOk(s)
  {
    Search(s.min, With(s.lost, ProbeSize(s)), true)
  }

  /** A probe is at least as large as the current size and smaller than the upper end. */
  lemma ProbeInRange(s: Search)
    requires SearchOk(s) && !IsDone(Upper(s.lost), s.min)
    ensures s.min <= ProbeSize(s) < Upper(s.lost)
  {
  }

  /** After a loss the search goes on below the lost size, halfway to the smallest size that was lost. */
  lemma ProbeAfterLoss(s: Search)
    requires SearchOk(s) && SearchOk(Lost(s)) && !IsDone(Upper(s.lost), s.min)
    ensures ProbeSize(Lost(s)) == (s.min + Min(s.lost[0], ProbeSize(s))) / 2
    ensures s.min < ProbeSize(s) ==> ProbeSize(Lost(s)) < ProbeSize(s)
  {
    ProbeInRange(s);
  }

  /** After an acknowledgement it goes on above the acknowledged size, halfway to the largest size that was lost. */
  lemma ProbeAfterAck(s: Search)
    requires SearchOk(s) && SearchOk(Acked(s)) && !IsDone(Upper(s.lost), s.min)
    ensures ProbeSize(Acked(s)) == (ProbeSize(s) + Upper(s.lost)) / 2
    ensures ProbeSize(s) + 1 < Upper(s.lost) ==> ProbeSize(s) < ProbeSize(Acked(s))
  {
    ProbeInRange(s);
  }

  /** Every acknowledgement brings the search closer to its end. */
  lemma AckedCloser(s: Search)
    requires SearchOk(s) && !IsDone(Upper(s.lost), s.min)
    ensures SearchOk(Acked(s)) && Upper(Acked(s).lost) == Upper(s.lost)
    ensures Closer(Acked(s), s)
  {
    ProbeInRange(s);
  }

  /** Every loss brings the search closer to its end. */
  lemma LostCloser(s: Search)
    requires SearchOk(s) && !IsDone(Upper(s.lost), s.min)
    ensures SearchOk(Lost(s)) && Upper(Lost(s).lost) <= Upper(s.lost)
    ensures Closer(Lost(s), s)
  {
    ProbeInRange(s);
  }

  // ---------------------------------------------------------------------------
  // Speed
  // ---------------------------------------------------------------------------

  /** How often a search of width w has to be halved. */
  ghost function Halvings(w: nat): nat {
    if w <= MAX_MTU_DIFF + 1 then 0 else 1 + Halvings((w + 1) / 2)
  }

  /** That is a logarithm of the width. */
  lemma {:induction false} HalvingsLogarithmic(w: nat)
    ensures Halvings(w) > 0 ==> MAX_MTU_DIFF * Pow2(Halvings(w) - 1) < w - 1
  {
    if w > MAX_MTU_DIFF + 1 {
      HalvingsLogarithmic((w + 1) / 2);
    }
  }

  lemma {:induction false} HalvingsMonotone(w: nat, w': nat)
    requires w <= w'
    ensures Halvings(w) <= Halvings(w')
    decreases w
  {
    if w > MAX_MTU_DIFF + 1 {
      HalvingsMonotone((w + 1) / 2, (w' + 1) / 2);
    }
  }

  ghost function Width(s: Search): int
    requires |s.lost| == MAX_LOST_MTU_PROBES
  {
    Upper(s.lost) - s.min
  }

  /** How many sizes lie above min, by half at most. */
  ghost function Low(s: Search, half: nat): nat
    requires |s.lost| == MAX_LOST_MTU_PROBES
  {
    Bit(0 < s.lost[0] - s.min <= half) + Bit(0 < s.lost[1] - s.min <= half) + Bit(0 < s.lost[2] - s.min <= half)
  }

  /** How many times min itself was lost. */
  ghost function AtMin(s: Search): nat
    requires |s.lost| == MAX_LOST_MTU_PROBES
  {
    Bit(s.lost[0] == s.min) + Bit(s.lost[1] == s.min) + Bit(s.lost[2] == s.min)
  }

  /** How many probes it takes until the width is half at most. */
  ghost function Rank(s: Search, half: nat): int
    requires |s.lost| == MAX_LOST_MTU_PROBES
  {
    6 * (2 - Low(s, half)) + 3 * Bit(s.lastProbeWasLost) + 2 - AtMin(s)
  }

  const PROBES_PER_HALVING: nat := 18

  lemma RankBounds(s: Search, half: nat)
    requires SearchOk(s) && Width(s) > half
    ensures 0 <= Rank(s, half) < PROBES_PER_HALVING
  {
  }

  lemma AckedRank(s: Search, half: nat)
    requires SearchOk(s) && !IsDone(Upper(s.lost), s.min) && half < Width(s) <= 2 * half
    ensures SearchOk(Acked(s)) && (Width(Acked(s)) <= half || Rank(Acked(s), half) < Rank(s, half))
    ensures Width(Acked(s)) <= Width(s)
  {
    AckedCloser(s);
  }

  lemma LostRank(s: Search, half: nat)
    requires SearchOk(s) && !IsDone(Upper(s.lost), s.min) && half < Width(s) <= 2 * half
    ensures SearchOk(Lost(s)) && (Width(Lost(s)) <= half || Rank(Lost(s), half) < Rank(s, half))
    ensures Width(Lost(s)) <= Width(s)
  {
    LostCloser(s);
  }

  /** The search has left the widths above w behind, but not yet halved w. */
  ghost predicate InPhase(s: Search, w: nat) {
    SearchOk(s) && !IsDone(Upper(s.lost), s.min) && (w + 1) / 2 < Width(s) <= w
  }

  /** How many more probes there can be. */
  ghost function Budget(s: Search, w: nat): int
    requires InPhase(s, w)
  {
    PROBES_PER_HALVING * (Halvings(w) - 1) + 1 + Rank(s, (w + 1) / 2)
  }

  lemma NewPhase(s: Search)
    requires SearchOk(s) && !IsDone(Upper(s.lost), s.min)
    ensures InPhase(s, Width(s)) && Budget(s, Width(s)) <= PROBES_PER_HALVING * Halvings(Width(s))
  {
    hide Rank, Upper;
    RankBounds(s, (Width(s) + 1) / 2);
  }

  /** Every probe costs one of the budget. */
  lemma ProbeCosts(s: Search, w: nat, s': Search) returns (w': nat)
    requires InPhase(s, w) && (s' == Acked(s) || s' == Lost(s))
    ensures SearchOk(s') && Budget(s, w) > 0
    ensures !IsDone(Upper(s'.lost), s'.min) ==> InPhase(s', w') && Budget(s', w') < Budget(s, w)
  {
    hide Rank, Upper, Acked, Lost;
    var half := (w + 1) / 2;
    RankBounds(s, half);
    if s' == Acked(s) {
      AckedRank(s, half);
    } else {
      LostRank(s, half);
    }
    w' := w;
    if Width(s') <= half && !IsDone(Upper(s'.lost), s'.min) {
      w' := Width(s');
      NewPhase(s');
      HalvingsMonotone(w', half);
    }
  }

  // ---------------------------------------------------------------------------
  // Accuracy
  // ---------------------------------------------------------------------------

  /**
   * The path carries sizes up to m, and the table holds at most bad sizes that were lost although the path
   * carries them.
   */
  ghost predicate Brackets(s: Search, m: nat, bad: nat) {
    && SearchOk(s)
    && s.min <= m < Upper(s.lost)
    && AtMost(s.lost, m) <= bad
  }

  /** An acknowledged probe has a size that the path carries: the true size stays bracketed. */
  lemma AckedBrackets(s: Search, m: nat, bad: nat)
    requires Brackets(s, m, bad) && !IsDone(Upper(s.lost), s.min) && ProbeSize(s) <= m
    ensures Brackets(Acked(s), m, bad)
  {
    ProbeInRange(s);
  }

  /** With fewer than three losses of sizes that the path carries, the true size stays bracketed. */
  lemma LostBrackets(s: Search, m: nat, bad: nat)
    requires Brackets(s, m, bad) && !IsDone(Upper(s.lost), s.min)
    requires var bad' := bad + Bit(ProbeSize(s) <= m); bad' < MAX_LOST_MTU_PROBES
    ensures Brackets(Lost(s), m, bad + Bit(ProbeSize(s) <= m))
  {
    ProbeInRange(s);
  }

  /** When the search ends, the current size is within the tolerance below the true size. */
  lemma DoneIsAccurate(s: Search, m: nat, bad: nat)
    requires Brackets(s, m, bad) && IsDone(Upper(s.lost), s.min)
    ensures m - MAX_MTU_DIFF <= s.min <= m
  {
  }

  // ---------------------------------------------------------------------------
  // The code
  // ---------------------------------------------------------------------------

  class MtuFinder {
    var inFlight: int
    var min: nat
    const lost: array<int>
    var lastProbeWasLost: bool
    /** Told apart from older searches by this number; unbounded here. */
    var generation: nat

    ghost function State(): Search
      reads this, lost
    {
      Search(min, lost[..], lastProbeWasLost)
    }

    ghost predicate Valid()
      reads this, lost
    {
      lost.Length == MAX_LOST_MTU_PROBES && SearchOk(State())
    }

    constructor (start: nat, max: nat)
      ensures lost.Length == MAX_LOST_MTU_PROBES && fresh(lost) && inFlight == INVALID_BYTE_COUNT
      ensures start < max ==> Valid()
      ensures State() == Search(start, [max, INVALID_BYTE_COUNT, INVALID_BYTE_COUNT], false)
    {
      inFlight, lastProbeWasLost, generation, min := INVALID_BYTE_COUNT, false, 0, start;
      lost := new int[MAX_LOST_MTU_PROBES];
      new;
      Init(start, max);
    }

    /** init: the maximum counts as the first lost size. */
    method Init(start: nat, max: nat)
      requires lost.Length == MAX_LOST_MTU_PROBES
      modifies this`min, lost
      ensures min == start && lost[..] == [max, INVALID_BYTE_COUNT, INVALID_BYTE_COUNT]
    {
      min := start;
      var i := 0;
      while i < lost.Length
        modifies lost
        invariant i <= lost.Length
        invariant forall k :: 0 <= k < i ==> lost[k] == if k == 0 then max else INVALID_BYTE_COUNT
      {
        if i == 0 {
          lost[i] := max;
        } else {
          lost[i] := INVALID_BYTE_COUNT;
        }
        i := i + 1;
      }
    }

    /** max: the last size in the table. */
    method MaxSize() returns (m: int)
      requires TableOk(lost[..])
      ensures m == Upper(lost[..])
    {
      var i := 0;
      while i < lost.Length
        invariant i <= lost.Length
        invariant forall k :: 0 <= k < i ==> lost[k] != INVALID_BYTE_COUNT
      {
        if lost[i] == INVALID_BYTE_COUNT {
          return lost[i - 1];
        }
        i := i + 1;
      }
      return lost[lost.Length - 1];
    }

    method Done() returns (done: bool)
      requires TableOk(lost[..])
      ensures done == IsDone(Upper(lost[..]), min)
    {
      var m := MaxSize();
      done := m - min <= MAX_MTU_DIFF + 1;
    }

    /** GetPing: called only if no probe is in flight and the search is not done. */
    method GetPing() returns (size: nat, gen: nat)
      requires Valid() && inFlight == INVALID_BYTE_COUNT && !IsDone(Upper(lost[..]), min)
      modifies this`inFlight
      ensures size == ProbeSize(State()) && inFlight == size && gen == generation
      ensures min <= size < Upper(lost[..])
    {
      ProbeInRange(State());
      if lastProbeWasLost {
        size := (min + lost[0]) / 2;
      } else {
        var m := MaxSize();
        size := (min + m) / 2;
      }
      inFlight := size;
      gen := generation;
    }

    /** Reset: a new search on a new path. */
    method Reset(start: nat, max: nat)
      requires lost.Length == MAX_LOST_MTU_PROBES
      modifies this, lost
      ensures generation == old(generation) + 1 && inFlight == INVALID_BYTE_COUNT
      ensures start < max ==> Valid()
      ensures State() == Search(start, [max, INVALID_BYTE_COUNT, INVALID_BYTE_COUNT], false)
    {
      generation := generation + 1;
      lastProbeWasLost := false;
      inFlight := INVALID_BYTE_COUNT;
      Init(start, max);
    }

    /** OnAcked: outcomes of probes that were sent before a reset are ignored. */
    method OnAcked(gen: nat)
      requires Valid()
      requires gen == generation ==> !IsDone(Upper(lost[..]), min) && inFlight == ProbeSize(State())
      modifies this`inFlight, this`min, this`lastProbeWasLost, lost
      ensures gen != generation ==> State() == old(State()) && inFlight == old(inFlight)
      ensures gen == generation ==> State() == Acked(old(State())) && inFlight == INVALID_BYTE_COUNT
      ensures Valid()
    {
      if gen != generation {
        return;
      }
      AckedCloser(State());
      ProbeInRange(State());
      ghost var l := lost[..];
      var size := inFlight;
      inFlight := INVALID_BYTE_COUNT;
      min := size;
      lastProbeWasLost := false;
      var j := FirstAbove(size);
      if j > 0 {
        ShiftLeft(j);
      }
      assert lost[..] == Above(l, size);
    }

    /** Moves the sizes from slot j on to the front; the rest becomes free. */
    method ShiftLeft(j: nat)
      requires lost.Length == MAX_LOST_MTU_PROBES && 0 < j < lost.Length
      modifies lost
      ensures forall k :: 0 <= k < lost.Length ==>
                lost[k] == if k + j < lost.Length then old(lost[k + j]) else INVALID_BYTE_COUNT
    {
      var i := 0;
      while i < lost.Length
        invariant i <= lost.Length
        invariant forall k :: 0 <= k < i ==> lost[k] == if k + j < lost.Length then old(lost[k + j]) else INVALID_BYTE_COUNT
        invariant forall k :: i <= k < lost.Length ==> lost[k] == old(lost[k])
      {
        if i + j < lost.Length {
          lost[i] := lost[i + j];
        } else {
          lost[i] := INVALID_BYTE_COUNT;
        }
        i := i + 1;
      }
    }

    /** The first slot with a larger size; 0 if there is none. */
    method FirstAbove(size: int) returns (j: nat)
      requires lost.Length == MAX_LOST_MTU_PROBES
      ensures j < lost.Length
      ensures size < lost[j] ==> forall k :: 0 <= k < j ==> lost[k] <= size
      ensures lost[j] <= size ==> j == 0 && forall k :: 0 <= k < lost.Length ==> lost[k] <= size
    {
      j := 0;
      var i := 0;
      while i < lost.Length
        invariant i <= lost.Length && j == 0
        invariant forall k :: 0 <= k < i ==> lost[k] <= size
      {
        if size < lost[i] {
          return i;
        }
        i := i + 1;
      }
    }

    /** OnLost: the size takes its place in the table. */
    method OnLost(gen: nat)
      requires Valid()
      requires gen == generation ==> !IsDone(Upper(lost[..]), min) && inFlight == ProbeSize(State())
      modifies this`inFlight, this`lastProbeWasLost, lost
      ensures gen != generation ==> State() == old(State()) && inFlight == old(inFlight)
      ensures gen == generation ==> State() == Lost(old(State())) && inFlight == INVALID_BYTE_COUNT
      ensures Valid()
    {
      if gen != generation {
        return;
      }
      LostCloser(State());
      ghost var l := lost[..];
      var size := inFlight;
      lastProbeWasLost := true;
      inFlight := INVALID_BYTE_COUNT;
      var i := 0;
      while i < lost.Length
        invariant i <= lost.Length && lost[..] == l
        invariant forall k :: 0 <= k < i ==> l[k] <= size
      {
        if size < lost[i] {
          ShiftRight(i);
          lost[i] := size;
          break;
        }
        i := i + 1;
      }
      assert lost[..] == With(l, size);
    }

    /** Moves the sizes from slot i on up by one; the last one drops out. */
    method ShiftRight(i: nat)
      requires lost.Length == MAX_LOST_MTU_PROBES && i < lost.Length
      modifies lost
      ensures forall k :: 0 <= k <= i ==> lost[k] == old(lost[k])
      ensures forall k :: i < k < lost.Length ==> lost[k] == old(lost[k - 1])
    {
      var k := lost.Length - 1;
      while k > i
        invariant i <= k < lost.Length
        invariant forall n :: 0 <= n <= k ==> lost[n] == old(lost[n])
        invariant forall n :: k < n < lost.Length ==> lost[n] == old(lost[n - 1])
      {
        lost[k] := lost[k - 1];
        k := k - 1;
      }
    }
  }

  /** What holds between probes: dropped counts the lost probes that the path carries. */
  ghost predicate Searching(f: MtuFinder, start: nat, max: nat, m: nat, dropped: nat)
    reads f, f.lost
  {
    && f.Valid() && f.inFlight == INVALID_BYTE_COUNT
    && start <= f.min <= m && Upper(f.lost[..]) <= max
    && (dropped < MAX_LOST_MTU_PROBES ==> Brackets(f.State(), m, dropped))
  }

  /** One probe on a path that carries sizes up to mtu; lose is whether it is lost anyway. */
  method ProbeStep(f: MtuFinder, ghost start: nat, ghost max: nat, mtu: nat, lose: bool, dropped: nat) returns (dropped': nat)
    requires start < max && start <= mtu
    requires Searching(f, start, max, Min(mtu, max - 1), dropped) && !IsDone(Upper(f.lost[..]), f.min)
    modifies f, f.lost
    ensures Searching(f, start, max, Min(mtu, max - 1), dropped')
    ensures Closer(f.State(), old(f.State()))
    ensures var s := old(f.State()); SearchOk(s) && f.State() == if ProbeSize(s) > mtu || lose then Lost(s) else Acked(s)
    ensures dropped' <= dropped + Bit(lose)
  {
    hide SearchOk, Between, Slack, ProbeSize, Acked, Lost, Brackets, Closer;
    ghost var s, m := f.State(), Min(mtu, max - 1);
    ProbeInRange(s);
    dropped' := dropped;
    var probe, gen := f.GetPing();
    assert probe <= mtu <==> probe <= m;
    if probe > mtu || lose {
      LostCloser(s);
      if probe <= mtu {
        dropped' := dropped + 1;
      }
      if dropped' < MAX_LOST_MTU_PROBES {
        LostBrackets(s, m, dropped);
      }
      LostKeepsMin(s);
      f.OnLost(gen);
    } else {
      AckedCloser(s);
      if dropped < MAX_LOST_MTU_PROBES {
        AckedBrackets(s, m, dropped);
      }
      AckedMovesMin(s);
      f.OnAcked(gen);
    }
  }

  lemma LostKeepsMin(s: Search)
    requires SearchOk(s)
    ensures Lost(s).min == s.min
  {
  }

  lemma AckedMovesMin(s: Search)
    requires SearchOk(s)
    ensures Acked(s).min == ProbeSize(s)
  {
  }

  /** How many of the first n probes the network is told to drop. */
  ghost function Drops(drop: nat -> bool, n: nat): nat {
    if n == 0 then 0 else Drops(drop, n - 1) + Bit(drop(n - 1))
  }

  /**
   * A whole search on a path that carries sizes up to mtu. Probes above that are lost; others are lost as
   * drop says. The search always comes to an end, after a number of probes that is logarithmic in its width; if fewer
   * than three probes were lost that the path carries, it ends within the tolerance below the largest size that the
   * path and the maximum allow.
   */
  method Discover(start: nat, max: nat, mtu: nat, drop: nat -> bool) returns (size: nat, dropped: nat, probes: nat)
    requires start <= mtu
    ensures start <= size <= mtu && dropped <= Drops(drop, probes)
    ensures max <= start ==> size == start && probes == 0
    ensures start < max ==> size < max && probes <= PROBES_PER_HALVING * Halvings(max - start)
    ensures start < max && dropped < MAX_LOST_MTU_PROBES ==> Min(mtu, max - 1) - MAX_MTU_DIFF <= size
  {
    hide SearchOk, Upper, Brackets, IsDone, TableOk, Searching, InPhase, Budget, Halvings, Width, Closer, ProbeSize, Acked, Lost;
    var f := new MtuFinder(start, max);
    dropped, probes := 0, 0;
    if start >= max {
      return f.min, 0, 0;
    }
    ghost var m := Min(mtu, max - 1);
    StartsSearching(f, start, max, m);
    Measured(f, start, max, m, 0);
    var done := f.Done();
    ghost var w: nat, limit := max - start, PROBES_PER_HALVING * Halvings(max - start);
    if !done {
      StartWidth(f.State(), start, max);
      NewPhase(f.State());
    }
    while !done
      invariant fresh(f) && fresh(f.lost)
      invariant Searching(f, start, max, m, dropped) && f.lost.Length == MAX_LOST_MTU_PROBES
      invariant done == IsDone(Upper(f.lost[..]), f.min)
      invariant dropped <= Drops(drop, probes)
      invariant probes <= limit && (!done ==> InPhase(f.State(), w) && probes + Budget(f.State(), w) <= limit)
      decreases limit - probes
    {
      Measured(f, start, max, m, dropped);
      ghost var s := f.State();
      dropped := ProbeStep(f, start, max, mtu, drop(probes), dropped);
      ghost var w' := ProbeCosts(s, w, f.State());
      Measured(f, start, max, m, dropped);
      probes, w := probes + 1, w';
      done := f.Done();
    }
    size := f.min;
    Measured(f, start, max, m, dropped);
    SearchedOut(f, start, max, m, dropped);
  }

  lemma StartsSearching(f: MtuFinder, start: nat, max: nat, m: nat)
    requires f.Valid() && f.inFlight == INVALID_BYTE_COUNT && start <= m < max
    requires f.State() == Search(start, [max, INVALID_BYTE_COUNT, INVALID_BYTE_COUNT], false)
    ensures Searching(f, start, max, m, 0)
  {
  }

  lemma StartWidth(s: Search, start: nat, max: nat)
    requires s == Search(start, [max, INVALID_BYTE_COUNT, INVALID_BYTE_COUNT], false)
    ensures Width(s) == max - start
  {
  }

  lemma Measured(f: MtuFinder, start: nat, max: nat, m: nat, dropped: nat)
    requires Searching(f, start, max, m, dropped)
    ensures f.lost.Length == MAX_LOST_MTU_PROBES && f.Valid()
    ensures TableOk(f.lost[..])
  {
    hide Brackets;
  }

  lemma SearchedOut(f: MtuFinder, start: nat, max: nat, m: nat, dropped: nat)
    requires Searching(f, start, max, m, dropped) && TableOk(f.lost[..]) && IsDone(Upper(f.lost[..]), f.min)
    ensures start <= f.min <= m
    ensures dropped < MAX_LOST_MTU_PROBES ==> m - MAX_MTU_DIFF <= f.min
  {
    if dropped < MAX_LOST_MTU_PROBES {
      DoneIsAccurate(f.State(), m, dropped);
    }
  }
}
