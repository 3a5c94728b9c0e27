/** Replay protection with two generations of a cuckoo filter (crypto/replay.go). */
module ReplayFiltering {
  import opened Protocol
  import opened CuckooFiltering

  const DEFAULT_CAPACITY: bv32 := 0x10_0000
  const DEFAULT_WINDOW: int := 120_000_000_000

  /** A filter has 2^18 buckets. */
  lemma DefaultBuckets()
    ensures MaskFor(DEFAULT_CAPACITY) == DEFAULT_MASK
  {
  }

  /** Division that truncates toward zero. */
  function Half(window: int): int {
    if window >= 0 then window / 2 else -((-window) / 2)
  }

  /** What the filter has stored in its two generations, and when the current one began. */
  datatype View = View(current: Table, previous: Table, lastSwap: int)

  /** A check of a nonce; a and b are the two readings of the clock. */
  datatype Event = Event(nonce: bv64, a: int, b: int)

  /** After half a window the current generation becomes the previous one. */
  ghost function Swapped(half: int, v: View, e: Event): View {
    if e.a - v.lastSwap < half then v else View(map[], v.current, e.b)
  }

  ghost predicate Exchanged(mask: bv32, t: Table, added: Item, ok: bool, lost: Item, t': Table) {
    forall c :: Stored(t', mask, c) + Bit(!ok && c == lost) == Stored(t, mask, c) + Bit(c == added)
  }

  /**
   * An attempt to store x, by the steps of the cuckoo filter. Exactly one item is lost if it fails, and none if it
   * does not.
   */
  ghost predicate Inserted(mask: bv32, t: Table, x: bv64, ok: bool, t': Table) {
    && TableOk(t', mask)
    && Insertion(mask, t, x, ok, t')
    && (exists lost :: Exchanged(mask, t, ItemOf(mask, x), ok, lost, t'))
  }

  /** One check: it refuses what one of the generations has, and stores everything else. */
  ghost predicate Checked(mask: bv32, half: int, v: View, e: Event, seen: bool, stored: bool, v': View) {
    var w, c := Swapped(half, v, e), ItemOf(mask, e.nonce);
    && v'.previous == w.previous && v'.lastSwap == w.lastSwap
    && (seen <==> Stored(w.current, mask, c) > 0 || Stored(w.previous, mask, c) > 0)
    && (if seen then stored && v'.current == w.current else Inserted(mask, w.current, e.nonce, stored, v'.current))
  }

  class ReplayFilter {
    var current: CuckooFilter
    var previous: CuckooFilter
    const window: int
    var lastSwap: int

    ghost predicate Valid()
      reads this, current, previous
    {
      && current != previous
      && current.Valid() && previous.Valid()
      && current.mask == previous.mask == MaskFor(DEFAULT_CAPACITY)
    }

    ghost function Contents(): View
      reads this, current, previous
    {
      View(current.table, previous.table, lastSwap)
    }

    constructor (window: int, now: int)
      ensures Valid() && fresh(current) && fresh(previous) && Contents() == View(map[], map[], now)
      ensures this.window == if window == 0 then DEFAULT_WINDOW else window
    {
      hide MaskFor, Stored;
      this.window := if window == 0 then DEFAULT_WINDOW else window;
      current := new CuckooFilter(DEFAULT_CAPACITY);
      previous := new CuckooFilter(DEFAULT_CAPACITY);
      lastSwap := now;
    }

    /** maybeSwap. The clock is read twice. */
    method MaybeSwap(e: Event)
      requires Valid()
      modifies this`current, this`previous, this`lastSwap
      ensures Valid() && Contents() == Swapped(Half(window), old(Contents()), e)
      ensures current == old(current) || fresh(current)
    {
      hide MaskFor, Stored, Half;
      if e.a - lastSwap < Half(window) {
        return;
      }
      previous := current;
      current := new CuckooFilter(DEFAULT_CAPACITY);
      lastSwap := e.b;
    }

    /** Check: whether the nonce was seen; if not, it is stored, and stored tells whether that succeeded. */
    method Check(e: Event) returns (seen: bool, stored: bool)
      requires Valid()
      modifies this, current
      ensures Valid() && (current == old(current) || fresh(current))
      ensures Checked(current.mask, Half(window), old(Contents()), e, seen, stored, Contents())
    {
      hide MaskFor, Stored, ItemOf, Half, Insertion, TableOk, Filled;
      MaybeSwap(e);
      var inCurrent := current.Lookup(e.nonce);
      var inPrevious := previous.Lookup(e.nonce);
      if inCurrent || inPrevious {
        return true, true;
      }
      ghost var t := current.table;
      ghost var lost;
      label before:
      stored, lost := current.Insert(e.nonce);
      forall c
        ensures Stored(current.table, current.mask, c) + Bit(!stored && c == lost)
             == Stored(t, current.mask, c) + Bit(c == ItemOf(current.mask, e.nonce))
      {
        assert current.Has(c) + Bit(!stored && c == lost)
            == old@before(current.Has(c)) + Bit(c == ItemOf(current.mask, e.nonce));
      }
      assert Exchanged(current.mask, t, ItemOf(current.mask, e.nonce), stored, lost, current.table);
      return false, stored;
    }
  }

  // ---------------------------------------------------------------------------
  // Whole runs
  // ---------------------------------------------------------------------------

  /** The clock does not run backwards. */
  ghost predicate Clocked(start: int, events: seq<Event>) {
    && (forall i :: 0 <= i < |events| ==> start <= events[i].a <= events[i].b)
    && (forall i, j :: 0 <= i < j < |events| ==> events[i].b <= events[j].a)
  }

  ghost predicate RunStep(mask: bv32, half: int, events: seq<Event>,
                          seen: seq<bool>, stored: seq<bool>, trace: seq<View>, n: nat)
    requires n < |seen| && n < |stored| && n < |events| && n + 1 < |trace|
  {
    Checked(mask, half, trace[n], events[n], seen[n], stored[n], trace[n + 1])
  }

  /** A run from the empty filter, check by check. */
  ghost predicate Run(mask: bv32, half: int, start: int, events: seq<Event>,
                      seen: seq<bool>, stored: seq<bool>, trace: seq<View>)
  {
    && |seen| == |stored| == |events| && |trace| == |events| + 1 && trace[0] == View(map[], map[], start)
    && (forall n :: 0 <= n < |events| ==> RunStep(mask, half, events, seen, stored, trace, n))
  }

  lemma OneMoreStep(mask: bv32, half: int, events: seq<Event>, seen: seq<bool>, stored: seq<bool>, trace: seq<View>,
                    n: nat, s: bool, ok: bool, v: View)
    requires n < |events| && |seen| == |stored| == n && |trace| == n + 1
    requires forall k :: 0 <= k < n ==> RunStep(mask, half, events, seen, stored, trace, k)
    requires Checked(mask, half, trace[n], events[n], s, ok, v)
    ensures forall k :: 0 <= k < n + 1 ==> RunStep(mask, half, events, seen + [s], stored + [ok], trace + [v], k)
  {
    hide Checked;
    forall k: nat | k < n
      ensures RunStep(mask, half, events, seen + [s], stored + [ok], trace + [v], k)
    {
      assert RunStep(mask, half, events, seen, stored, trace, k);
    }
  }

  ghost predicate AcceptedAt(mask: bv32, events: seq<Event>, seen: seq<bool>, i: nat, since: int, c: Item)
    requires i < |events| == |seen|
  {
    !seen[i] && since <= events[i].b && ItemOf(mask, events[i].nonce) == c
  }

  /** Some accepted check before n, at time since or later, had item c. */
  ghost predicate Accepted(mask: bv32, events: seq<Event>, seen: seq<bool>, n: nat, since: int, c: Item)
    requires n <= |events| == |seen|
  {
    exists i :: 0 <= i < n && AcceptedAt(mask, events, seen, i, since, c)
  }

  /** The current generation has every item at most once, and only what was accepted since it began. */
  ghost predicate ViewOk(mask: bv32, start: int, events: seq<Event>, seen: seq<bool>, n: nat, v: View)
    requires n <= |events| == |seen|
  {
    && TableOk(v.current, mask)
    && (forall c :: Stored(v.current, mask, c) <= 1)
    && (forall c :: Stored(v.current, mask, c) > 0 ==> Accepted(mask, events, seen, n, v.lastSwap, c))
    && (forall c :: Stored(v.previous, mask, c) > 0 ==> Accepted(mask, events, seen, n, start, c))
    && start <= v.lastSwap <= if n == 0 then start else events[n - 1].b
  }

  lemma EmptyTable(mask: bv32)
    ensures TableOk(map[], mask) && forall c :: Stored(map[], mask, c) == 0
  {
    var t: Table := map[];
    assert Slots(t) == {};
    forall c
      ensures Stored(t, mask, c) == 0
    {
      assert Holders(t, mask, c) == {};
    }
  }

  lemma AcceptedEarlier(mask: bv32, events: seq<Event>, seen: seq<bool>, n: nat, since: int, since': int, c: Item)
    requires n < |events| == |seen| && since' <= since
    ensures Accepted(mask, events, seen, n, since, c) ==> Accepted(mask, events, seen, n + 1, since', c)
  {
    hide ItemOf;
    if Accepted(mask, events, seen, n, since, c) {
      var i :| 0 <= i < n && AcceptedAt(mask, events, seen, i, since, c);
      assert AcceptedAt(mask, events, seen, i, since', c);
    }
  }

  lemma SwapKeeps(mask: bv32, half: int, start: int, events: seq<Event>, seen: seq<bool>, n: nat, v: View)
    requires n < |events| == |seen| && Clocked(start, events) && ViewOk(mask, start, events, seen, n, v)
    ensures var w := Swapped(half, v, events[n]);
      && TableOk(w.current, mask) && start <= w.lastSwap <= events[n].b
      && forall c ::
           && Stored(w.current, mask, c) <= 1
           && (Stored(w.current, mask, c) > 0 ==> Accepted(mask, events, seen, n + 1, w.lastSwap, c))
           && (Stored(w.previous, mask, c) > 0 ==> Accepted(mask, events, seen, n + 1, start, c))
  {
    hide Stored, TableOk, Accepted;
    EmptyTable(mask);
    forall c
      ensures Accepted(mask, events, seen, n, v.lastSwap, c) ==> Accepted(mask, events, seen, n + 1, v.lastSwap, c)
      ensures Accepted(mask, events, seen, n, v.lastSwap, c) ==> Accepted(mask, events, seen, n + 1, start, c)
      ensures Accepted(mask, events, seen, n, start, c) ==> Accepted(mask, events, seen, n + 1, start, c)
    {
      AcceptedEarlier(mask, events, seen, n, v.lastSwap, v.lastSwap, c);
      AcceptedEarlier(mask, events, seen, n, v.lastSwap, start, c);
      AcceptedEarlier(mask, events, seen, n, start, start, c);
    }
  }

  lemma CheckKeeps(mask: bv32, half: int, start: int, events: seq<Event>, seen: seq<bool>, n: nat, v: View, stored: bool, v': View)
    requires n < |events| == |seen| && Clocked(start, events) && ViewOk(mask, start, events, seen, n, v)
    requires Checked(mask, half, v, events[n], seen[n], stored, v')
    ensures ViewOk(mask, start, events, seen, n + 1, v')
  {
    hide Stored, TableOk, Accepted, Swapped, Insertion, ItemOf;
    SwapKeeps(mask, half, start, events, seen, n, v);
    var w, x := Swapped(half, v, events[n]), ItemOf(mask, events[n].nonce);
    if !seen[n] {
      var lost :| Exchanged(mask, w.current, x, stored, lost, v'.current);
      NewIsAccepted(mask, events, seen, n, v'.lastSwap);
      forall c
        ensures Stored(v'.current, mask, c) <= Stored(w.current, mask, c) + Bit(c == x)
      {
      }
    }
  }

  lemma NewIsAccepted(mask: bv32, events: seq<Event>, seen: seq<bool>, n: nat, since: int)
    requires n < |events| == |seen| && !seen[n] && since <= events[n].b
    ensures Accepted(mask, events, seen, n + 1, since, ItemOf(mask, events[n].nonce))
  {
    hide ItemOf;
    assert AcceptedAt(mask, events, seen, n, since, ItemOf(mask, events[n].nonce));
  }

  lemma {:induction false} RunKeeps(mask: bv32, half: int, start: int, events: seq<Event>,
                                    seen: seq<bool>, stored: seq<bool>, trace: seq<View>, n: nat)
    requires Run(mask, half, start, events, seen, stored, trace) && Clocked(start, events) && n <= |events|
    ensures ViewOk(mask, start, events, seen, n, trace[n])
  {
    hide Stored, TableOk, Checked, Clocked;
    if n == 0 {
      EmptyTable(mask);
    } else {
      RunKeeps(mask, half, start, events, seen, stored, trace, n - 1);
      assert RunStep(mask, half, events, seen, stored, trace, n - 1);
      CheckKeeps(mask, half, start, events, seen, n - 1, trace[n - 1], stored[n - 1], trace[n]);
    }
  }

  // ---------------------------------------------------------------------------
  // What is accepted is recognised
  // ---------------------------------------------------------------------------

  /** Item c is stored less often than it should be after a check. */
  ghost predicate Loses(mask: bv32, half: int, v: View, e: Event, seen: bool, v': View, c: Item) {
    Stored(v'.current, mask, c) < Stored(Swapped(half, v, e).current, mask, c) + Bit(!seen && c == ItemOf(mask, e.nonce))
  }

  /** A check loses an item if and only if it fails to store, and then one item only. */
  lemma LosesOne(mask: bv32, half: int, v: View, e: Event, seen: bool, stored: bool, v': View)
    requires Checked(mask, half, v, e, seen, stored, v')
    ensures !stored <==> exists c :: Loses(mask, half, v, e, seen, v', c)
    ensures forall c, c' :: Loses(mask, half, v, e, seen, v', c) && Loses(mask, half, v, e, seen, v', c') ==> c == c'
  {
    hide Stored, TableOk, Insertion, ItemOf, Swapped;
    if !seen {
      var w := Swapped(half, v, e);
      var lost :| Exchanged(mask, w.current, ItemOf(mask, e.nonce), stored, lost, v'.current);
      forall c
        ensures Loses(mask, half, v, e, seen, v', c) <==> !stored && c == lost
      {
        assert Stored(v'.current, mask, c) + Bit(!stored && c == lost)
            == Stored(w.current, mask, c) + Bit(c == ItemOf(mask, e.nonce));
      }
      assert !stored ==> Loses(mask, half, v, e, seen, v', lost);
    }
  }

  ghost predicate LosesAt(mask: bv32, half: int, events: seq<Event>, seen: seq<bool>, trace: seq<View>, k: nat, c: Item)
    requires k < |events| == |seen| && |trace| == |events| + 1
  {
    Loses(mask, half, trace[k], events[k], seen[k], trace[k + 1], c)
  }

  /**
   * Where an item is that was stored at time t: in the current generation, in the previous one since a swap
   * that came later, or it is at least half a window old.
   */
  ghost predicate Somewhere(mask: bv32, half: int, v: View, c: Item, t: int) {
    || Stored(v.current, mask, c) > 0
    || (Stored(v.previous, mask, c) > 0 && t <= v.lastSwap)
    || t + half <= v.lastSwap
  }

  lemma StaysSomewhere(mask: bv32, half: int, v: View, e: Event, seen: bool, stored: bool, v': View, c: Item, t: int)
    requires Checked(mask, half, v, e, seen, stored, v') && t <= e.a <= e.b
    requires Somewhere(mask, half, v, c, t) && !Loses(mask, half, v, e, seen, v', c)
    ensures Somewhere(mask, half, v', c, t)
  {
    hide Stored, Inserted, ItemOf;
  }

  lemma {:induction false} SomewhereUntil(mask: bv32, half: int, start: int, events: seq<Event>,
                                          seen: seq<bool>, stored: seq<bool>, trace: seq<View>, i: nat, n: nat, c: Item)
    requires Run(mask, half, start, events, seen, stored, trace) && Clocked(start, events)
    requires i < n <= |events| && !seen[i] && c == ItemOf(mask, events[i].nonce)
    requires forall k :: i <= k < n ==> !LosesAt(mask, half, events, seen, trace, k, c)
    ensures Somewhere(mask, half, trace[n], c, events[i].b)
  {
    hide Stored, ItemOf, Swapped, Checked;
    assert RunStep(mask, half, events, seen, stored, trace, n - 1);
    assert !LosesAt(mask, half, events, seen, trace, n - 1, c);
    if n > i + 1 {
      SomewhereUntil(mask, half, start, events, seen, stored, trace, i, n - 1, c);
      StaysSomewhere(mask, half, trace[n - 1], events[n - 1], seen[n - 1], stored[n - 1], trace[n], c, events[i].b);
    }
  }

  lemma LastSwapBefore(mask: bv32, half: int, start: int, events: seq<Event>,
                       seen: seq<bool>, stored: seq<bool>, trace: seq<View>, n: nat)
    requires Run(mask, half, start, events, seen, stored, trace) && Clocked(start, events) && n < |events|
    ensures start <= trace[n].lastSwap <= events[n].a
  {
    hide Stored, TableOk, Accepted, Run;
    RunKeeps(mask, half, start, events, seen, stored, trace, n);
  }

  lemma Recognised(mask: bv32, half: int, start: int, events: seq<Event>,
                   seen: seq<bool>, stored: seq<bool>, trace: seq<View>, i: nat, j: nat, c: Item)
    requires Run(mask, half, start, events, seen, stored, trace) && Clocked(start, events)
    requires i < j < |seen| && ItemOf(mask, events[i].nonce) == ItemOf(mask, events[j].nonce) == c && !seen[i]
    requires events[j].a < events[i].b + half
    requires forall k :: i <= k < j ==> !LosesAt(mask, half, events, seen, trace, k, c)
    ensures seen[j]
  {
    hide Stored, ItemOf, Inserted, ViewOk, LosesAt;
    SomewhereUntil(mask, half, start, events, seen, stored, trace, i, j, c);
    LastSwapBefore(mask, half, start, events, seen, stored, trace, j);
    assert RunStep(mask, half, events, seen, stored, trace, j);
  }

  lemma FailedAt(mask: bv32, half: int, start: int, events: seq<Event>,
                 seen: seq<bool>, stored: seq<bool>, trace: seq<View>, k: nat, c: Item)
    requires Run(mask, half, start, events, seen, stored, trace)
    requires k < |events| && LosesAt(mask, half, events, seen, trace, k, c)
    ensures !stored[k]
  {
    hide Loses, Checked;
    assert RunStep(mask, half, events, seen, stored, trace, k);
    LosesOne(mask, half, trace[k], events[k], seen[k], stored[k], trace[k + 1]);
    assert Loses(mask, half, trace[k], events[k], seen[k], trace[k + 1], c);
  }

  /** A nonce accepted twice within half a window: a check in between failed to store, and lost the item of this nonce. */
  ghost predicate NoReplay(mask: bv32, half: int, events: seq<Event>, seen: seq<bool>, stored: seq<bool>, trace: seq<View>)
    requires |seen| == |stored| == |events| && |trace| == |events| + 1
  {
    forall i, j | 0 <= i < j < |seen| && events[i].nonce == events[j].nonce && !seen[i] && !seen[j]
                  && events[j].a < events[i].b + half ::
      exists k :: i <= k < j && !stored[k] && LosesAt(mask, half, events, seen, trace, k, ItemOf(mask, events[i].nonce))
  }

  lemma RunRecognises(mask: bv32, half: int, start: int, events: seq<Event>,
                      seen: seq<bool>, stored: seq<bool>, trace: seq<View>)
    requires Run(mask, half, start, events, seen, stored, trace) && Clocked(start, events)
    ensures NoReplay(mask, half, events, seen, stored, trace)
  {
    hide Stored, ItemOf, Inserted, ViewOk, Loses, RunStep;
    forall i, j | 0 <= i < j < |seen| && events[i].nonce == events[j].nonce && !seen[i] && !seen[j]
                  && events[j].a < events[i].b + half
      ensures exists k :: i <= k < j && !stored[k] && LosesAt(mask, half, events, seen, trace, k, ItemOf(mask, events[i].nonce))
    {
      var c := ItemOf(mask, events[i].nonce);
      if forall k :: i <= k < j ==> !LosesAt(mask, half, events, seen, trace, k, c) {
        Recognised(mask, half, start, events, seen, stored, trace, i, j, c);
        assert false;
      }
      var k :| i <= k < j && LosesAt(mask, half, events, seen, trace, k, c);
      FailedAt(mask, half, start, events, seen, stored, trace, k, c);
    }
  }

  // ---------------------------------------------------------------------------
  // Only what was accepted is refused
  // ---------------------------------------------------------------------------

  /** A check refuses only a nonce whose item an accepted check had before. */
  ghost predicate NoWrongRefusal(mask: bv32, start: int, events: seq<Event>, seen: seq<bool>)
    requires |seen| == |events|
  {
    forall j :: 0 <= j < |seen| && seen[j] ==> Accepted(mask, events, seen, j, start, ItemOf(mask, events[j].nonce))
  }

  lemma RunRefuses(mask: bv32, half: int, start: int, events: seq<Event>,
                   seen: seq<bool>, stored: seq<bool>, trace: seq<View>)
    requires Run(mask, half, start, events, seen, stored, trace) && Clocked(start, events)
    ensures NoWrongRefusal(mask, start, events, seen)
  {
    hide Stored, ItemOf, Inserted, TableOk;
    forall j | 0 <= j < |seen| && seen[j]
      ensures Accepted(mask, events, seen, j, start, ItemOf(mask, events[j].nonce))
    {
      RefusedWasAccepted(mask, half, start, events, seen, stored, trace, j);
    }
  }

  lemma RefusedWasAccepted(mask: bv32, half: int, start: int, events: seq<Event>,
                           seen: seq<bool>, stored: seq<bool>, trace: seq<View>, j: nat)
    requires Run(mask, half, start, events, seen, stored, trace) && Clocked(start, events)
    requires j < |seen| && seen[j]
    ensures Accepted(mask, events, seen, j, start, ItemOf(mask, events[j].nonce))
  {
    hide Stored, ItemOf, Inserted, TableOk;
    RunKeeps(mask, half, start, events, seen, stored, trace, j);
    assert RunStep(mask, half, events, seen, stored, trace, j);
    EmptyTable(mask);
    var c, since := ItemOf(mask, events[j].nonce), trace[j].lastSwap;
    if Accepted(mask, events, seen, j, since, c) {
      var i :| 0 <= i < j && AcceptedAt(mask, events, seen, i, since, c);
      assert AcceptedAt(mask, events, seen, i, start, c);
    }
  }

  // ---------------------------------------------------------------------------
  // What is old is forgotten
  // ---------------------------------------------------------------------------

  /** Check k begins a new generation. */
  ghost predicate SwapAt(half: int, events: seq<Event>, trace: seq<View>, k: nat)
    requires k < |events| && k < |trace|
  {
    half <= events[k].a - trace[k].lastSwap
  }

  /** The check at which the current generation began, and the one before it; 0 if there was none. */
  ghost function CurrentSince(half: int, events: seq<Event>, trace: seq<View>, n: nat): nat
    requires n <= |events| && n <= |trace|
  {
    if n == 0 then 0 else if SwapAt(half, events, trace, n - 1) then n - 1 else CurrentSince(half, events, trace, n - 1)
  }

  ghost function PreviousSince(half: int, events: seq<Event>, trace: seq<View>, n: nat): nat
    requires n <= |events| && n <= |trace|
  {
    if n == 0 then 0
    else if SwapAt(half, events, trace, n - 1) then CurrentSince(half, events, trace, n - 1)
    else PreviousSince(half, events, trace, n - 1)
  }

  /** A check in from..n accepted item c. */
  ghost predicate AcceptedFrom(mask: bv32, events: seq<Event>, seen: seq<bool>, from: nat, n: nat, c: Item)
    requires n <= |events| == |seen|
  {
    exists i :: from <= i < n && !seen[i] && ItemOf(mask, events[i].nonce) == c
  }

  /** The generations hold only what was accepted since they began. */
  ghost predicate Aged(mask: bv32, half: int, events: seq<Event>, seen: seq<bool>, trace: seq<View>, n: nat)
    requires n <= |events| == |seen| && n < |trace|
  {
    forall c ::
      && (Stored(trace[n].current, mask, c) > 0 ==> AcceptedFrom(mask, events, seen, CurrentSince(half, events, trace, n), n, c))
      && (Stored(trace[n].previous, mask, c) > 0 ==> AcceptedFrom(mask, events, seen, PreviousSince(half, events, trace, n), n, c))
  }

  lemma AcceptedFromMore(mask: bv32, events: seq<Event>, seen: seq<bool>, from: nat, n: nat, c: Item)
    requires n < |events| == |seen|
    ensures AcceptedFrom(mask, events, seen, from, n, c) ==> AcceptedFrom(mask, events, seen, from, n + 1, c)
    ensures from <= n && !seen[n] && ItemOf(mask, events[n].nonce) == c ==> AcceptedFrom(mask, events, seen, from, n + 1, c)
  {
    hide ItemOf;
  }

  lemma CurrentSinceBefore(half: int, events: seq<Event>, trace: seq<View>, n: nat)
    requires n <= |events| && n <= |trace|
    ensures CurrentSince(half, events, trace, n) <= n
  {
  }

  lemma CheckAges(mask: bv32, half: int, events: seq<Event>, seen: seq<bool>, stored: bool, trace: seq<View>, n: nat)
    requires n < |events| == |seen| && n + 1 < |trace| && Aged(mask, half, events, seen, trace, n)
    requires Checked(mask, half, trace[n], events[n], seen[n], stored, trace[n + 1])
    ensures Aged(mask, half, events, seen, trace, n + 1)
  {
    hide Stored, TableOk, Insertion, ItemOf, AcceptedFrom;
    var v, v', x := trace[n], trace[n + 1], ItemOf(mask, events[n].nonce);
    EmptyTable(mask);
    CurrentSinceBefore(half, events, trace, n);
    var cur, prev := CurrentSince(half, events, trace, n + 1), PreviousSince(half, events, trace, n + 1);
    forall c
      ensures Stored(v'.current, mask, c) > 0 ==> AcceptedFrom(mask, events, seen, cur, n + 1, c)
      ensures Stored(v'.previous, mask, c) > 0 ==> AcceptedFrom(mask, events, seen, prev, n + 1, c)
    {
      AcceptedFromMore(mask, events, seen, cur, n, c);
      AcceptedFromMore(mask, events, seen, prev, n, c);
      if !seen[n] {
        var w := Swapped(half, v, events[n]);
        var lost :| Exchanged(mask, w.current, x, stored, lost, v'.current);
        assert Stored(v'.current, mask, c) <= Stored(w.current, mask, c) + Bit(c == x);
      }
    }
  }

  lemma {:induction false} RunAges(mask: bv32, half: int, start: int, events: seq<Event>,
                                   seen: seq<bool>, stored: seq<bool>, trace: seq<View>, n: nat)
    requires Run(mask, half, start, events, seen, stored, trace) && n <= |events|
    ensures Aged(mask, half, events, seen, trace, n)
  {
    hide Stored, Checked;
    if n == 0 {
      EmptyTable(mask);
    } else {
      RunAges(mask, half, start, events, seen, stored, trace, n - 1);
      assert RunStep(mask, half, events, seen, stored, trace, n - 1);
      CheckAges(mask, half, events, seen, stored[n - 1], trace, n - 1);
    }
  }

  /** Two swaps before n: what is older than the first of them is gone. */
  lemma {:induction false} SinceSwaps(half: int, events: seq<Event>, trace: seq<View>, s1: nat, s2: nat, n: nat)
    requires n <= |events| && n <= |trace| && s1 < n && SwapAt(half, events, trace, s1)
    ensures s1 <= CurrentSince(half, events, trace, n)
    ensures s1 < s2 < n && SwapAt(half, events, trace, s2) ==>
            s2 <= CurrentSince(half, events, trace, n) && s1 <= PreviousSince(half, events, trace, n)
  {
    if n > s1 + 1 {
      SinceSwaps(half, events, trace, s1, s2, n - 1);
    }
  }

  /** Once two swaps came in between, a nonce is accepted again, unless an equal item was accepted since. */
  lemma ForgottenAfterSwaps(mask: bv32, half: int, start: int, events: seq<Event>,
                            seen: seq<bool>, stored: seq<bool>, trace: seq<View>, s1: nat, s2: nat, j: nat)
    requires Run(mask, half, start, events, seen, stored, trace) && s1 < s2 <= j < |events|
    requires SwapAt(half, events, trace, s1) && SwapAt(half, events, trace, s2)
    ensures seen[j] ==> AcceptedFrom(mask, events, seen, s1, j, ItemOf(mask, events[j].nonce))
  {
    hide Stored, Inserted, ItemOf;
    RunAges(mask, half, start, events, seen, stored, trace, j);
    assert RunStep(mask, half, events, seen, stored, trace, j);
    SinceSwaps(half, events, trace, s1, s2, j);
    EmptyTable(mask);
  }

  /** Half a window after check i there was a swap. */
  lemma {:induction false} SwapInTime(mask: bv32, half: int, start: int, events: seq<Event>,
                                      seen: seq<bool>, stored: seq<bool>, trace: seq<View>, i: nat, k: nat) returns (s: nat)
    requires Run(mask, half, start, events, seen, stored, trace) && Clocked(start, events)
    requires i < k < |events| && half <= events[k].a - events[i].b
    ensures i < s <= k && SwapAt(half, events, trace, s)
  {
    hide Stored, Checked, ViewOk;
    s := i + 1;
    SwapBound(mask, half, start, events, seen, stored, trace, i);
    while !SwapAt(half, events, trace, s) && s < k
      invariant i < s <= k && trace[s].lastSwap <= events[i].b
    {
      NoSwapKeeps(mask, half, start, events, seen, stored, trace, s);
      s := s + 1;
    }
  }

  lemma SwapBound(mask: bv32, half: int, start: int, events: seq<Event>,
                  seen: seq<bool>, stored: seq<bool>, trace: seq<View>, i: nat)
    requires Run(mask, half, start, events, seen, stored, trace) && Clocked(start, events) && i < |events|
    ensures trace[i + 1].lastSwap <= events[i].b
  {
    hide Stored, TableOk, Accepted, Run;
    RunKeeps(mask, half, start, events, seen, stored, trace, i + 1);
  }

  lemma NoSwapKeeps(mask: bv32, half: int, start: int, events: seq<Event>,
                    seen: seq<bool>, stored: seq<bool>, trace: seq<View>, k: nat)
    requires Run(mask, half, start, events, seen, stored, trace) && k < |events| && !SwapAt(half, events, trace, k)
    ensures trace[k + 1].lastSwap == trace[k].lastSwap
  {
    hide Stored, Inserted;
    assert RunStep(mask, half, events, seen, stored, trace, k);
  }

  // ---------------------------------------------------------------------------
  // When a nonce is not stored
  // ---------------------------------------------------------------------------

  ghost predicate CrowdedBy(mask: bv32, half: int, events: seq<Event>, seen: seq<bool>, n: nat, b: Index, crowd: seq<nat>)
    requires n < |events| == |seen|
  {
    && |crowd| == BUCKET_SIZE
    && (forall s :: 0 <= s < BUCKET_SIZE ==>
          crowd[s] < n && !seen[crowd[s]] && events[n].a < events[crowd[s]].b + half && b in ItemOf(mask, events[crowd[s]].nonce).buckets)
    && (forall s, s' :: 0 <= s < s' < BUCKET_SIZE ==>
          ItemOf(mask, events[crowd[s]].nonce) != ItemOf(mask, events[crowd[s']].nonce))
  }

  /** BUCKET_SIZE accepted checks before n had different items that belong into bucket b, less than half a window ago. */
  ghost predicate Crowded(mask: bv32, half: int, events: seq<Event>, seen: seq<bool>, n: nat, b: Index)
    requires n < |events| == |seen|
  {
    exists crowd: seq<nat> :: CrowdedBy(mask, half, events, seen, n, b, crowd)
  }

  ghost predicate CrowdedOut(mask: bv32, half: int, events: seq<Event>, seen: seq<bool>, n: nat)
    requires n < |events| == |seen|
  {
    var i := First(mask, events[n].nonce);
    && !seen[n]
    && Crowded(mask, half, events, seen, n, i)
    && Crowded(mask, half, events, seen, n, Other(mask, i, Fingerprint(events[n].nonce)))
  }

  ghost predicate OnlyCrowdedOut(mask: bv32, half: int, events: seq<Event>, seen: seq<bool>, stored: seq<bool>)
    requires |seen| == |stored| == |events|
  {
    forall n :: 0 <= n < |events| && !stored[n] ==> CrowdedOut(mask, half, events, seen, n)
  }

  lemma TwoElements<T>(h: set<T>, y: T, z: T)
    requires y in h && z in h && y != z
    ensures |h| > 1
  {
    assert h == (h - {y} - {z}) + {y} + {z};
  }

  /** The fingerprints in a bucket stand for different items. */
  lemma DifferentItems(mask: bv32, t: Table, y: Slot, z: Slot)
    requires TableOk(t, mask) && At(t, y) != 0 && At(t, z) != 0 && y != z
    requires forall c :: Stored(t, mask, c) <= 1
    ensures ItemAt(mask, y.bucket, At(t, y)) != ItemAt(mask, z.bucket, At(t, z))
  {
    hide At, Masked, ItemAt, Slots;
    var c := ItemAt(mask, y.bucket, At(t, y));
    UsedSlot(t, y);
    UsedSlot(t, z);
    assert Stored(t, mask, c) <= 1;
    assert z !in Holders(t, mask, c) by {
      if z in Holders(t, mask, c) {
        TwoElements(Holders(t, mask, c), y, z);
        assert false;
      }
    }
  }

  lemma FullIsCrowded(mask: bv32, half: int, start: int, events: seq<Event>, seen: seq<bool>, n: nat, v: View, b: Index)
    requires n < |events| == |seen| && ViewOk(mask, start, events, seen, n, v)
    requires Full(v.current, b) && events[n].a - v.lastSwap < half
    ensures Crowded(mask, half, events, seen, n, b)
  {
    var t := v.current;
    var items := seq(BUCKET_SIZE, s requires 0 <= s < BUCKET_SIZE => ItemAt(mask, b, At(t, Slot(b, s))));
    forall s: nat | s < BUCKET_SIZE
      ensures At(t, Slot(b, s)) != 0 && b in items[s].buckets && Accepted(mask, events, seen, n, v.lastSwap, items[s])
    {
      WitnessStored(t, mask, Slot(b, s));
    }
    forall s: nat, s': nat | s < s' < BUCKET_SIZE
      ensures items[s] != items[s']
    {
      DifferentItems(mask, t, Slot(b, s), Slot(b, s'));
    }
    var crowd: seq<nat> := seq(BUCKET_SIZE, s requires 0 <= s < BUCKET_SIZE =>
      var i: nat :| i < n && AcceptedAt(mask, events, seen, i, v.lastSwap, items[s]); i);
    assert CrowdedBy(mask, half, events, seen, n, b, crowd);
  }

  lemma RunCrowds(mask: bv32, half: int, start: int, events: seq<Event>,
                  seen: seq<bool>, stored: seq<bool>, trace: seq<View>)
    requires Run(mask, half, start, events, seen, stored, trace) && Clocked(start, events)
    ensures OnlyCrowdedOut(mask, half, events, seen, stored)
  {
    hide Crowded, Checked;
    forall n | 0 <= n < |events| && !stored[n]
      ensures CrowdedOut(mask, half, events, seen, n)
    {
      NotStored(mask, half, start, events, seen, stored, trace, n);
    }
  }

  lemma NotStored(mask: bv32, half: int, start: int, events: seq<Event>,
                  seen: seq<bool>, stored: seq<bool>, trace: seq<View>, n: nat)
    requires Run(mask, half, start, events, seen, stored, trace) && Clocked(start, events)
    requires n < |events| && !stored[n]
    ensures CrowdedOut(mask, half, events, seen, n)
  {
    hide Crowded, Stored, TableOk, ItemOf, Fingerprint, Index1, Index2, Exchanged, ViewOk;
    RunKeeps(mask, half, start, events, seen, stored, trace, n);
    assert RunStep(mask, half, events, seen, stored, trace, n);
    var i := First(mask, events[n].nonce);
    var w := Swapped(half, trace[n], events[n]);
    assert Get(map[], i)[0] == 0;
    assert Full(w.current, i) && w == trace[n];
    FullIsCrowded(mask, half, start, events, seen, n, w, i);
    FullIsCrowded(mask, half, start, events, seen, n, w, Other(mask, i, Fingerprint(events[n].nonce)));
  }

  // ---------------------------------------------------------------------------
  // The window
  // ---------------------------------------------------------------------------

  /** Check j comes less than half of the window after check i. */
  predicate InWindow(window: int, events: seq<Event>, i: nat, j: nat)
    requires i < |events| && j < |events|
  {
    2 * (events[j].a - events[i].b + 1) <= window
  }

  /** A nonce that is checked twice within half of the window is refused, unless its item was lost in between. */
  ghost predicate Remembers(mask: bv32, half: int, window: int, events: seq<Event>, seen: seq<bool>, trace: seq<View>)
    requires |seen| == |events| && |trace| == |events| + 1
  {
    forall i, j | 0 <= i < j < |seen| && events[i].nonce == events[j].nonce && !seen[i] && InWindow(window, events, i, j) ::
      seen[j] || exists k :: i <= k < j && LosesAt(mask, half, events, seen, trace, k, ItemOf(mask, events[i].nonce))
  }

  /** Every check before j that accepted item c is at least half of the window older than check k. */
  ghost predicate OldAt(mask: bv32, window: int, events: seq<Event>, seen: seq<bool>, c: Item, k: nat, j: nat)
    requires k < |events| == |seen| && j <= |events|
  {
    forall i | 0 <= i < j && !seen[i] && ItemOf(mask, events[i].nonce) == c :: i < k && !InWindow(window, events, i, k)
  }

  /**
   * A nonce is accepted again once half of the window passed twice: up to a check k1 since every check that accepted an
   * equal item, and up to a check k2 since k1.
   */
  ghost predicate Forgets(mask: bv32, window: int, events: seq<Event>, seen: seq<bool>)
    requires |seen| == |events|
  {
    forall k1, k2, j | 0 <= k1 < k2 <= j < |seen| && !InWindow(window, events, k1, k2)
                       && OldAt(mask, window, events, seen, ItemOf(mask, events[j].nonce), k1, j) :: !seen[j]
  }

  /** Halves of whole numbers. */
  lemma HalfWindow(window: int, d: nat)
    ensures 2 * (d + 1) <= window <==> d < Half(window)
  {
  }

  lemma RunRemembers(mask: bv32, window: int, start: int, events: seq<Event>,
                     seen: seq<bool>, stored: seq<bool>, trace: seq<View>)
    requires Run(mask, Half(window), start, events, seen, stored, trace) && Clocked(start, events)
    ensures Remembers(mask, Half(window), window, events, seen, trace)
  {
    hide Half, RunStep, LosesAt, ItemOf;
    RunRecognises(mask, Half(window), start, events, seen, stored, trace);
    forall i, j | 0 <= i < j < |seen| && events[i].nonce == events[j].nonce && !seen[i] && InWindow(window, events, i, j)
      ensures seen[j] || exists k :: i <= k < j && LosesAt(mask, Half(window), events, seen, trace, k, ItemOf(mask, events[i].nonce))
    {
      HalfWindow(window, events[j].a - events[i].b);
    }
  }

  /** A generation lasts for half of the window at least, from the second reading of the clock on. */
  lemma {:induction false} SwapsApart(mask: bv32, window: int, start: int, events: seq<Event>,
                                      seen: seq<bool>, stored: seq<bool>, trace: seq<View>, k1: nat, k2: nat)
    requires Run(mask, Half(window), start, events, seen, stored, trace) && Clocked(start, events) && k1 < k2 < |events|
    requires SwapAt(Half(window), events, trace, k1) && SwapAt(Half(window), events, trace, k2)
    ensures !InWindow(window, events, k1, k2)
  {
    hide Half, Stored, Inserted;
    var k := k1 + 1;
    assert RunStep(mask, Half(window), events, seen, stored, trace, k1);
    while k < k2
      invariant k1 < k <= k2 && events[k1].b <= trace[k].lastSwap
    {
      assert RunStep(mask, Half(window), events, seen, stored, trace, k);
      k := k + 1;
    }
    HalfWindow(window, events[k2].a - events[k1].b);
  }

  lemma RunForgets(mask: bv32, window: int, start: int, events: seq<Event>,
                   seen: seq<bool>, stored: seq<bool>, trace: seq<View>)
    requires Run(mask, Half(window), start, events, seen, stored, trace) && Clocked(start, events)
    ensures Forgets(mask, window, events, seen)
  {
    hide Half, RunStep, Clocked, ItemOf, Stored;
    forall k1, k2, j | 0 <= k1 < k2 <= j < |seen| && !InWindow(window, events, k1, k2)
                       && OldAt(mask, window, events, seen, ItemOf(mask, events[j].nonce), k1, j)
      ensures !seen[j]
    {
      ForgottenAt(mask, window, start, events, seen, stored, trace, k1, k2, j);
    }
  }

  /** The last check before j that accepted item c, or -1. */
  lemma LastAccepted(mask: bv32, events: seq<Event>, seen: seq<bool>, c: Item, j: nat) returns (i: int)
    requires j <= |events| == |seen|
    ensures -1 <= i < j && (i >= 0 ==> !seen[i] && ItemOf(mask, events[i].nonce) == c)
    ensures forall k :: i < k < j ==> seen[k] || ItemOf(mask, events[k].nonce) != c
  {
    hide ItemOf;
    i := j - 1;
    while i >= 0 && (seen[i] || ItemOf(mask, events[i].nonce) != c)
      invariant -1 <= i < j
      invariant forall k :: i < k < j ==> seen[k] || ItemOf(mask, events[k].nonce) != c
    {
      i := i - 1;
    }
  }

  lemma ForgottenAt(mask: bv32, window: int, start: int, events: seq<Event>,
                    seen: seq<bool>, stored: seq<bool>, trace: seq<View>, k1: nat, k2: nat, j: nat)
    requires Run(mask, Half(window), start, events, seen, stored, trace) && Clocked(start, events)
    requires k1 < k2 <= j < |seen| && !InWindow(window, events, k1, k2)
    requires OldAt(mask, window, events, seen, ItemOf(mask, events[j].nonce), k1, j)
    ensures !seen[j]
  {
    hide Half, RunStep, ItemOf;
    var half, c := Half(window), ItemOf(mask, events[j].nonce);
    HalfWindow(window, events[k2].a - events[k1].b);
    var s2 := SwapInTime(mask, half, start, events, seen, stored, trace, k1, k2);
    var i := LastAccepted(mask, events, seen, c, j);
    if i >= 0 {
      HalfWindow(window, events[k1].a - events[i].b);
      var s1 := SwapInTime(mask, half, start, events, seen, stored, trace, i, k1);
      ForgottenAfterSwaps(mask, half, start, events, seen, stored, trace, s1, s2, j);
      assert !AcceptedFrom(mask, events, seen, s1, j, c);
    } else if seen[j] {
      RefusedWasAccepted(mask, half, start, events, seen, stored, trace, j);
      assert false;
    }
  }

  /**
   * Any run of checks. Each check is one step from the filter as the check before left it. A nonce that was accepted is
   * refused for the next half of the window, unless its own item was lost, and no longer than the generations last. A
   * nonce is refused only if an accepted one had the same fingerprint and buckets, and it fails to be stored only if both
   * its buckets are full of other items of the last half of the window.
   */
  method RunChecks(window: int, start: int, events: seq<Event>)
    returns (seen: seq<bool>, stored: seq<bool>, ghost trace: seq<View>)
    requires Clocked(start, events)
    ensures var half, mask := Half(if window == 0 then DEFAULT_WINDOW else window), MaskFor(DEFAULT_CAPACITY);
      && Run(mask, half, start, events, seen, stored, trace)
      && NoReplay(mask, half, events, seen, stored, trace)
      && NoWrongRefusal(mask, start, events, seen)
      && OnlyCrowdedOut(mask, half, events, seen, stored)
    ensures var w, mask := if window == 0 then 120_000_000_000 else window, MaskFor(DEFAULT_CAPACITY);
      Remembers(mask, Half(w), w, events, seen, trace) && Forgets(mask, w, events, seen)
  {
    hide MaskFor, Checked, RunStep, Half, Clocked, Remembers, Forgets, NoReplay, NoWrongRefusal, OnlyCrowdedOut;
    var f := new ReplayFilter(window, start);
    seen, stored, trace := [], [], [f.Contents()];
    for n := 0 to |events|
      invariant fresh(f) && fresh(f.current) && f.Valid()
      invariant |seen| == |stored| == n && |trace| == n + 1
      invariant trace[0] == View(map[], map[], start) && trace[n] == f.Contents()
      invariant forall k :: 0 <= k < n ==> RunStep(MaskFor(DEFAULT_CAPACITY), Half(f.window), events, seen, stored, trace, k)
    {
      var s, ok := f.Check(events[n]);
      OneMoreStep(MaskFor(DEFAULT_CAPACITY), Half(f.window), events, seen, stored, trace, n, s, ok, f.Contents());
      seen, stored, trace := seen + [s], stored + [ok], trace + [f.Contents()];
    }
    ghost var mask := MaskFor(DEFAULT_CAPACITY);
    RunRecognises(mask, Half(f.window), start, events, seen, stored, trace);
    RunRefuses(mask, Half(f.window), start, events, seen, stored, trace);
    RunCrowds(mask, Half(f.window), start, events, seen, stored, trace);
    RunRemembers(mask, f.window, start, events, seen, stored, trace);
    RunForgets(mask, f.window, start, events, seen, stored, trace);
  }
}
