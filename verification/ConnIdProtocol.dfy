/**
 * The two parties of the connection ID protocol: a generator that issues IDs and a manager that uses and
 * retires them, joined by a network that may delay, reorder and lose frames. A NEW_CONNECTION_ID frame is
 * delivered at most once, a RETIRE_CONNECTION_ID frame any number of times.
 */
module ConnIdProtocol {
  import opened Protocol
  import opened ConnIdManagement
  import opened ConnIdGeneration

  datatype Op =
    | DeliverNew(i: nat, jitter: nat)
    | DeliverRetire(number: nat, sentWith: ConnId, expiry: int)
    | SetLimit(limit: nat)
    | Rotate(jitter: nat)
    | Probe(path: PathId)
    | Unprobe(path: PathId)
    | SendPacket
    | CompleteHandshake
    | Clean(now: int)

  /** The first number is known from the handshake, the others from their frames. */
  ghost function Arrived(delivered: set<nat>, n: nat): nat {
    if n == 0 || n - 1 in delivered then 1 else 0
  }

  /** What holds between the parties; delivered are the indices of the frames that arrived. */
  ghost predicate Agreed(g: ConnIdGenerator, m: ConnIdManager, delivered: set<nat>)
    reads g, m
  {
    && g.Valid() && m.Valid() && m.NonZero() && g.idLen > 0
    && |g.active| <= MAX_ACTIVE_CONNECTION_IDS
    && (forall i :: i in delivered ==> i < |g.frames|)
    && (forall n: nat :: m.Known(n) == Arrived(delivered, n))
    && (forall n: nat :: n <= g.highestSeq && m.retired[n] == 0 ==> n in g.active)
  }

  // ---------------------------------------------------------------------------
  // The limit
  // ---------------------------------------------------------------------------

  ghost function NumberSet(q: Queue): set<nat> {
    set i | 0 <= i < |q| :: q[i].number
  }

  lemma {:induction false} NumberSetSize(q: Queue)
    requires Increasing(q)
    ensures |NumberSet(q)| == |q|
  {
    if q == [] {
      assert NumberSet(q) == {};
    } else {
      var last := |q| - 1;
      var q' := q[..last];
      NumberSetSize(q');
      assert forall i :: 0 <= i < |q'| ==> q'[i] == q[i];
      assert q[last].number in NumberSet(q);
      assert q[last].number !in NumberSet(q');
      forall n
        ensures n in NumberSet(q) <==> n in NumberSet(q') + {q[last].number}
      {
        if n in NumberSet(q) {
          var i :| 0 <= i < |q| && q[i].number == n;
          if i < last {
            assert q'[i].number == n;
          }
        }
      }
      assert NumberSet(q) == NumberSet(q') + {q[last].number};
    }
  }

  /** A number that is held is one of the generator's active ones. */
  lemma HeldIsActive(g: ConnIdGenerator, m: ConnIdManager, delivered: set<nat>, n: nat)
    requires Agreed(g, m, delivered) && Held(m.active.number, m.queue, m.probing, n) > 0
    ensures n in g.active
  {
    hide m.Valid;
    hide Held;
    assert m.Known(n) == Arrived(delivered, n);
    if n > 0 {
      assert n - 1 in delivered;
    }
  }

  /** The queue leaves room for the active connection ID: the limit is never reached. */
  lemma QueueBelowLimit(g: ConnIdGenerator, m: ConnIdManager, delivered: set<nat>)
    requires Agreed(g, m, delivered)
    ensures |m.queue| < MAX_ACTIVE_CONNECTION_IDS
  {
    var q, a := m.queue, m.active.number;
    forall n | n in NumberSet(q) + {a}
      ensures n in g.active
    {
      QueuedIn(q, n);
      HeldIsActive(g, m, delivered, n);
    }
    NumberSetSize(q);
    assert a !in NumberSet(q);
    assert |NumberSet(q) + {a}| == |q| + 1;
    assert NumberSet(q) + {a} <= g.active.Keys;
    SubsetSize(NumberSet(q) + {a}, g.active.Keys);
  }

  lemma {:induction false} SubsetSize<T>(a: set<T>, b: set<T>)
    requires a <= b
    ensures |a| <= |b|
  {
    assert b == a + (b - a);
    assert |a + (b - a)| == |a| + |b - a|;
  }

  // ---------------------------------------------------------------------------
  // Steps
  // ---------------------------------------------------------------------------

  /** What can be seen of the manager. */
  datatype View = View(active: ActiveId, queue: Queue, probing: Paths, highestProbing: nat, retired: multiset<nat>, handshakeComplete: bool, packets: Packets)

  /** What can be seen of both parties: the generator's frames and active IDs, the frames that arrived, and the manager. */
  datatype Snapshot = Snapshot(frames: seq<NewConnIdFrame>, issued: map<nat, ConnId>, delivered: set<nat>, view: View)

  ghost function ViewOf(m: ConnIdManager): View
    reads m
  {
    View(m.active, m.queue, m.probing, m.highestProbing, m.retired, m.handshakeComplete, m.packets)
  }

  ghost function Snap(g: ConnIdGenerator, m: ConnIdManager, delivered: set<nat>): Snapshot
    reads g, m
  {
    Snapshot(g.frames, g.active, delivered, ViewOf(m))
  }

  /**
   * A frame arrived for the first time. Its number is retired at once if an ID that was issued later is active or was
   * given to a path; otherwise its ID is in the queue.
   */
  ghost predicate Taken(v: View, f: NewConnIdFrame, v': View) {
    if f.number < v.active.number || f.number < v.highestProbing then v' == v.(retired := Plus(v.retired, f.number))
    else v' == v.(queue := v'.queue) && forall x :: x in v'.queue <==> x in v.queue || x == Entry(f)
  }

  /** The steps of the manager alone. */
  ghost predicate Changed(v: View, op: Op, v': View) {
    match op
    case Rotate(jitter) =>
      if jitter < PACKETS_PER_CONNECTION_ID && ChangeDue(v.handshakeComplete, |v.queue|, v.active.number, v.packets)
      then v.queue != [] && v' == v.(active := Activated(v.queue[0]), queue := v.queue[1..],
                                     retired := Plus(v.retired, v.active.number),
                                     packets := Packets(0, PACKETS_PER_CONNECTION_ID / 2 + jitter))
      else v' == v
    case Probe(path) =>
      if path in v.probing || v.queue == [] then v' == v
      else v' == v.(queue := v.queue[1..], probing := v.probing[path := v.queue[0]], highestProbing := v.queue[0].number)
    case Unprobe(path) =>
      if path in v.probing
      then v' == v.(probing := v.probing - {path}, retired := Plus(v.retired, v.probing[path].number))
      else v' == v
    case SendPacket => v' == v.(packets := v.packets.(sinceLastChange := v.packets.sinceLastChange + 1))
    case CompleteHandshake => v' == v.(handshakeComplete := true)
    case _ => v' == v
  }

  /** A retirement arrived: the ID is replaced, except for number 0 and when there is no new ID. */
  ghost predicate Replaced(s: Snapshot, number: nat, s': Snapshot, complete: bool) {
    || (s' == s.(issued := s.issued - {number}) && (number == 0 || !complete))
    || (number != 0 && OneMore(s.frames, s.issued - {number}, s'.frames, s'.issued))
  }

  /** A limit arrived: IDs are issued up to it. */
  ghost predicate Filled(s: Snapshot, limit: nat, s': Snapshot, complete: bool) {
    && Extends(s.frames, s.issued, s'.frames, s'.issued)
    && |s'.issued| <= Max(|s.issued|, limit) && (complete ==> limit <= |s'.issued|)
  }

  /** One step of the protocol and the manager's answer. What cannot happen is skipped. */
  ghost predicate Stepped(s: Snapshot, op: Op, r: Option<AddResult>, s': Snapshot, complete: bool) {
    match op
    case DeliverNew(i, jitter) =>
      if i < |s.frames| && i !in s.delivered && jitter < PACKETS_PER_CONNECTION_ID
      then r == Some(Ok) && s' == s.(delivered := s.delivered + {i}, view := s'.view) && Taken(s.view, s.frames[i], s'.view)
      else r == None && s' == s
    case DeliverRetire(number, sentWith, _) =>
      && r == None && s'.delivered == s.delivered && s'.view == s.view
      && if s.view.retired[number] > 0 && number in s.issued && s.issued[number] != sentWith
         then Replaced(s, number, s', complete)
         else s' == s
    case SetLimit(limit) =>
      && r == None && s'.delivered == s.delivered && s'.view == s.view
      && if limit <= MAX_ACTIVE_CONNECTION_IDS then Filled(s, limit, s', complete) else s' == s
    case _ => r == None && s' == s.(view := s'.view) && Changed(s.view, op, s'.view)
  }

  /** The generator of connection IDs never fails. */
  ghost predicate Complete(generate: nat -> Option<ConnId>) {
    forall k :: generate(k).Some?
  }

  /** A NEW_CONNECTION_ID frame arrives for the first time: it is never refused. */
  method DeliverNewStep(g: ConnIdGenerator, m: ConnIdManager, delivered: set<nat>, i: nat, jitter: nat) returns (r: AddResult)
    requires Agreed(g, m, delivered) && i < |g.frames| && i !in delivered && jitter < PACKETS_PER_CONNECTION_ID
    modifies m
    ensures r == Ok
    ensures Agreed(g, m, delivered + {i}) && Taken(old(ViewOf(m)), g.frames[i], ViewOf(m))
  {
    hide Count, Queued, OrderOk, TokensOk, RegisteredOk, Plus;
    var f := g.frames[i];
    NotKnown(m, delivered, f.number);
    QueueAboveActive(m);
    r := m.Add(f, jitter);
    assert r != ZeroLength && r != Conflict;
    assert forall n: nat :: m.Known(n) == Arrived(delivered + {i}, n);
    QueueBelowLimit(g, m, delivered + {i});
  }

  lemma QueueAboveActive(m: ConnIdManager)
    requires m.Valid()
    ensures Increasing(m.queue) && forall x :: x in m.queue ==> m.active.number < x.number
  {
    OrderAt(m.queue, m.active.number, m.highestProbing, m.highestRetired, m.probing);
  }

  lemma NotKnown(m: ConnIdManager, delivered: set<nat>, n: nat)
    requires m.Known(n) == 0
    ensures m.Fresh(NewConnIdFrame(n, 0, ConnId(0, 0), Token(0))) && Queued(m.queue, n) == 0 && n != m.active.number
  {
  }

  lemma RetireKeeps(frames: seq<NewConnIdFrame>, active: map<nat, ConnId>, number: nat,
                    frames': seq<NewConnIdFrame>, active': map<nat, ConnId>, retired: multiset<nat>)
    requires retired[number] > 0 && forall n: nat :: n <= |frames| && retired[n] == 0 ==> n in active
    requires || (frames' == frames && (active' == active || active' == active - {number}))
             || OneMore(frames, active - {number}, frames', active')
    ensures |frames| <= |frames'| && forall n: nat :: n <= |frames'| && retired[n] == 0 ==> n in active'
  {
  }

  /** A RETIRE_CONNECTION_ID frame arrives, perhaps not for the first time. */
  method DeliverRetireStep(g: ConnIdGenerator, m: ConnIdManager, ghost delivered: set<nat>,
                           number: nat, sentWith: ConnId, expiry: int)
    requires Agreed(g, m, delivered) && m.retired[number] > 0
    modifies g
    ensures Agreed(g, m, delivered)
    ensures if number in old(g.active) && old(g.active)[number] != sentWith
            then Replaced(old(Snap(g, m, delivered)), number, Snap(g, m, delivered), Complete(g.generate))
            else Snap(g, m, delivered) == old(Snap(g, m, delivered))
  {
    hide m.Valid;
    hide FramesOk, SortedByTime, RegisteredOk, Count, Inserted, OneMore;
    ghost var active, frames := g.active, g.frames;
    var r := g.Retire(number, sentWith, expiry);
    RetireKeeps(frames, active, number, g.frames, g.active, m.retired);
  }

  /** The peer's active_connection_id_limit arrives. */
  method SetLimitStep(g: ConnIdGenerator, m: ConnIdManager, ghost delivered: set<nat>, limit: nat)
    requires Agreed(g, m, delivered) && limit <= MAX_ACTIVE_CONNECTION_IDS
    modifies g
    ensures Agreed(g, m, delivered)
    ensures Filled(old(Snap(g, m, delivered)), limit, Snap(g, m, delivered), Complete(g.generate))
  {
    hide m.Valid;
    hide RegisteredOk, IssuedOk, SortedByTime, Count;
    var ok := g.SetMaxActiveConnIds(limit);
  }

  /** The manager changes its connection ID if a change is due. */
  method RotateStep(g: ConnIdGenerator, m: ConnIdManager, ghost delivered: set<nat>, jitter: nat)
    requires Agreed(g, m, delivered) && jitter < PACKETS_PER_CONNECTION_ID
    modifies m
    ensures Agreed(g, m, delivered) && Changed(old(ViewOf(m)), Rotate(jitter), ViewOf(m))
  {
    hide g.Valid, m.Valid;
    hide Count, Plus;
    var id := m.Get(jitter);
  }

  /** A path takes a connection ID, or gives it up. */
  method PathStep(g: ConnIdGenerator, m: ConnIdManager, ghost delivered: set<nat>, op: Op)
    requires Agreed(g, m, delivered) && (op.Probe? || op.Unprobe?)
    modifies m
    ensures Agreed(g, m, delivered) && Changed(old(ViewOf(m)), op, ViewOf(m))
  {
    hide g.Valid, m.Valid;
    hide Count, Plus;
    if op.Probe? {
      var id := m.GetConnIdForPath(op.path);
    } else {
      if op.path in m.probing {
        PlusGrows(m.retired, m.probing[op.path].number);
      }
      m.RetireConnIdForPath(op.path);
    }
  }

  /** The other steps that concern one party only. */
  method LocalStep(g: ConnIdGenerator, m: ConnIdManager, ghost delivered: set<nat>, op: Op)
    requires Agreed(g, m, delivered) && (op.SendPacket? || op.CompleteHandshake? || op.Clean?)
    modifies g`toRetire, g`runner, m
    ensures Agreed(g, m, delivered) && Changed(old(ViewOf(m)), op, ViewOf(m))
  {
    hide g.Valid, m.Valid;
    hide Count;
    match op
    case SendPacket => m.SentPacket();
    case CompleteHandshake => m.SetHandshakeComplete();
    case Clean(now) => g.RemoveRetiredConnIds(now);
  }

  /** One step of any kind. */
  method Step(g: ConnIdGenerator, m: ConnIdManager, delivered: set<nat>, op: Op) returns (delivered': set<nat>, r: Option<AddResult>)
    requires Agreed(g, m, delivered)
    modifies g, m
    ensures Agreed(g, m, delivered')
    ensures Stepped(old(Snap(g, m, delivered)), op, r, Snap(g, m, delivered'), Complete(g.generate))
  {
    hide Agreed, Taken, Changed, Replaced, Filled, Complete;
    delivered', r := delivered, None;
    match op {
      case DeliverNew(i, jitter) =>
        if i < |g.frames| && i !in delivered && jitter < PACKETS_PER_CONNECTION_ID {
          var a := DeliverNewStep(g, m, delivered, i, jitter);
          delivered', r := delivered + {i}, Some(a);
        }
      case DeliverRetire(number, sentWith, expiry) =>
        if m.retired[number] > 0 {
          DeliverRetireStep(g, m, delivered, number, sentWith, expiry);
        }
      case SetLimit(limit) =>
        if limit <= MAX_ACTIVE_CONNECTION_IDS {
          SetLimitStep(g, m, delivered, limit);
        }
      case Rotate(jitter) =>
        if jitter < PACKETS_PER_CONNECTION_ID {
          RotateStep(g, m, delivered, jitter);
        } else {
          NoRotation(ViewOf(m), op);
        }
      case Probe(_) | Unprobe(_) =>
        PathStep(g, m, delivered, op);
      case SendPacket | CompleteHandshake | Clean(_) =>
        LocalStep(g, m, delivered, op);
    }
  }

  lemma NoRotation(v: View, op: Op)
    requires op.Rotate? && op.jitter >= PACKETS_PER_CONNECTION_ID
    ensures Changed(v, op, v)
  {
  }

  /** Every issued number is in flight, active, queued, held by one path, or retired: in exactly one of these. */
  ghost predicate Partitioned(g: ConnIdGenerator, m: ConnIdManager, delivered: set<nat>)
    reads g, m
  {
    forall n: nat :: n <= g.highestSeq ==>
      (1 - Arrived(delivered, n)) + Is(m.active.number, n) + Queued(m.queue, n)
        + |PathsWith(m.probing, n)| + m.retired[n] == 1
  }

  lemma AgreedIsPartitioned(g: ConnIdGenerator, m: ConnIdManager, delivered: set<nat>)
    requires Agreed(g, m, delivered)
    ensures Partitioned(g, m, delivered)
  {
    hide m.Valid;
    hide g.Valid;
    forall n: nat | n <= g.highestSeq
      ensures (1 - Arrived(delivered, n)) + Is(m.active.number, n) + Queued(m.queue, n)
                + |PathsWith(m.probing, n)| + m.retired[n] == 1
    {
      assert m.Known(n) == Arrived(delivered, n);
    }
  }

  lemma StartsAgreed(g: ConnIdGenerator, m: ConnIdManager, first: ConnId)
    requires g.Valid() && m.Valid() && g.idLen > 0 && first.len > 0
    requires m.queue == [] && m.probing == map[] && m.active == ActiveId(0, first, None) && m.retired == multiset{}
    requires g.active.Keys == {0} && g.frames == []
    ensures Agreed(g, m, {})
  {
    forall n: nat
      ensures m.Known(n) == Arrived({}, n)
    {
      NothingQueued();
      assert PathsWith(map[], n) == {};
    }
  }

  // ---------------------------------------------------------------------------
  // When connection IDs change
  // ---------------------------------------------------------------------------

  /** The queue is sorted, and lies above the active ID. */
  ghost predicate QueueInOrder(v: View) {
    Increasing(v.queue) && forall x :: x in v.queue ==> v.active.number < x.number
  }

  lemma AgreedAbove(g: ConnIdGenerator, m: ConnIdManager, delivered: set<nat>)
    requires Agreed(g, m, delivered)
    ensures QueueInOrder(ViewOf(m))
  {
    hide m.Valid;
    QueueAboveActive(m);
  }

  /** The first steps of a run. */
  ghost predicate Tracing(ops: seq<Op>, results: seq<Option<AddResult>>, trace: seq<Snapshot>, complete: bool) {
    && |results| <= |ops| && |trace| == |results| + 1
    && (forall n :: 0 <= n < |results| ==> Stepped(trace[n], ops[n], results[n], trace[n + 1], complete))
    && (forall n :: 0 <= n <= |results| ==> QueueInOrder(trace[n].view))
  }

  lemma TracingOn(ops: seq<Op>, results: seq<Option<AddResult>>, trace: seq<Snapshot>, complete: bool, r: Option<AddResult>, s: Snapshot)
    requires Tracing(ops, results, trace, complete) && |results| < |ops| && QueueInOrder(s.view)
    requires Stepped(trace[|results|], ops[|results|], r, s, complete)
    ensures Tracing(ops, results + [r], trace + [s], complete)
  {
    hide Stepped, QueueInOrder;
  }

  /** A run from the start, step by step. */
  ghost predicate Traced(ops: seq<Op>, results: seq<Option<AddResult>>, trace: seq<Snapshot>, complete: bool) {
    && |results| == |ops| && Tracing(ops, results, trace, complete)
    && !trace[0].view.handshakeComplete && trace[0].view.active.number == 0
  }

  ghost predicate HandshakeDone(ops: seq<Op>, n: nat)
    requires n <= |ops|
  {
    exists k :: 0 <= k < n && ops[k].CompleteHandshake?
  }

  /** How many packets are sent in ops[a..b]. */
  ghost function SentBetween(ops: seq<Op>, a: nat, b: nat): nat
    requires b <= |ops|
  {
    if b <= a then 0 else SentBetween(ops, a, b - 1) + Bit(ops[b - 1].SendPacket?)
  }

  /** Step n changes the active connection ID. */
  ghost predicate Changes(trace: seq<Snapshot>, n: nat)
    requires n + 1 < |trace|
  {
    trace[n + 1].view.active != trace[n].view.active
  }

  /** Step k is the last change before step n. */
  ghost predicate LastChange(trace: seq<Snapshot>, k: nat, n: nat)
    requires n < |trace|
  {
    k < n && Changes(trace, k) && forall i :: k < i < n ==> !Changes(trace, i)
  }

  ghost predicate NoChange(trace: seq<Snapshot>, n: nat)
    requires n < |trace|
  {
    forall i :: 0 <= i < n ==> !Changes(trace, i)
  }

  ghost predicate Rotation(op: Op) {
    op.Rotate? && op.jitter < PACKETS_PER_CONNECTION_ID
  }

  /**
   * When the active ID changes, in terms of the calls. The first change is the first rotation behind the handshake with
   * an ID in the queue. Any other change is a rotation with at least two IDs in the queue, and 5000 packets or, as
   * chance has it, up to 9999 more since the last change.
   */
  ghost predicate ChangesOnTime(ops: seq<Op>, trace: seq<Snapshot>, n: nat)
    requires n < |ops| && |trace| == |ops| + 1
  {
    && (Changes(trace, n) ==> Rotation(ops[n]))
    && (NoChange(trace, n) && Rotation(ops[n]) ==>
          (Changes(trace, n) <==> HandshakeDone(ops, n) && trace[n].view.queue != []))
    && (forall k: nat | LastChange(trace, k, n) && Rotation(ops[n]) ::
          && Rotation(ops[k])
          && (Changes(trace, n) <==> 2 <= |trace[n].view.queue| && 5000 + ops[k].jitter <= SentBetween(ops, k + 1, n)))
  }

  /** What the manager knows after n steps. */
  ghost predicate Counted(ops: seq<Op>, trace: seq<Snapshot>, n: nat)
    requires n <= |ops| && |trace| == |ops| + 1
  {
    var v := trace[n].view;
    && (v.handshakeComplete <==> HandshakeDone(ops, n))
    && (NoChange(trace, n) ==> v.active.number == 0)
    && (forall k: nat | LastChange(trace, k, n) ::
          && Rotation(ops[k]) && v.active.number > 0 && v.handshakeComplete
          && v.packets == Packets(SentBetween(ops, k + 1, n), 5000 + ops[k].jitter))
  }

  /** Only a rotation changes the active ID and the packet counters, apart from counting. */
  lemma StepKeeps(s: Snapshot, op: Op, r: Option<AddResult>, s': Snapshot, complete: bool)
    requires Stepped(s, op, r, s', complete) && QueueInOrder(s.view)
    ensures s'.view.handshakeComplete <==> s.view.handshakeComplete || op.CompleteHandshake?
    ensures s'.view.active == s.view.active ==>
            s'.view.packets == s.view.packets.(sinceLastChange := s.view.packets.sinceLastChange + Bit(op.SendPacket?))
    ensures s'.view.active != s.view.active <==>
            && Rotation(op) && s.view.handshakeComplete
            && if s.view.active.number == 0 then s.view.queue != []
               else 2 <= |s.view.queue| && s.view.packets.perConnectionId <= s.view.packets.sinceLastChange
    ensures s'.view.active != s.view.active ==> s'.view.active.number > 0 && s'.view.packets == Packets(0, 5000 + op.jitter)
  {
    hide Plus;
  }

  lemma {:induction false} RunCounts(ops: seq<Op>, results: seq<Option<AddResult>>, trace: seq<Snapshot>, complete: bool, n: nat)
    requires Traced(ops, results, trace, complete) && n <= |ops|
    ensures Counted(ops, trace, n)
  {
    hide Stepped;
    if n > 0 {
      RunCounts(ops, results, trace, complete, n - 1);
      StepKeeps(trace[n - 1], ops[n - 1], results[n - 1], trace[n], complete);
      CountsOn(ops, trace, n - 1);
    }
  }

  lemma CountsOn(ops: seq<Op>, trace: seq<Snapshot>, n: nat)
    requires n < |ops| && |trace| == |ops| + 1 && Counted(ops, trace, n)
    requires var v, v', op := trace[n].view, trace[n + 1].view, ops[n];
      && (v'.handshakeComplete <==> v.handshakeComplete || op.CompleteHandshake?)
      && (v'.active == v.active ==> v'.packets == v.packets.(sinceLastChange := v.packets.sinceLastChange + Bit(op.SendPacket?)))
      && (v'.active != v.active ==> Rotation(op) && v.handshakeComplete && v'.active.number > 0 && v'.packets == Packets(0, 5000 + op.jitter))
    ensures Counted(ops, trace, n + 1)
  {
    var v' := trace[n + 1].view;
    assert NoChange(trace, n + 1) ==> NoChange(trace, n) && !Changes(trace, n);
    forall k: nat | LastChange(trace, k, n + 1)
      ensures Rotation(ops[k]) && v'.active.number > 0 && v'.handshakeComplete
      ensures v'.packets == Packets(SentBetween(ops, k + 1, n + 1), 5000 + ops[k].jitter)
    {
      if k < n {
        assert !Changes(trace, n);
        assert LastChange(trace, k, n);
      }
    }
  }

  lemma RunChangesOnTime(ops: seq<Op>, results: seq<Option<AddResult>>, trace: seq<Snapshot>, complete: bool)
    requires Traced(ops, results, trace, complete)
    ensures forall n :: 0 <= n < |ops| ==> ChangesOnTime(ops, trace, n)
  {
    hide Stepped;
    forall n | 0 <= n < |ops|
      ensures ChangesOnTime(ops, trace, n)
    {
      RunCounts(ops, results, trace, complete, n);
      StepKeeps(trace[n], ops[n], results[n], trace[n + 1], complete);
    }
  }

  /**
   * Any run of the protocol, as a trace of snapshots. The manager accepts every NEW_CONNECTION_ID frame that arrives
   * for the first time: it never reports CONNECTION_ID_LIMIT_ERROR or a conflict. It changes its connection ID on time.
   * At the end every issued number is in exactly one place.
   */
  method RunProtocol(generate: nat -> Option<ConnId>, tokenOf: ConnId -> Token, first: ConnId, initialDest: Option<ConnId>, ops: seq<Op>)
    returns (g: ConnIdGenerator, m: ConnIdManager, delivered: set<nat>, results: seq<Option<AddResult>>, ghost trace: seq<Snapshot>)
    requires first.len > 0 && forall k :: generate(k).Some? ==> generate(k).value.len == first.len
    ensures |results| == |ops| && |trace| == |ops| + 1
    ensures trace[0] == Snapshot([], map[0 := first], {}, View(ActiveId(0, first, None), [], map[], 0, multiset{}, false, Packets(0, 0)))
    ensures forall n :: 0 <= n < |ops| ==> Stepped(trace[n], ops[n], results[n], trace[n + 1], Complete(generate))
    ensures trace[|ops|] == Snap(g, m, delivered)
    ensures forall n :: 0 <= n <= |ops| ==> QueueInOrder(trace[n].view)
    ensures forall n :: 0 <= n < |ops| ==> ChangesOnTime(ops, trace, n)
    ensures Agreed(g, m, delivered) && Partitioned(g, m, delivered)
    ensures |m.queue| < MAX_ACTIVE_CONNECTION_IDS && |g.active| <= MAX_ACTIVE_CONNECTION_IDS
  {
    hide g.Valid, m.Valid;
    hide Stepped, Complete;
    m := new ConnIdManager(first);
    g := new ConnIdGenerator(generate, first.len, tokenOf, first, initialDest);
    StartsAgreed(g, m, first);
    QueueAboveActive(m);
    hide Agreed, QueueInOrder, ChangesOnTime;
    delivered, results, trace := {}, [], [Snap(g, m, {})];
    ghost var start := trace[0];
    AgreedAbove(g, m, delivered);
    while |results| < |ops|
      invariant |results| <= |ops| && |trace| == |results| + 1 && trace[0] == start
      invariant Agreed(g, m, delivered) && fresh(g) && fresh(m) && g.generate == generate
      invariant trace[|results|] == Snap(g, m, delivered) && Tracing(ops, results, trace, Complete(generate))
    {
      hide Tracing;
      var r;
      delivered, r := Step(g, m, delivered, ops[|results|]);
      AgreedAbove(g, m, delivered);
      TracingOn(ops, results, trace, Complete(generate), r, Snap(g, m, delivered));
      results, trace := results + [r], trace + [Snap(g, m, delivered)];
    }
    AgreedIsPartitioned(g, m, delivered);
    QueueBelowLimit(g, m, delivered);
    RunChangesOnTime(ops, results, trace, Complete(generate));
  }

  // ---------------------------------------------------------------------------
  // Repeated frames
  // ---------------------------------------------------------------------------

  /** Number n is held once, or was retired, and not both. */
  ghost predicate InOnePlace(m: ConnIdManager, n: nat)
    reads m
  {
    Held(m.active.number, m.queue, m.probing, n) + (if m.retired[n] > 0 then 1 else 0) == 1
  }

  /**
   * The test of add for overtaken frames does not recognise every repeated frame. A frame that arrives again
   * leaves its number in one place if and only if that number is active or queued and the frame is not taken
   * for stale, or it was retired and the frame is taken for stale.
   */
  method DeliverAgain(m: ConnIdManager, f: NewConnIdFrame, jitter: nat) returns (r: AddResult)
    requires m.Valid() && m.active.id.len > 0 && f.retirePriorTo <= f.number && jitter < PACKETS_PER_CONNECTION_ID
    requires m.Known(f.number) == 1
    modifies m
    ensures r == Ok || r == LimitExceeded ==>
            (InOnePlace(m, f.number) <==>
             if old(m.Stale(f)) then old(m.retired[f.number]) > 0
             else f.number == old(m.active.number) || old(Queued(m.queue, f.number)) > 0)
  {
    hide Queued, PathsWith, OrderOk, TokensOk;
    r := m.Add(f, jitter);
    if Entry(f) in m.queue || m.active == Activated(Entry(f)) {
      EntryHeld(m.active, m.queue, m.probing, Entry(f));
    }
  }

  lemma EntryHeld(active: ActiveId, q: Queue, ps: Paths, x: NewConnId)
    requires x in q || active == Activated(x)
    ensures Held(active.number, q, ps, x.number) > 0
  {
    if x in q {
      var i :| 0 <= i < |q| && q[i] == x;
      QueuedIn(q, x.number);
    }
  }

  /** A repeated frame whose number is held by a path is queued a second time. */
  method RepeatedFrameExample(f: NewConnIdFrame, first: ConnId, path: PathId) returns (m: ConnIdManager)
    requires first.len > 0 && f.number == 1 && f.retirePriorTo == 0
    ensures m.Valid() && Held(m.active.number, m.queue, m.probing, 1) == 2
  {
    hide OrderOk, TokensOk;
    m := new ConnIdManager(first);
    NothingQueued();
    assert PathsWith(m.probing, 1) == {};
    var r := m.Add(f, 0);
    OneQueued(m, f);
    var id := m.GetConnIdForPath(path);
    assert m.queue == [];
    r := m.Add(f, 0);
  }

  lemma OneQueued(m: ConnIdManager, f: NewConnIdFrame)
    requires m.active.number == 0 && m.probing == map[] && m.retired == multiset{}
    requires m.Valid() && f.number == 1 && forall n :: m.Known(n) == Is(0, n) + Is(1, n)
    ensures |m.queue| == 1 && m.queue[0].number == 1
  {
    var q := m.queue;
    assert PathsWith(map[], 1) == {};
    assert m.Known(1) == 1;
    QueuedIn(q, 1);
    forall i | 0 <= i < |q|
      ensures q[i].number == 1
    {
      QueuedIn(q, q[i].number);
      assert m.Known(q[i].number) > 0;
    }
    NumberSetSize(q);
    assert NumberSet(q) == {1};
  }
}
