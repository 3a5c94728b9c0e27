/** The peer's connection IDs: queue, active one, path probing, retirement (quicfork/conn_id_manager.go). */
module ConnIdManagement {
  import opened Protocol

  const MAX_ACTIVE_CONNECTION_IDS: nat := 4
  const PACKETS_PER_CONNECTION_ID: nat := 10000

  /** A connection ID: its length and its bytes, read as a number. */
  datatype ConnId = ConnId(len: nat, value: nat)

  /** A stateless reset token, read as a number. */
  datatype Token = Token(value: nat)

  datatype PathId = PathId(id: int)

  datatype NewConnId = NewConnId(number: nat, id: ConnId, token: Token)

  /** The connection ID in use. The token of the first one is not known from the start. */
  datatype ActiveId = ActiveId(number: nat, id: ConnId, token: Option<Token>)

  /** How many packets were sent since the last change, and after how many the next one is due. */
  datatype Packets = Packets(sinceLastChange: nat, perConnectionId: nat)

  /** A NEW_CONNECTION_ID frame. */
  datatype NewConnIdFrame = NewConnIdFrame(number: nat, retirePriorTo: nat, id: ConnId, token: Token)

  datatype AddResult = Ok | ZeroLength | Conflict | LimitExceeded

  type Queue = seq<NewConnId>
  type Paths = map<PathId, NewConnId>

  // ---------------------------------------------------------------------------
  // Counting sequence numbers and tokens
  // ---------------------------------------------------------------------------

  ghost function Numbers(q: Queue): seq<nat> {
    seq(|q|, i requires 0 <= i < |q| => q[i].number)
  }

  /** How often number n is queued. */
  ghost function Queued(q: Queue, n: nat): nat {
    multiset(Numbers(q))[n]
  }

  ghost function PathsWith(ps: Paths, n: nat): set<PathId> {
    set p | p in ps && ps[p].number == n
  }

  ghost function PathsWithToken(ps: Paths, t: Token): set<PathId> {
    set p | p in ps && ps[p].token == t
  }

  ghost function Is(a: nat, n: nat): nat {
    if a == n then 1 else 0
  }

  ghost function IsToken(a: Option<Token>, t: Token): nat {
    if a == Some(t) then 1 else 0
  }

  lemma QueuedConcat(a: Queue, b: Queue, n: nat)
    ensures Queued(a + b, n) == Queued(a, n) + Queued(b, n)
  {
    assert Numbers(a + b) == Numbers(a) + Numbers(b);
  }

  lemma QueuedOne(x: NewConnId, n: nat)
    ensures Queued([x], n) == Is(x.number, n)
  {
    assert Numbers([x]) == [x.number];
  }

  lemma QueuedFront(q: Queue, n: nat)
    requires q != []
    ensures Queued(q, n) == Is(q[0].number, n) + Queued(q[1..], n)
  {
    assert q == [q[0]] + q[1..];
    QueuedConcat([q[0]], q[1..], n);
    QueuedOne(q[0], n);
  }

  lemma QueuedInsert(q: Queue, i: nat, x: NewConnId, n: nat)
    requires i <= |q|
    ensures Queued(q[..i] + [x] + q[i..], n) == Queued(q, n) + Is(x.number, n)
  {
    assert q == q[..i] + q[i..];
    QueuedConcat(q[..i], q[i..], n);
    QueuedConcat(q[..i] + [x], q[i..], n);
    QueuedConcat(q[..i], [x], n);
    QueuedOne(x, n);
  }

  lemma QueuedIn(q: Queue, n: nat)
    ensures Queued(q, n) > 0 <==> exists i :: 0 <= i < |q| && q[i].number == n
  {
    var s := Numbers(q);
    if Queued(q, n) > 0 {
      assert n in multiset(s);
      assert n in s;
      var i :| 0 <= i < |s| && s[i] == n;
      assert q[i].number == n;
    }
    if i :| 0 <= i < |q| && q[i].number == n {
      assert s[i] == n;
      assert n in multiset(s);
    }
  }

  lemma QueuedSnoc(q: Queue, i: nat, q': Queue, n: nat)
    requires i < |q|
    ensures Queued(q[..i + 1], n) == Queued(q[..i], n) + Is(q[i].number, n)
    ensures Queued(q' + [q[i]], n) == Queued(q', n) + Is(q[i].number, n)
  {
    hide Queued;
    assert q[..i + 1] == q[..i] + [q[i]];
    QueuedConcat(q[..i], [q[i]], n);
    QueuedConcat(q', [q[i]], n);
    QueuedOne(q[i], n);
  }

  lemma PathRemove(ps: Paths, p: PathId, n: nat)
    requires p in ps
    ensures |PathsWith(ps, n)| == |PathsWith(ps - {p}, n)| + Is(ps[p].number, n)
  {
    if ps[p].number == n {
      assert PathsWith(ps, n) == PathsWith(ps - {p}, n) + {p};
    } else {
      assert PathsWith(ps, n) == PathsWith(ps - {p}, n);
    }
  }

  lemma PathTokenRemove(ps: Paths, p: PathId, t: Token)
    requires p in ps
    ensures |PathsWithToken(ps, t)| == |PathsWithToken(ps - {p}, t)| + IsToken(Some(ps[p].token), t)
  {
    if ps[p].token == t {
      assert PathsWithToken(ps, t) == PathsWithToken(ps - {p}, t) + {p};
    } else {
      assert PathsWithToken(ps, t) == PathsWithToken(ps - {p}, t);
    }
  }

  lemma PathAdd(ps: Paths, p: PathId, x: NewConnId, n: nat)
    requires p !in ps
    ensures |PathsWith(ps[p := x], n)| == |PathsWith(ps, n)| + Is(x.number, n)
  {
    assert ps[p := x] - {p} == ps;
    PathRemove(ps[p := x], p, n);
  }

  lemma PathTokenAdd(ps: Paths, p: PathId, x: NewConnId, t: Token)
    requires p !in ps
    ensures |PathsWithToken(ps[p := x], t)| == |PathsWithToken(ps, t)| + IsToken(Some(x.token), t)
  {
    assert ps[p := x] - {p} == ps;
    PathTokenRemove(ps[p := x], p, t);
  }

  function Plus<T(==)>(m: multiset<T>, x: T): multiset<T> {
    m + multiset{x}
  }

  function Minus<T(==)>(m: multiset<T>, x: T): multiset<T> {
    m - multiset{x}
  }

  lemma PlusGrows<T>(m: multiset<T>, x: T)
    ensures m <= Plus(m, x)
  {
  }

  /** Removes a token, if there is one. */
  function Unregister(m: multiset<Token>, t: Option<Token>): multiset<Token> {
    match t
    case None => m
    case Some(x) => Minus(m, x)
  }

  // ---------------------------------------------------------------------------
  // The queue
  // ---------------------------------------------------------------------------

  ghost predicate Increasing(q: Queue) {
    forall i, j :: 0 <= i < j < |q| ==> q[i].number < q[j].number
  }

  /** Every queued number is above the active one, and at or above lo. */
  ghost predicate QueueAbove(q: Queue, active: nat, lo: nat) {
    forall i :: 0 <= i < |q| ==> active < q[i].number && lo <= q[i].number
  }

  /** kept is what remains of q when the numbers below r go. */
  ghost predicate Kept(q: Queue, kept: Queue, r: nat) {
    Increasing(kept) && forall x :: x in kept <==> x in q && r <= x.number
  }

  lemma KeptNone(r: nat)
    ensures Kept([], [], r)
  {
  }

  lemma KeptMore(q: Queue, i: nat, kept: Queue, r: nat)
    requires Increasing(q) && i < |q| && Kept(q[..i], kept, r)
    ensures Kept(q[..i + 1], if r <= q[i].number then kept + [q[i]] else kept, r)
  {
    assert q[..i + 1] == q[..i] + [q[i]];
    forall x | x in kept
      ensures x.number < q[i].number
    {
      var k :| 0 <= k < i && q[..i][k] == x;
    }
  }

  lemma KeptAll(q: Queue, kept: Queue, r: nat)
    requires Kept(q, kept, r)
    ensures Increasing(kept) && forall x :: x in kept <==> x in q && x.number >= r
  {
  }

  lemma InsertIncreasing(q: Queue, i: nat, x: NewConnId)
    requires Increasing(q) && i < |q| && x.number < q[i].number && (forall k :: 0 <= k < i ==> q[k].number < x.number)
    ensures var q' := q[..i] + [x] + q[i..];
      Increasing(q') && forall y :: y in q' <==> y in q || y == x
  {
    assert q == q[..i] + q[i..];
  }

  /** The order of sequence numbers that every call keeps. */
  ghost predicate OrderOk(q: Queue, active: nat, highestProbing: nat, highestRetired: nat, ps: Paths) {
    && Increasing(q)
    && QueueAbove(q, active, Max(highestProbing, highestRetired))
    && forall p :: p in ps ==> ps[p].number <= highestProbing
  }

  /** Exactly the tokens of the active connection ID and of the probed paths are registered. */
  ghost predicate TokensOk(registered: multiset<Token>, active: Option<Token>, ps: Paths) {
    forall t :: registered[t] == IsToken(active, t) + |PathsWithToken(ps, t)|
  }

  /** How often number n is active, queued or held by a path. */
  ghost function Held(active: nat, q: Queue, ps: Paths, n: nat): nat {
    Is(active, n) + Queued(q, n) + |PathsWith(ps, n)|
  }

  /** How often number n is held or was retired. */
  ghost function Count(active: nat, q: Queue, ps: Paths, retired: multiset<nat>, n: nat): nat {
    Held(active, q, ps, n) + retired[n]
  }

  lemma FrontCount(active: nat, q: Queue, ps: Paths, retired: multiset<nat>, n: nat)
    requires q != []
    ensures Count(q[0].number, q[1..], ps, Plus(retired, active), n) == Count(active, q, ps, retired, n)
  {
    QueuedFront(q, n);
  }

  lemma FrontOrder(q: Queue, active: nat, highestProbing: nat, highestRetired: nat, ps: Paths)
    requires OrderOk(q, active, highestProbing, highestRetired, ps) && q != []
    ensures OrderOk(q[1..], q[0].number, highestProbing, Max(highestRetired, active), ps)
  {
  }

  lemma SwitchTokens(registered: multiset<Token>, active: Option<Token>, next: Token, ps: Paths)
    requires TokensOk(registered, active, ps)
    ensures TokensOk(Plus(Unregister(registered, active), next), Some(next), ps)
  {
  }

  function Entry(f: NewConnIdFrame): NewConnId {
    NewConnId(f.number, f.id, f.token)
  }

  function Activated(x: NewConnId): ActiveId {
    ActiveId(x.number, x.id, Some(x.token))
  }

  /** shouldUpdateConnID: the first change as early as possible, later ones when there are enough IDs and packets. */
  predicate ChangeDue(handshakeComplete: bool, queued: nat, active: nat, packets: Packets) {
    handshakeComplete &&
    if queued > 0 && active == 0 then true
    else 2 * queued >= MAX_ACTIVE_CONNECTION_IDS && packets.sinceLastChange >= packets.perConnectionId
  }

  ghost function KeepPaths(ps: Paths, r: nat): Paths {
    map p | p in ps && ps[p].number >= r :: ps[p]
  }

  class ConnIdManager {
    var queue: Queue
    var highestProbing: nat
    var probing: Paths
    var handshakeComplete: bool
    var active: ActiveId
    var highestRetired: nat
    var packets: Packets
    var closed: bool
    /** The sequence numbers of all RETIRE_CONNECTION_ID frames that were queued. */
    var retired: multiset<nat>
    /** The stateless reset tokens that are registered. */
    var registered: multiset<Token>

    ghost predicate Ordered()
      reads this
    {
      OrderOk(queue, active.number, highestProbing, highestRetired, probing)
    }

    ghost predicate TokensMatch()
      reads this
    {
      TokensOk(registered, active.token, probing)
    }

    ghost predicate Valid()
      reads this
    {
      Ordered() && highestRetired <= active.number && TokensMatch() && !closed
    }

    /** How often number n is held or was retired. */
    ghost function Known(n: nat): nat
      reads this
    {
      Count(active.number, queue, probing, retired, n)
    }

    /** Another connection ID or token is queued with the number of f. */
    ghost predicate Conflicting(f: NewConnIdFrame)
      reads this
    {
      exists x :: x in queue && x.number == f.number && x != Entry(f)
    }

    constructor (initialDestConnId: ConnId)
      ensures Valid() && queue == [] && probing == map[] && highestRetired == highestProbing == 0
      ensures active == ActiveId(0, initialDestConnId, None)
      ensures retired == multiset{} && registered == multiset{} && packets == Packets(0, 0) && !handshakeComplete
    {
      queue, probing, highestRetired, highestProbing := [], map[], 0, 0;
      active, closed, handshakeComplete := ActiveId(0, initialDestConnId, None), false, false;
      packets := Packets(0, 0);
      retired, registered := multiset{}, multiset{};
    }

    /** addConnectionID: inserts in order; the same number is not queued twice. */
    method AddConnectionId(number: nat, id: ConnId, token: Token) returns (ok: bool)
      requires Increasing(queue)
      modifies this`queue
      ensures ok ==> Increasing(queue)
      ensures !ok ==> queue == old(queue) && exists i :: 0 <= i < |queue| && queue[i].number == number &&
                                                         queue[i] != NewConnId(number, id, token)
      ensures forall x :: x in queue <==> x in old(queue) || (ok && x == NewConnId(number, id, token))
      ensures ok ==> forall n :: Queued(queue, n) == old(Queued(queue, n)) + if old(Queued(queue, number)) > 0 then 0 else Is(number, n)
    {
      hide Queued;
      var x := NewConnId(number, id, token);
      QueuedIn(queue, number);
      if |queue| == 0 || queue[|queue| - 1].number < number {
        forall n
          ensures Queued(queue + [x], n) == Queued(queue, n) + Is(number, n)
        {
          QueuedConcat(queue, [x], n);
          QueuedOne(x, n);
        }
        queue := queue + [x];
        return true;
      }
      var i := 0;
      while i < |queue|
        invariant i <= |queue| && queue == old(queue)
        invariant forall k :: 0 <= k < i ==> queue[k].number < number
      {
        var entry := queue[i];
        if entry.number == number {
          if entry.id != id || entry.token != token {
            return false;
          }
          return true;
        }
        if entry.number > number {
          forall n {
            QueuedInsert(queue, i, x, n);
          }
          InsertIncreasing(queue, i, x);
          queue := queue[..i] + [x] + queue[i..];
          return true;
        }
        i := i + 1;
      }
      assert false;
    }

    /** updateConnectionID: retires the active connection ID and takes the first one of the queue. */
    method UpdateConnectionId(jitter: nat)
      requires Ordered() && TokensMatch() && !closed && queue != []
      requires jitter < PACKETS_PER_CONNECTION_ID
      modifies this`queue, this`active, this`highestRetired, this`retired, this`registered, this`packets
      ensures Ordered() && TokensMatch()
      ensures active == ActiveId(old(queue)[0].number, old(queue)[0].id, Some(old(queue)[0].token))
      ensures queue == old(queue)[1..]
      ensures highestRetired == Max(old(highestRetired), old(active.number))
      ensures retired == Plus(old(retired), old(active.number)) && old(retired) <= retired
      ensures packets == Packets(0, PACKETS_PER_CONNECTION_ID / 2 + jitter)
      ensures forall n :: Known(n) == old(Known(n))
    {
      hide Count, OrderOk, TokensOk, Plus, Unregister;
      SwitchTokens(registered, active.token, queue[0].token, probing);
      FrontOrder(queue, active.number, highestProbing, highestRetired, probing);
      forall n {
        FrontCount(active.number, queue, probing, retired, n);
      }
      PlusGrows(retired, active.number);
      retired := Plus(retired, active.number);
      highestRetired := Max(highestRetired, active.number);
      registered := Unregister(registered, active.token);
      var front := queue[0];
      queue := queue[1..];
      active := ActiveId(front.number, front.id, Some(front.token));
      packets := Packets(0, PACKETS_PER_CONNECTION_ID / 2 + jitter);
      registered := Plus(registered, front.token);
    }

    /** The first loop of add: gives up the connection IDs of paths that are below r. */
    method RetirePaths(r: nat)
      requires TokensMatch()
      modifies this`probing, this`retired, this`registered
      ensures probing == KeepPaths(old(probing), r)
      ensures TokensMatch() && old(retired) <= retired
      ensures forall n :: Known(n) == old(Known(n))
    {
      hide TokensOk, Plus, Minus;
      ghost var ps := probing;
      var todo := probing.Keys;
      while todo != {}
        invariant todo <= probing.Keys <= ps.Keys
        invariant forall p :: p in probing ==> probing[p] == ps[p]
        invariant forall p :: p in ps && p !in todo ==> (p in probing <==> ps[p].number >= r)
        invariant TokensMatch() && old(retired) <= retired
        invariant forall n :: Known(n) == old(Known(n))
        decreases todo
      {
        var p :| p in todo;
        var entry := probing[p];
        if entry.number < r {
          DropPathTokens(registered, active.token, probing, p);
          forall n {
            DropPathCount(active.number, queue, probing, retired, p, n);
          }
          PlusGrows(retired, entry.number);
          retired := Plus(retired, entry.number);
          registered := Minus(registered, entry.token);
          probing := probing - {p};
        }
        todo := todo - {p};
      }
    }

    /** The second loop of add: gives up queued connection IDs that are below r. */
    method RetireQueue(r: nat)
      requires Increasing(queue)
      modifies this`queue, this`retired
      ensures Increasing(queue) && forall x :: x in queue <==> x in old(queue) && x.number >= r
      ensures old(retired) <= retired
      ensures forall n :: Known(n) == old(Known(n))
    {
      hide Queued, PathsWith, Increasing, Kept;
      var newQueue := [];
      var i := 0;
      NothingQueued();
      KeptNone(r);
      while i < |queue|
        modifies this`retired
        invariant i <= |queue| && old(retired) <= retired && Kept(queue[..i], newQueue, r)
        invariant forall n :: Queued(newQueue, n) + retired[n] == Queued(queue[..i], n) + old(retired)[n]
      {
        var entry := queue[i];
        KeptMore(queue, i, newQueue, r);
        forall n
          ensures Queued(queue[..i + 1], n) == Queued(queue[..i], n) + Is(entry.number, n)
          ensures Queued(newQueue + [entry], n) == Queued(newQueue, n) + Is(entry.number, n)
        {
          QueuedSnoc(queue, i, newQueue, n);
        }
        if entry.number >= r {
          newQueue := newQueue + [entry];
        } else {
          retired := Plus(retired, entry.number);
        }
        i := i + 1;
      }
      assert queue[..i] == queue;
      KeptAll(queue, newQueue, r);
      queue := newQueue;
    }

    /** The frame was overtaken: its number is below one that is in use, probed or retired. */
    ghost predicate Stale(f: NewConnIdFrame)
      reads this
    {
      f.number < Max(active.number, highestProbing) || f.number < highestRetired
    }

    /** The frame brings a number that is neither active nor queued. */
    ghost predicate Fresh(f: NewConnIdFrame)
      reads this
    {
      f.number != active.number && Queued(queue, f.number) == 0
    }

    /** Nothing below r is active, queued or held by a path. */
    ghost predicate NothingBelow(r: nat)
      reads this
    {
      && r <= active.number
      && (forall i :: 0 <= i < |queue| ==> r <= queue[i].number)
      && (forall p :: p in probing ==> r <= probing[p].number)
    }

    /** No connection ID that is in use or queued has length zero. */
    ghost predicate NonZero()
      reads this
    {
      active.id.len > 0 && forall x :: x in queue ==> x.id.len > 0
    }

    /** Both loops of add: gives up everything below r but the active connection ID. */
    method RetireBelow(r: nat)
      requires Ordered() && TokensMatch()
      modifies this`queue, this`probing, this`highestRetired, this`retired, this`registered
      ensures Ordered() && TokensMatch() && highestRetired == Max(old(highestRetired), r) && old(retired) <= retired
      ensures r == 0 ==> retired == old(retired) && probing == old(probing)
      ensures probing == KeepPaths(old(probing), r)
      ensures forall x :: x in queue <==> x in old(queue) && r <= x.number
      ensures forall n :: Known(n) == old(Known(n))
    {
      hide Count, TokensOk;
      if r != 0 {
        RetirePaths(r);
      } else {
        KeepAll(probing);
      }
      if r > highestRetired {
        RetireQueue(r);
        highestRetired := r;
      }
    }

    /** The end of add: the new connection ID is queued, and activated if the active one has to go. */
    method Enqueue(f: NewConnIdFrame, jitter: nat) returns (ok: bool)
      requires Ordered() && TokensMatch() && !closed && jitter < PACKETS_PER_CONNECTION_ID
      requires active.number < f.number && highestProbing <= f.number && highestRetired <= f.number
      requires highestRetired <= Max(active.number, f.retirePriorTo) && f.retirePriorTo <= f.number
      requires forall x :: x in queue ==> f.retirePriorTo <= x.number
      modifies this`queue, this`active, this`highestRetired, this`retired, this`registered, this`packets
      ensures !ok <==> exists x :: x in old(queue) && x.number == f.number && x != Entry(f)
      ensures !ok ==> retired == old(retired) && active == old(active) && old(Queued(queue, f.number)) > 0
      ensures ok ==> Valid() && f.retirePriorTo <= active.number && old(retired) <= retired
      ensures ok ==> forall x :: x in queue ==> x in old(queue) || x == Entry(f)
      ensures ok ==> forall x :: x in old(queue) || x == Entry(f) ==> x in queue || active == Activated(x)
      ensures ok && old(active.number) >= f.retirePriorTo ==>
              active == old(active) && retired == old(retired) && packets == old(packets)
      ensures ok && old(active.number) < f.retirePriorTo ==>
              exists x :: (x in old(queue) || x == Entry(f)) && active == Activated(x)
      ensures ok ==> forall n :: Known(n) == old(Known(n)) + if old(Queued(queue, f.number)) > 0 then 0 else Is(f.number, n)
    {
      hide Count, OrderOk, TokensOk, Plus, Queued;
      ghost var q := queue;
      OrderAt(queue, active.number, highestProbing, highestRetired, probing);
      QueuedIn(queue, f.number);
      ok := AddConnectionId(f.number, f.id, f.token);
      if !ok {
        return;
      }
      AddOrder(q, queue, Entry(f), active.number, highestProbing, highestRetired, probing);
      forall n
        ensures Count(active.number, queue, probing, retired, n)
             == Count(active.number, q, probing, retired, n) + Queued(queue, n) - Queued(q, n)
      {
        AddCount(q, queue, active.number, probing, retired, n);
      }
      assert Entry(f) in queue;
      // The queue is not empty here.
      if active.number < f.retirePriorTo {
        ghost var front := queue[0];
        UpdateConnectionId(jitter);
        assert (front in q || front == Entry(f)) && active == Activated(front);
        OrderAt(queue, active.number, highestProbing, highestRetired, probing);
      }
    }

    /** add, behind the two early tests: a frame that is not stale. */
    method AddNew(f: NewConnIdFrame, jitter: nat) returns (ok: bool)
      requires Valid() && !Stale(f) && f.retirePriorTo <= f.number && jitter < PACKETS_PER_CONNECTION_ID
      modifies this`queue, this`probing, this`active, this`highestRetired, this`retired, this`registered, this`packets
      ensures !ok <==> old(Conflicting(f))
      ensures !ok ==> old(Queued(queue, f.number)) > 0
      ensures ok ==> Valid() && NothingBelow(f.retirePriorTo) && probing == KeepPaths(old(probing), f.retirePriorTo)
      ensures ok ==> forall x :: x in queue ==> x in old(queue) || (x == Entry(f) && f.number != old(active.number))
      ensures ok ==> forall x :: (x in old(queue) && f.retirePriorTo <= x.number) || (x == Entry(f) && f.number != old(active.number)) ==>
                       x in queue || active == Activated(x)
      ensures ok && f.retirePriorTo <= old(active.number) ==> active == old(active) && packets == old(packets)
      ensures ok && old(active.number) < f.retirePriorTo ==>
              exists x :: (x in old(queue) || x == Entry(f)) && active == Activated(x)
      ensures ok ==> forall n :: Known(n) == old(Known(n)) + if old(Fresh(f)) then Is(f.number, n) else 0
      ensures ok && old(NonZero()) && f.id.len > 0 ==> NonZero()
      ensures old(retired) <= retired
      ensures f.retirePriorTo == 0 ==> active == old(active) && retired == old(retired) && probing == old(probing)
    {
      hide Count, OrderOk, TokensOk, Plus, Queued;
      ghost var q := queue;
      RetireBelow(f.retirePriorTo);
      OrderAt(queue, active.number, highestProbing, highestRetired, probing);
      SameQueued(q, queue, f.number);
      if f.number == active.number {
        return true;
      }
      ok := Enqueue(f, jitter);
    }

    /** Add: handles a NEW_CONNECTION_ID frame. */
    method Add(f: NewConnIdFrame, jitter: nat) returns (r: AddResult)
      requires Valid() && f.retirePriorTo <= f.number && jitter < PACKETS_PER_CONNECTION_ID
      modifies this`queue, this`probing, this`active, this`highestRetired, this`retired, this`registered, this`packets
      ensures r == ZeroLength <==> old(active.id.len) == 0
      ensures r == LimitExceeded ==> MAX_ACTIVE_CONNECTION_IDS <= |queue|
      ensures r == Ok ==> |queue| < MAX_ACTIVE_CONNECTION_IDS
      ensures r == Conflict <==> r != ZeroLength && !old(Stale(f)) && old(Conflicting(f))
      ensures r == Conflict ==> old(Queued(queue, f.number)) > 0
      ensures r == Ok || r == LimitExceeded ==> Valid()
      ensures (r == Ok || r == LimitExceeded) && old(Stale(f)) ==>
              && retired == Plus(old(retired), f.number) && active == old(active) && queue == old(queue)
              && packets == old(packets)
              && probing == old(probing) && highestRetired == old(highestRetired)
      ensures (r == Ok || r == LimitExceeded) && !old(Stale(f)) ==>
              && NothingBelow(f.retirePriorTo) && probing == KeepPaths(old(probing), f.retirePriorTo)
              && (forall x :: x in queue ==> x in old(queue) || (x == Entry(f) && f.number != old(active.number)))
              && (forall x | (x in old(queue) && f.retirePriorTo <= x.number) || (x == Entry(f) && f.number != old(active.number)) ::
                    x in queue || active == Activated(x))
              && if f.retirePriorTo <= old(active.number) then active == old(active) && packets == old(packets)
                 else exists x :: (x in old(queue) || x == Entry(f)) && active == Activated(x)
      ensures r == Ok || r == LimitExceeded ==>
              forall n :: Known(n) == old(Known(n)) + if old(Stale(f)) || old(Fresh(f)) then Is(f.number, n) else 0
      ensures (r == Ok || r == LimitExceeded) && old(NonZero()) && f.id.len > 0 ==> NonZero()
      ensures old(retired) <= retired
      ensures f.retirePriorTo == 0 ==>
              && active == old(active) && probing == old(probing)
              && (!old(Stale(f)) ==> retired == old(retired))
    {
      hide OrderOk, TokensOk, Queued, PathsWith;
      if active.id.len == 0 {
        return ZeroLength;
      }
      if f.number < Max(active.number, highestProbing) || f.number < highestRetired {
        retired := Plus(retired, f.number);
      } else {
        var ok := AddNew(f, jitter);
        if !ok {
          return Conflict;
        }
      }
      if |queue| >= MAX_ACTIVE_CONNECTION_IDS {
        return LimitExceeded;
      }
      return Ok;
    }

    predicate ShouldUpdate()
      reads this
    {
      ChangeDue(handshakeComplete, |queue|, active.number, packets)
    }

    /** Get: the connection ID to send with, after a change if one is due. */
    method Get(jitter: nat) returns (id: ConnId)
      requires Valid() && jitter < PACKETS_PER_CONNECTION_ID
      modifies this`queue, this`active, this`highestRetired, this`retired, this`registered, this`packets
      ensures Valid() && id == active.id
      ensures if old(ShouldUpdate())
              then && old(queue) != [] && queue == old(queue)[1..] && retired == Plus(old(retired), old(active.number))
                   && active == ActiveId(old(queue)[0].number, old(queue)[0].id, Some(old(queue)[0].token))
                   && packets == Packets(0, PACKETS_PER_CONNECTION_ID / 2 + jitter)
              else queue == old(queue) && retired == old(retired) && active == old(active) && packets == old(packets)
      ensures forall n :: Known(n) == old(Known(n))
      ensures old(active.number) <= active.number
      ensures old(NonZero()) ==> NonZero()
      ensures old(retired) <= retired
    {
      hide OrderOk, TokensOk, Count;
      if ShouldUpdate() {
        OrderAt(queue, active.number, highestProbing, highestRetired, probing);
        UpdateConnectionId(jitter);
      }
      return active.id;
    }

    /** GetConnIDForPath: the connection ID of a path; a new path takes the first one of the queue. */
    method GetConnIdForPath(path: PathId) returns (id: Option<ConnId>)
      requires Valid()
      modifies this`queue, this`probing, this`highestProbing, this`registered
      ensures Valid()
      ensures old(active.id.len) == 0 ==> id == Some(ConnId(0, 0)) && probing == old(probing) && queue == old(queue)
      ensures active.id.len != 0 ==>
              if path in old(probing) then id == Some(old(probing)[path].id) && probing == old(probing) && queue == old(queue)
              else if old(queue) == [] then id == None && probing == old(probing) && queue == []
              else && id == Some(old(queue)[0].id) && probing == old(probing)[path := old(queue)[0]]
                   && queue == old(queue)[1..] && highestProbing == old(queue)[0].number
      ensures probing == old(probing) ==> highestProbing == old(highestProbing)
      ensures forall n :: Known(n) == old(Known(n))
    {
      hide OrderOk, TokensOk, Count, Plus;
      if active.id.len == 0 {
        return Some(ConnId(0, 0));
      }
      if path in probing {
        return Some(probing[path].id);
      }
      if |queue| == 0 {
        return None;
      }
      var front := queue[0];
      ProbeOrder(queue, active.number, highestProbing, highestRetired, probing, path);
      ProbeTokens(registered, active.token, probing, path, front);
      forall n {
        ProbeCount(active.number, queue, probing, retired, path, n);
      }
      queue := queue[1..];
      probing := probing[path := front];
      highestProbing := front.number;
      registered := Plus(registered, front.token);
      return Some(front.id);
    }

    /** RetireConnIDForPath: gives up the connection ID of a path. */
    method RetireConnIdForPath(path: PathId)
      requires Valid()
      modifies this`probing, this`retired, this`registered
      ensures Valid()
      ensures if active.id.len != 0 && path in old(probing)
              then probing == old(probing) - {path} && retired == Plus(old(retired), old(probing)[path].number)
              else probing == old(probing) && retired == old(retired)
      ensures forall n :: Known(n) == old(Known(n))
    {
      hide TokensOk, Count, Plus, Minus;
      if active.id.len == 0 || path !in probing {
        return;
      }
      var entry := probing[path];
      DropPathTokens(registered, active.token, probing, path);
      forall n {
        DropPathCount(active.number, queue, probing, retired, path, n);
      }
      retired := Plus(retired, entry.number);
      registered := Minus(registered, entry.token);
      probing := probing - {path};
    }

    method SentPacket()
      requires Valid()
      modifies this`packets
      ensures Valid() && packets == old(packets).(sinceLastChange := old(packets).sinceLastChange + 1)
    {
      packets := packets.(sinceLastChange := packets.sinceLastChange + 1);
    }

    method SetHandshakeComplete()
      requires Valid()
      modifies this`handshakeComplete
      ensures Valid() && handshakeComplete
    {
      handshakeComplete := true;
    }

    /**
     * SetStatelessResetToken: the token of the first connection ID, from the transport parameters. A token that was
     * set before stays registered.
     */
    method SetStatelessResetToken(token: Token)
      requires Valid() && active.number == 0
      modifies this`active, this`registered
      ensures active == old(active).(token := Some(token)) && registered == Plus(old(registered), token)
      ensures Valid() <==> old(active.token) == None
      ensures forall n :: Known(n) == old(Known(n))
    {
      SetToken(registered, active.token, token, probing);
      active := active.(token := Some(token));
      registered := Plus(registered, token);
    }

    /** Close: no token stays registered. */
    method Close()
      requires Valid()
      modifies this`closed, this`registered
      ensures closed && registered == multiset{}
    {
      hide TokensOk, Minus, Unregister;
      DropActiveToken(registered, active.token, probing);
      closed := true;
      registered := Unregister(registered, active.token);
      var todo := probing.Keys;
      ghost var left := probing;
      while todo != {}
        modifies this`registered
        invariant left.Keys == todo <= probing.Keys && (forall p :: p in left ==> left[p] == probing[p])
        invariant TokensOk(registered, None, left)
        decreases todo
      {
        var p :| p in todo;
        DropPathTokens(registered, None, left, p);
        registered := Minus(registered, probing[p].token);
        todo := todo - {p};
        left := left - {p};
      }
      assert left == map[];
      NoTokens(registered);
    }
  }

  lemma SetToken(registered: multiset<Token>, active: Option<Token>, token: Token, ps: Paths)
    requires TokensOk(registered, active, ps)
    ensures TokensOk(Plus(registered, token), Some(token), ps) <==> active == None
  {
    if active != None {
      assert Plus(registered, token)[active.value] != IsToken(Some(token), active.value) + |PathsWithToken(ps, active.value)|;
    }
  }

  lemma DropActiveToken(registered: multiset<Token>, active: Option<Token>, ps: Paths)
    requires TokensOk(registered, active, ps)
    ensures TokensOk(Unregister(registered, active), None, ps)
  {
  }

  lemma NoTokens(registered: multiset<Token>)
    requires TokensOk(registered, None, map[])
    ensures registered == multiset{}
  {
    forall t
      ensures registered[t] == 0
    {
      assert PathsWithToken(map[], t) == {};
    }
  }

  lemma ProbeOrder(q: Queue, active: nat, highestProbing: nat, highestRetired: nat, ps: Paths, path: PathId)
    requires OrderOk(q, active, highestProbing, highestRetired, ps) && q != []
    ensures highestProbing <= q[0].number
    ensures OrderOk(q[1..], active, q[0].number, highestRetired, ps[path := q[0]])
  {
  }

  lemma ProbeTokens(registered: multiset<Token>, active: Option<Token>, ps: Paths, path: PathId, x: NewConnId)
    requires TokensOk(registered, active, ps) && path !in ps
    ensures TokensOk(Plus(registered, x.token), active, ps[path := x])
  {
    forall t {
      PathTokenAdd(ps, path, x, t);
    }
  }

  lemma ProbeCount(active: nat, q: Queue, ps: Paths, retired: multiset<nat>, path: PathId, n: nat)
    requires q != [] && path !in ps
    ensures Count(active, q[1..], ps[path := q[0]], retired, n) == Count(active, q, ps, retired, n)
  {
    QueuedFront(q, n);
    PathAdd(ps, path, q[0], n);
  }

  lemma KeepAll(ps: Paths)
    ensures KeepPaths(ps, 0) == ps
  {
  }

  lemma OrderAt(q: Queue, active: nat, highestProbing: nat, highestRetired: nat, ps: Paths)
    requires OrderOk(q, active, highestProbing, highestRetired, ps)
    ensures Increasing(q) && forall i :: 0 <= i < |q| ==> active < q[i].number && highestRetired <= q[i].number
  {
  }

  /** Giving up lower numbers does not change whether number m is queued. */
  lemma SameQueued(q: Queue, q': Queue, m: nat)
    requires forall x :: x in q && m == x.number ==> x in q'
    requires forall x :: x in q' ==> x in q
    ensures Queued(q, m) > 0 <==> Queued(q', m) > 0
  {
    QueuedIn(q, m);
    QueuedIn(q', m);
    if Queued(q, m) > 0 {
      var i :| 0 <= i < |q| && q[i].number == m;
      assert q[i] in q';
    }
    if Queued(q', m) > 0 {
      var i :| 0 <= i < |q'| && q'[i].number == m;
      assert q'[i] in q;
    }
  }

  lemma AddOrder(q: Queue, q': Queue, x: NewConnId, active: nat, highestProbing: nat, highestRetired: nat, ps: Paths)
    requires OrderOk(q, active, highestProbing, highestRetired, ps) && Increasing(q')
    requires active < x.number && highestProbing <= x.number && highestRetired <= x.number
    requires forall y :: y in q' ==> y in q || y == x
    ensures OrderOk(q', active, highestProbing, highestRetired, ps)
  {
    forall i | 0 <= i < |q'|
      ensures active < q'[i].number && Max(highestProbing, highestRetired) <= q'[i].number
    {
      assert q'[i] in q || q'[i] == x;
    }
  }

  lemma AddCount(q: Queue, q': Queue, active: nat, ps: Paths, retired: multiset<nat>, n: nat)
    ensures Count(active, q', ps, retired, n) == Count(active, q, ps, retired, n) + Queued(q', n) - Queued(q, n)
  {
  }

  lemma NothingQueued()
    ensures forall n :: Queued([], n) == 0
  {
  }

  lemma DropPathTokens(registered: multiset<Token>, active: Option<Token>, ps: Paths, p: PathId)
    requires p in ps && TokensOk(registered, active, ps)
    ensures TokensOk(Minus(registered, ps[p].token), active, ps - {p})
  {
    forall t {
      PathTokenRemove(ps, p, t);
    }
  }

  lemma DropPathCount(active: nat, q: Queue, ps: Paths, retired: multiset<nat>, p: PathId, n: nat)
    requires p in ps
    ensures Count(active, q, ps - {p}, Plus(retired, ps[p].number), n) == Count(active, q, ps, retired, n)
  {
    PathRemove(ps, p, n);
  }

  /** Two tokens for the first connection ID: both stay registered. */
  method SecondToken(first: ConnId, a: Token, b: Token) returns (m: ConnIdManager)
    ensures !m.Valid() && m.active.token == Some(b) && m.registered == multiset{a, b}
  {
    m := new ConnIdManager(first);
    m.SetStatelessResetToken(a);
    m.SetStatelessResetToken(b);
  }
}
