/** Our own connection IDs: issuing, replacing and retiring (quicfork/conn_id_generator.go). */
module ConnIdGeneration {
  import opened Protocol
  import opened ConnIdManagement

  const MAX_ISSUED_CONNECTION_IDS: nat := 6

  /** A retired connection ID, kept until time t. */
  datatype ToRetire = ToRetire(t: int, id: ConnId)

  datatype RetireResult = Retired | Violation | NoNewId

  // ---------------------------------------------------------------------------
  // Counting registered IDs
  // ---------------------------------------------------------------------------

  ghost function NumbersWith(m: map<nat, ConnId>, id: ConnId): set<nat> {
    set n | n in m && m[n] == id
  }

  ghost function Ids(l: seq<ToRetire>): seq<ConnId> {
    seq(|l|, i requires 0 <= i < |l| => l[i].id)
  }

  ghost function Same(o: Option<ConnId>, id: ConnId): nat {
    if o == Some(id) then 1 else 0
  }

  /** How often an ID is active, waits for its removal, or is the client's first choice. */
  ghost function Uses(m: map<nat, ConnId>, l: seq<ToRetire>, initial: Option<ConnId>, id: ConnId): nat {
    |NumbersWith(m, id)| + multiset(Ids(l))[id] + Same(initial, id)
  }

  /** The runner knows exactly the IDs that are in use. */
  ghost predicate RegisteredOk(runner: multiset<ConnId>, m: map<nat, ConnId>, l: seq<ToRetire>, initial: Option<ConnId>) {
    forall id :: runner[id] == Uses(m, l, initial, id)
  }

  /** c was put somewhere into l. */
  ghost predicate Inserted(l: seq<ToRetire>, l': seq<ToRetire>, c: ToRetire) {
    exists i :: 0 <= i <= |l| && l' == l[..i] + [c] + l[i..]
  }

  lemma NumberRemove(m: map<nat, ConnId>, n: nat, id: ConnId)
    requires n in m
    ensures |NumbersWith(m, id)| == |NumbersWith(m - {n}, id)| + Same(Some(m[n]), id)
  {
    if m[n] == id {
      assert NumbersWith(m, id) == NumbersWith(m - {n}, id) + {n};
    } else {
      assert NumbersWith(m, id) == NumbersWith(m - {n}, id);
    }
  }

  lemma NumberAdd(m: map<nat, ConnId>, n: nat, x: ConnId, id: ConnId)
    requires n !in m
    ensures |NumbersWith(m[n := x], id)| == |NumbersWith(m, id)| + Same(Some(x), id)
  {
    assert m[n := x] - {n} == m;
    NumberRemove(m[n := x], n, id);
  }

  lemma IdsInsert(l: seq<ToRetire>, i: nat, c: ToRetire, id: ConnId)
    requires i <= |l|
    ensures multiset(Ids(l[..i] + [c] + l[i..]))[id] == multiset(Ids(l))[id] + Same(Some(c.id), id)
  {
    assert Ids(l[..i] + [c] + l[i..]) == Ids(l[..i]) + [c.id] + Ids(l[i..]);
    assert Ids(l) == Ids(l[..i]) + Ids(l[i..]);
  }

  lemma IdsFront(l: seq<ToRetire>, id: ConnId)
    requires l != []
    ensures multiset(Ids(l))[id] == multiset(Ids(l[1..]))[id] + Same(Some(l[0].id), id)
  {
    assert l[..0] + [l[0]] + l[1..] == l;
    assert l[1..][..0] + [l[0]] + l[1..][0..] == l;
    IdsInsert(l[1..], 0, l[0], id);
  }

  // ---------------------------------------------------------------------------
  // Steps on the registration
  // ---------------------------------------------------------------------------

  lemma IssueRegistered(runner: multiset<ConnId>, m: map<nat, ConnId>, l: seq<ToRetire>, initial: Option<ConnId>, n: nat, x: ConnId)
    requires RegisteredOk(runner, m, l, initial) && n !in m
    ensures RegisteredOk(Plus(runner, x), m[n := x], l, initial)
  {
    forall id
      ensures Plus(runner, x)[id] == Uses(m[n := x], l, initial, id)
    {
      NumberAdd(m, n, x, id);
    }
  }

  lemma QueueRegistered(runner: multiset<ConnId>, m: map<nat, ConnId>, l: seq<ToRetire>, initial: Option<ConnId>, n: nat, i: nat, t: int)
    requires RegisteredOk(runner, m, l, initial) && n in m && i <= |l|
    ensures RegisteredOk(runner, m - {n}, l[..i] + [ToRetire(t, m[n])] + l[i..], initial)
  {
    forall id
      ensures runner[id] == Uses(m - {n}, l[..i] + [ToRetire(t, m[n])] + l[i..], initial, id)
    {
      NumberRemove(m, n, id);
      IdsInsert(l, i, ToRetire(t, m[n]), id);
    }
  }

  lemma InitialRegistered(runner: multiset<ConnId>, m: map<nat, ConnId>, l: seq<ToRetire>, x: ConnId, i: nat, t: int)
    requires RegisteredOk(runner, m, l, Some(x)) && i <= |l|
    ensures RegisteredOk(runner, m, l[..i] + [ToRetire(t, x)] + l[i..], None)
  {
    forall id
      ensures runner[id] == Uses(m, l[..i] + [ToRetire(t, x)] + l[i..], None, id)
    {
      IdsInsert(l, i, ToRetire(t, x), id);
    }
  }

  lemma CleanRegistered(runner: multiset<ConnId>, m: map<nat, ConnId>, l: seq<ToRetire>, initial: Option<ConnId>)
    requires RegisteredOk(runner, m, l, initial) && l != []
    ensures RegisteredOk(Minus(runner, l[0].id), m, l[1..], initial)
  {
    forall id
      ensures Minus(runner, l[0].id)[id] == Uses(m, l[1..], initial, id)
    {
      IdsFront(l, id);
    }
  }

  lemma DropRegistered(runner: multiset<ConnId>, m: map<nat, ConnId>, l: seq<ToRetire>, initial: Option<ConnId>, n: nat)
    requires RegisteredOk(runner, m, l, initial) && n in m
    ensures RegisteredOk(Minus(runner, m[n]), m - {n}, l, initial)
  {
    forall id
      ensures Minus(runner, m[n])[id] == Uses(m - {n}, l, initial, id)
    {
      NumberRemove(m, n, id);
    }
  }

  ghost predicate SortedByTime(l: seq<ToRetire>) {
    forall i, j :: 0 <= i < j < |l| ==> l[i].t <= l[j].t
  }

  /** Frame i announces number i + 1, and never asks for retirement. */
  ghost predicate FramesOk(frames: seq<NewConnIdFrame>, idLen: nat, tokenOf: ConnId -> Token) {
    forall i :: 0 <= i < |frames| ==>
      && frames[i].number == i + 1 && frames[i].retirePriorTo == 0
      && frames[i].id.len == idLen && frames[i].token == tokenOf(frames[i].id)
  }

  /** What was issued: every active number but the first has the ID of its frame. */
  ghost predicate IssuedOk(frames: seq<NewConnIdFrame>, active: map<nat, ConnId>, idLen: nat, tokenOf: ConnId -> Token) {
    && FramesOk(frames, idLen, tokenOf)
    && forall n :: n in active ==> n <= |frames| && (n > 0 ==> active[n] == frames[n - 1].id)
  }

  lemma IssueMore(frames: seq<NewConnIdFrame>, active: map<nat, ConnId>, idLen: nat, tokenOf: ConnId -> Token, id: ConnId)
    requires IssuedOk(frames, active, idLen, tokenOf) && id.len == idLen
    ensures var n := |frames| + 1;
      && n !in active && |active[n := id]| == |active| + 1
      && IssuedOk(frames + [NewConnIdFrame(n, 0, id, tokenOf(id))], active[n := id], idLen, tokenOf)
  {
    var n := |frames| + 1;
    assert active[n := id].Keys == active.Keys + {n};
    assert |active.Keys + {n}| == |active.Keys| + 1;
  }

  /** Nothing that was issued is lost, and what was issued since is active. */
  ghost predicate Extends(frames: seq<NewConnIdFrame>, active: map<nat, ConnId>, frames': seq<NewConnIdFrame>, active': map<nat, ConnId>) {
    && frames <= frames' && active.Keys <= active'.Keys
    && (forall n :: n in active ==> active'[n] == active[n])
    && (forall n :: |frames| < n <= |frames'| ==> n in active')
  }

  /** One more ID was issued. */
  ghost predicate OneMore(frames: seq<NewConnIdFrame>, active: map<nat, ConnId>, frames': seq<NewConnIdFrame>, active': map<nat, ConnId>) {
    |frames'| == |frames| + 1 && frames <= frames' && active' == active[|frames'| := frames'[|frames|].id]
  }

  lemma ExtendMore(frames: seq<NewConnIdFrame>, active: map<nat, ConnId>, frames': seq<NewConnIdFrame>, active': map<nat, ConnId>,
                   f: NewConnIdFrame, id: ConnId)
    requires Extends(frames, active, frames', active') && |frames'| + 1 !in active'
    ensures Extends(frames, active, frames' + [f], active'[|frames'| + 1 := id])
  {
  }

  lemma IssueLess(frames: seq<NewConnIdFrame>, active: map<nat, ConnId>, idLen: nat, tokenOf: ConnId -> Token, n: nat)
    requires IssuedOk(frames, active, idLen, tokenOf) && n in active
    ensures IssuedOk(frames, active - {n}, idLen, tokenOf) && |active - {n}| == |active| - 1
  {
    assert (active - {n}).Keys == active.Keys - {n};
    assert |active.Keys - {n}| == |active.Keys| - 1;
  }

  class ConnIdGenerator {
    /** The outcome of the k-th call of the ID generator, and the length of its IDs. */
    const generate: nat -> Option<ConnId>
    const idLen: nat
    const tokenOf: ConnId -> Token

    var generated: nat
    var active: map<nat, ConnId>
    var toRetire: seq<ToRetire>
    var initialDest: Option<ConnId>
    /** All NEW_CONNECTION_ID frames that were queued. */
    var frames: seq<NewConnIdFrame>
    /** The IDs registered with the connection runner. */
    var runner: multiset<ConnId>
    var highestSeq: nat

    ghost predicate Valid()
      reads this
    {
      && (forall k :: generate(k).Some? ==> generate(k).value.len == idLen)
      && IssuedOk(frames, active, idLen, tokenOf) && |frames| == highestSeq
      && SortedByTime(toRetire)
      && RegisteredOk(runner, active, toRetire, initialDest)
    }

    constructor (generate: nat -> Option<ConnId>, idLen: nat, tokenOf: ConnId -> Token, first: ConnId, initialDest: Option<ConnId>)
      requires forall k :: generate(k).Some? ==> generate(k).value.len == idLen
      ensures Valid() && active == map[0 := first] && frames == [] && this.initialDest == initialDest
      ensures this.idLen == idLen && this.generate == generate && this.tokenOf == tokenOf
    {
      this.generate, this.idLen, this.tokenOf := generate, idLen, tokenOf;
      generated, highestSeq, active, toRetire := 0, 0, map[0 := first], [];
      this.initialDest, frames := initialDest, [];
      // both are registered before the generator is created
      runner := if initialDest.Some? then multiset{first, initialDest.value} else multiset{first};
      new;
      forall id
        ensures runner[id] == Uses(active, toRetire, initialDest, id)
      {
        assert map[0 := first] - {0} == map[];
        assert NumbersWith(map[], id) == {};
        NumberRemove(active, 0, id);
        assert Ids([]) == [];
      }
    }

    /** issueNewConnID: the next number gets the next ID. */
    method IssueNewConnId() returns (ok: bool)
      requires Valid()
      modifies this`generated, this`active, this`runner, this`frames, this`highestSeq
      ensures Valid()
      ensures ok <==> generate(old(generated)).Some?
      ensures ok ==> var id := generate(old(generated)).value;
                     && highestSeq == old(highestSeq) + 1 && highestSeq !in old(active)
                     && frames == old(frames) + [NewConnIdFrame(highestSeq, 0, id, tokenOf(id))]
                     && active == old(active)[highestSeq := id] && |active| == old(|active|) + 1
      ensures !ok ==> active == old(active) && frames == old(frames) && highestSeq == old(highestSeq)
    {
      hide RegisteredOk, IssuedOk, SortedByTime, Plus;
      var id := generate(generated);
      generated := generated + 1;
      if id.None? {
        return false;
      }
      IssueMore(frames, active, idLen, tokenOf, id.value);
      IssueRegistered(runner, active, toRetire, initialDest, highestSeq + 1, id.value);
      active := active[highestSeq + 1 := id.value];
      runner := Plus(runner, id.value);
      frames := frames + [NewConnIdFrame(highestSeq + 1, 0, id.value, tokenOf(id.value))];
      highestSeq := highestSeq + 1;
      return true;
    }

    /** SetMaxActiveConnIDs: issues IDs until the peer's limit (or our own) is reached. */
    method SetMaxActiveConnIds(limit: nat) returns (ok: bool)
      requires Valid()
      modifies this`generated, this`active, this`runner, this`frames, this`highestSeq
      ensures Valid()
      ensures old(highestSeq) <= highestSeq && Extends(old(frames), old(active), frames, active)
      ensures |active| <= Max(old(|active|), Min(limit, MAX_ISSUED_CONNECTION_IDS))
      ensures ok && idLen != 0 ==> |active| >= Min(limit, MAX_ISSUED_CONNECTION_IDS)
      ensures (forall k :: generate(k).Some?) ==> ok
      ensures idLen == 0 ==> active == old(active) && highestSeq == old(highestSeq)
    {
      hide Valid;
      if idLen == 0 {
        return true;
      }
      var i := |active|;
      while i < Min(limit, MAX_ISSUED_CONNECTION_IDS)
        invariant Valid() && i == |active| && old(highestSeq) <= highestSeq
        invariant i <= Max(old(|active|), Min(limit, MAX_ISSUED_CONNECTION_IDS))
        invariant Extends(old(frames), old(active), frames, active)
      {
        hide Extends;
        ghost var f, a := frames, active;
        var issued := IssueNewConnId();
        if !issued {
          return false;
        }
        NumberIsNext();
        ExtendMore(old(frames), old(active), f, a, frames[|f|], active[highestSeq]);
        i := i + 1;
      }
      return true;
    }

    lemma NumberIsNext()
      requires Valid()
      ensures |frames| == highestSeq
    {
    }

    /** Where queueConnIDForRetiring inserts: behind all entries that expire no later. */
    method RetirePosition(expiry: int) returns (i: nat)
      requires SortedByTime(toRetire)
      ensures i <= |toRetire|
      ensures forall k :: 0 <= k < i ==> toRetire[k].t <= expiry
      ensures forall k :: i <= k < |toRetire| ==> expiry < toRetire[k].t
    {
      i := 0;
      while i < |toRetire| && !(toRetire[i].t > expiry)
        invariant i <= |toRetire|
        invariant forall k :: 0 <= k < i ==> toRetire[k].t <= expiry
      {
        i := i + 1;
      }
    }

    /** Retire: handles a RETIRE_CONNECTION_ID frame. All but the first ID are replaced. */
    method Retire(number: nat, sentWith: ConnId, expiry: int) returns (r: RetireResult)
      requires Valid()
      modifies this`generated, this`active, this`runner, this`frames, this`highestSeq, this`toRetire
      ensures Valid()
      ensures r == Violation <==>
              number > old(highestSeq) || (number in old(active) && old(active)[number] == sentWith)
      ensures r == Violation || number !in old(active) ==>
              active == old(active) && frames == old(frames) && highestSeq == old(highestSeq) && toRetire == old(toRetire)
      ensures r != Violation && number in old(active) ==>
              if r == Retired && number != 0
              then && highestSeq == old(highestSeq) + 1 && |active| == old(|active|)
                   && OneMore(old(frames), old(active) - {number}, frames, active)
              else && highestSeq == old(highestSeq) && frames == old(frames)
                   && active == old(active) - {number} && |active| == old(|active|) - 1
      ensures r != Violation && number in old(active) ==>
              Inserted(old(toRetire), toRetire, ToRetire(expiry, old(active)[number]))
      ensures r == NoNewId ==> number in old(active) && number != 0 && !forall k :: generate(k).Some?
      ensures forall n :: n in old(active) && n in active ==> active[n] == old(active)[n]
    {
      hide RegisteredOk, IssuedOk;
      if number > highestSeq {
        return Violation;
      }
      if number !in active {
        return Retired;
      }
      if active[number] == sentWith {
        return Violation;
      }
      var i := RetirePosition(expiry);
      QueueRegistered(runner, active, toRetire, initialDest, number, i, expiry);
      toRetire := toRetire[..i] + [ToRetire(expiry, active[number])] + toRetire[i..];
      IssueLess(frames, active, idLen, tokenOf, number);
      active := active - {number};
      if number == 0 {
        return Retired;
      }
      var ok := IssueNewConnId();
      return if ok then Retired else NoNewId;
    }

    /** SetHandshakeComplete: the client's first choice of ID is retired. */
    method SetHandshakeComplete(expiry: int)
      requires Valid()
      modifies this`toRetire, this`initialDest
      ensures Valid() && initialDest == None
      ensures if old(initialDest).None? then toRetire == old(toRetire)
              else Inserted(old(toRetire), toRetire, ToRetire(expiry, old(initialDest).value))
    {
      hide RegisteredOk, IssuedOk;
      if initialDest.Some? {
        var i := RetirePosition(expiry);
        InitialRegistered(runner, active, toRetire, initialDest.value, i, expiry);
        toRetire := toRetire[..i] + [ToRetire(expiry, initialDest.value)] + toRetire[i..];
        initialDest := None;
      }
    }

    /** RemoveRetiredConnIDs: removes exactly the IDs that expired by now. */
    method RemoveRetiredConnIds(now: int)
      requires Valid()
      modifies this`toRetire, this`runner
      ensures Valid()
      ensures exists k :: 0 <= k <= |old(toRetire)| && toRetire == old(toRetire)[k..] &&
                          (forall i :: 0 <= i < k ==> old(toRetire)[i].t <= now)
      ensures forall i :: 0 <= i < |toRetire| ==> now < toRetire[i].t
    {
      hide RegisteredOk, IssuedOk, Minus;
      ghost var l := toRetire;
      ghost var k := 0;
      while |toRetire| > 0 && !(toRetire[0].t > now)
        invariant k <= |l| && toRetire == l[k..]
        invariant forall i :: 0 <= i < k ==> l[i].t <= now
        invariant RegisteredOk(runner, active, toRetire, initialDest)
        decreases |toRetire|
      {
        CleanRegistered(runner, active, toRetire, initialDest);
        runner := Minus(runner, toRetire[0].id);
        toRetire := toRetire[1..];
        k := k + 1;
      }
    }

    /** RemoveAll: nothing stays registered. */
    method RemoveAll()
      requires Valid()
      modifies this`runner
      ensures runner == multiset{}
    {
      hide RegisteredOk, Minus;
      ghost var initial := initialDest;
      if initialDest.Some? {
        DropInitial(runner, active, toRetire, initialDest.value);
        runner := Minus(runner, initialDest.value);
        initial := None;
      }
      var todo := active.Keys;
      ghost var m := active;
      while todo != {}
        invariant m.Keys == todo <= active.Keys && (forall n :: n in m ==> m[n] == active[n])
        invariant RegisteredOk(runner, m, toRetire, initial)
        decreases todo
      {
        var n := Pick(todo);
        DropRegistered(runner, m, toRetire, initial, n);
        runner := Minus(runner, active[n]);
        todo := todo - {n};
        m := m - {n};
      }
      var i := 0;
      while i < |toRetire|
        invariant i <= |toRetire|
        invariant RegisteredOk(runner, m, toRetire[i..], initial)
      {
        CleanRegistered(runner, m, toRetire[i..], initial);
        assert toRetire[i..][1..] == toRetire[i + 1..];
        runner := Minus(runner, toRetire[i].id);
        i := i + 1;
      }
      assert toRetire[i..] == [];
      NothingRegistered(runner, m);
    }
  }

  lemma DropInitial(runner: multiset<ConnId>, m: map<nat, ConnId>, l: seq<ToRetire>, x: ConnId)
    requires RegisteredOk(runner, m, l, Some(x))
    ensures RegisteredOk(Minus(runner, x), m, l, None)
  {
    forall id
      ensures Minus(runner, x)[id] == Uses(m, l, None, id)
    {
      assert runner[id] == Uses(m, l, Some(x), id);
    }
  }

  lemma NothingRegistered(runner: multiset<ConnId>, m: map<nat, ConnId>)
    requires m.Keys == {} && RegisteredOk(runner, m, [], None)
    ensures runner == multiset{}
  {
    forall id
      ensures runner[id] == 0
    {
      assert NumbersWith(m, id) == {};
      assert Ids([]) == [];
    }
  }
}
