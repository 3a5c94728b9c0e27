/** The IPv4 address pool of a mesh (mesh/peertable.go). */
module IpAllocation {
  import opened Protocol

  /** Offsets 0 (the network) and 1 (the gateway) are not for peers. */
  const START: U32 := 2

  /** Everything in [from, to) is in s. */
  ghost predicate AllIn(s: set<U32>, from: int, to: int) {
    forall o: U32 :: from <= o < to ==> o in s
  }

  /** The lowest offset of [from, to) that is not in s. */
  ghost predicate LowestFree(s: set<U32>, from: int, to: int, o: U32) {
    from <= o < to && o !in s && AllIn(s, from, o)
  }

  class IpAllocator {
    const base: U32
    /** The broadcast offset, which is the end of the pool. */
    const max: U32
    var next: U32
    var used: set<U32>

    /** Holds in every run: nothing below next is free, so the search can start there. */
    ghost predicate Valid()
      reads this
    {
      base + max < U32_SIZE && AllIn(used, START, next) && forall o :: o in used ==> o < max
    }

    /** Where the search for an address starts in effect. */
    function From(): U32
      reads this
    {
      if next < START then next else START
    }

    /** NewIPAllocator for a network with hostBits host bits. */
    constructor (base: U32, hostBits: nat)
      requires hostBits <= 32 && base + Pow2(hostBits) <= U32_SIZE
      ensures Valid() && used == {} && From() == START
      ensures this.base == base && max == Pow2(hostBits) - 1
    {
      this.base := base;
      var size: int := Wrap(Pow2(hostBits));
      max := Wrap(size - 1);
      next := START;
      used := {};
    }

    method Take(offset: U32) returns (ip: U32)
      requires Valid() && LowestFree(used, From(), max, offset) && offset >= next
      modifies this`used, this`next
      ensures Valid() && used == old(used) + {offset} && ip == base + offset
      ensures From() == if offset < START - 1 then offset + 1 else START
    {
      used := used + {offset};
      next := offset + 1;
      ip := Wrap(base + offset);
    }

    /** Allocate: the lowest free address, or none if the pool is full. */
    method Allocate() returns (ip: Option<U32>)
      requires Valid()
      modifies this`used, this`next
      ensures Valid()
      ensures ip.None? <==> AllIn(old(used), old(From()), max)
      ensures ip.None? ==> used == old(used) && next == old(next)
      ensures ip.Some? ==> base <= ip.value < base + max && LowestFree(old(used), old(From()), max, ip.value - base)
      ensures ip.Some? ==> used == old(used) + {ip.value - base}
      ensures old(From()) == START ==> From() == START
    {
      var offset := next;
      while offset < max
        invariant next <= offset && (next <= max ==> offset <= max)
        invariant AllIn(used, From(), offset) && used == old(used) && next == old(next)
      {
        if offset !in used {
          var a := Take(offset);
          return Some(a);
        }
        offset := offset + 1;
      }
      offset := START;
      while offset < next
        invariant START <= offset && used == old(used) && next == old(next)
      {
        if offset !in used {
          assert false;
        }
        offset := offset + 1;
      }
      return None;
    }

    /** Release: the address is free again, and the search starts there if it is lower. */
    method Release(ip: Option<U32>)
      requires Valid()
      modifies this`used, this`next
      ensures Valid()
      ensures ip.None? ==> used == old(used) && next == old(next)
      ensures ip.Some? ==> used == old(used) - {Wrap(ip.value - base)}
      ensures From() == if ip.Some? && Wrap(ip.value - base) < old(From()) then Wrap(ip.value - base) else old(From())
    {
      if ip.None? {
        return;
      }
      var offset := Wrap(ip.value - base);
      used := used - {offset};
      if offset < next {
        next := offset;
      }
    }

    /** AllocateDualStack; v6 is what the IPv6 pool gives. On failure the IPv4 pool is as before. */
    method AllocateDualStack<T>(v6: Option<T>) returns (r: Option<(U32, T)>)
      requires Valid()
      modifies this`used, this`next
      ensures Valid()
      ensures r.None? <==> v6.None? || AllIn(old(used), old(From()), max)
      ensures r.None? ==> used == old(used)
      ensures r.Some? ==> r.value.1 == v6.value && base <= r.value.0 < base + max
      ensures r.Some? ==> LowestFree(old(used), old(From()), max, r.value.0 - base) && used == old(used) + {r.value.0 - base}
      ensures old(From()) == START ==> From() == START
    {
      var v4 := Allocate();
      if v4.None? {
        return None;
      }
      if v6.None? {
        Release(v4);
        return None;
      }
      return Some((v4.value, v6.value));
    }
  }

  /** A peer asks for an address, gives one back, or asks for a pair while the IPv6 pool has one or not. */
  datatype Op = Give | Back(ip: Option<U32>) | GiveDual(v6: bool)

  /** The lowest offset of [from, to) that is not given out. */
  function Lowest(out: set<U32>, from: int, to: int): Option<U32>
    requires 0 <= from && to <= U32_SIZE
    decreases Max(0, to - from)
  {
    if from >= to then None
    else
      var x: U32 := from;
      if x !in out then Some(x) else Lowest(out, from + 1, to)
  }

  lemma {:induction false} LowestIsLowest(out: set<U32>, from: int, to: int, o: Option<U32>)
    requires 0 <= from && to <= U32_SIZE
    requires if o.Some? then LowestFree(out, from, to, o.value) else AllIn(out, from, to)
    ensures Lowest(out, from, to) == o
    decreases Max(0, to - from)
  {
    if from < to {
      var x: U32 := from;
      if x in out {
        LowestIsLowest(out, from + 1, to, o);
      }
    }
  }

  /** The ideal pool: its state is only the set of offsets that are given out. */
  function Answer(max: U32, out: set<U32>, op: Op): Option<U32> {
    if op.Give? || (op.GiveDual? && op.v6) then Lowest(out, START, max) else None
  }

  function After(base: U32, max: U32, out: set<U32>, op: Op): set<U32> {
    if op.Back? && op.ip.Some? then out - {Wrap(op.ip.value - base)}
    else if Answer(max, out, op).Some? then out + {Answer(max, out, op).value}
    else out
  }

  function GivenOut(base: U32, max: U32, ops: seq<Op>): set<U32> {
    if ops == [] then {}
    else After(base, max, GivenOut(base, max, ops[..|ops| - 1]), ops[|ops| - 1])
  }

  /** Nobody gives back the network address or the gateway. */
  predicate KeepsReserved(base: U32, op: Op) {
    op.Back? && op.ip.Some? ==> Wrap(op.ip.value - base) >= START
  }

  /** ip is the address at the given offset. */
  predicate IsAnswer(base: U32, ip: Option<U32>, offset: Option<U32>) {
    if offset.Some? then ip.Some? && ip.value == base + offset.value else ip.None?
  }

  /** One call gives the answer of the ideal pool. */
  method Step(a: IpAllocator, op: Op) returns (ip: Option<U32>)
    requires a.Valid() && a.From() == START && KeepsReserved(a.base, op)
    modifies a
    ensures a.Valid() && a.From() == START && a.used == After(a.base, a.max, old(a.used), op)
    ensures IsAnswer(a.base, ip, Answer(a.max, old(a.used), op))
  {
    hide a.Valid;
    match op
    case Give =>
      ip := a.Allocate();
      LowestIsLowest(old(a.used), START, a.max, if ip.Some? then Some(ip.value - a.base) else None);
    case Back(back) =>
      a.Release(back);
      ip := None;
    case GiveDual(v6) =>
      var pair := a.AllocateDualStack(if v6 then Some(()) else None);
      ip := if pair.Some? then Some(pair.value.0) else None;
      if v6 {
        LowestIsLowest(old(a.used), START, a.max, if ip.Some? then Some(ip.value - a.base) else None);
      }
  }

  /** Any run of the pool, from the start, gives the answers of the ideal pool. */
  method RunPool(base: U32, hostBits: nat, ops: seq<Op>) returns (ips: seq<Option<U32>>)
    requires hostBits <= 32 && base + Pow2(hostBits) <= U32_SIZE
    requires forall i :: 0 <= i < |ops| ==> KeepsReserved(base, ops[i])
    ensures |ips| == |ops|
    ensures forall i :: 0 <= i < |ops| ==>
              var max := Pow2(hostBits) - 1; IsAnswer(base, ips[i], Answer(max, GivenOut(base, max, ops[..i]), ops[i]))
  {
    hide KeepsReserved, Pow2, Answer, IsAnswer, After;
    var a := new IpAllocator(base, hostBits);
    ips := [];
    while |ips| < |ops|
      invariant fresh(a) && a.Valid() && a.From() == START && a.base == base && a.max == Pow2(hostBits) - 1
      invariant |ips| <= |ops| && a.used == GivenOut(base, a.max, ops[..|ips|])
      invariant forall i :: 0 <= i < |ips| ==> IsAnswer(base, ips[i], Answer(a.max, GivenOut(base, a.max, ops[..i]), ops[i]))
    {
      hide a.Valid;
      var n := |ips|;
      assert ops[..n + 1][..n] == ops[..n];
      var ip := Step(a, ops[n]);
      ips := ips + [ip];
    }
  }

  /** No run of the ideal pool gives out a reserved offset or one that is still out, and it fails only when it is full. */
  lemma {:induction false} IdealPool(base: U32, max: U32, ops: seq<Op>, op: Op)
    ensures var out, r := GivenOut(base, max, ops), Answer(max, GivenOut(base, max, ops), op);
            && (forall o :: o in out ==> START <= o < max)
            && (r.Some? ==> START <= r.value < max && r.value !in out)
            && ((op.Give? || (op.GiveDual? && op.v6)) && r.None? ==> AllIn(out, START, max))
  {
    if ops != [] {
      IdealPool(base, max, ops[..|ops| - 1], ops[|ops| - 1]);
    }
    LowestIsFree(GivenOut(base, max, ops), START, max);
  }

  lemma {:induction false} LowestIsFree(out: set<U32>, from: int, to: int)
    requires 0 <= from && to <= U32_SIZE
    ensures Lowest(out, from, to).None? ==> AllIn(out, from, to)
    ensures Lowest(out, from, to).Some? ==> LowestFree(out, from, to, Lowest(out, from, to).value)
    decreases Max(0, to - from)
  {
    if from < to {
      var x: U32 := from;
      if x in out {
        LowestIsFree(out, from + 1, to);
      }
    }
  }

  /** Giving back a reserved address breaks the pool: the next call gives it out. */
  method ReleaseReserved(a: IpAllocator, offset: U32) returns (ip: Option<U32>)
    requires a.Valid() && offset < START && offset < a.max
    modifies a
    ensures offset <= old(a.From()) ==> ip == Some(a.base + offset)
  {
    a.Release(Some(a.base + offset));
    ip := a.Allocate();
  }
}
