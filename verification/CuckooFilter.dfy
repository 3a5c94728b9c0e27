/** The cuckoo filter of the replay protection (crypto/replay.go). */
module CuckooFiltering {
  import opened Protocol

  const BUCKET_SIZE: nat := 4
  const MAX_KICKS: nat := 500

  /** BUCKET_SIZE fingerprints; 0 is a free slot. */
  type Bucket = seq<bv8>

  // ---------------------------------------------------------------------------
  // Bit arithmetic
  // ---------------------------------------------------------------------------

  function NextPow2(v0: bv32): bv32 {
    var v1 := v0 - 1;
    var v2 := v1 | (v1 >> 1);
    var v3 := v2 | (v2 >> 2);
    var v4 := v3 | (v3 >> 4);
    var v5 := v4 | (v4 >> 8);
    var v6 := v5 | (v5 >> 16);
    v6 + 1
  }

  /** The smallest power of two that is not below v. */
  lemma NextPow2Smallest(v: bv32)
    requires 0 < v <= 0x8000_0000
    ensures var r := NextPow2(v);
      r != 0 && r & (r - 1) == 0 && v <= r && (v > 1 ==> (r >> 1) < v)
  {
  }

  /** The mask of a new filter. */
  function MaskFor(capacity: bv32): bv32 {
    NextPow2(if capacity / 4 == 0 then 1024 else capacity / 4) - 1
  }

  /** Byte k of the nonce, from below. */
  function ByteOf(x: bv64, k: nat): bv8
    requires k < 5
  {
    match k
    case 0 => (x & 0xFF) as bv8
    case 1 => ((x >> 8) & 0xFF) as bv8
    case 2 => ((x >> 16) & 0xFF) as bv8
    case 3 => ((x >> 24) & 0xFF) as bv8
    case 4 => ((x >> 32) & 0xFF) as bv8
  }

  function Mixed(x: bv64): bv8 {
    ByteOf(x, 4) ^ ByteOf(x, 3) ^ ByteOf(x, 2) ^ ByteOf(x, 1) ^ ByteOf(x, 0)
  }

  /** Eight bits of the nonce, never zero: zero marks a free slot. */
  function Fingerprint(x: bv64): (fp: bv8)
    ensures fp != 0
  {
    if Mixed(x) == 0 then 1 else Mixed(x)
  }

  function Low32(x: bv64): bv32 {
    (x & 0xFFFF_FFFF) as bv32
  }

  function Index1(mask: bv32, x: bv64): bv32 {
    Low32(x) & mask
  }

  function Hash(fp: bv8): bv32 {
    (fp as bv32) * 0x5bd1e995
  }

  /** The other bucket of a fingerprint. */
  function Index2(mask: bv32, i: bv32, fp: bv8): bv32 {
    (i ^ Hash(fp)) & mask
  }

  lemma Index1InRange(mask: bv32, x: bv64)
    ensures Index1(mask, x) <= mask && Index1(mask, x) & mask == Index1(mask, x)
  {
  }

  lemma Index2InRange(mask: bv32, i: bv32, fp: bv8)
    ensures Index2(mask, i, fp) <= mask && Index2(mask, i, fp) & mask == Index2(mask, i, fp)
  {
    hide Hash;
  }

  /** The other bucket of the other bucket is the bucket itself, for every mask. */
  lemma Index2Involution(mask: bv32, i: bv32, fp: bv8)
    requires i & mask == i
    ensures Index2(mask, Index2(mask, i, fp), fp) == i
  {
    hide Hash;
  }

  lemma Low32Xor(x: bv64, y: bv64)
    ensures Low32(x ^ y) == Low32(x) ^ Low32(y)
  {
  }

  /** The five bytes are the low 40 bits. */
  lemma BytesMake(x: bv64)
    ensures x & 0xFF_FFFF_FFFF
         == (ByteOf(x, 0) as bv64) | ((ByteOf(x, 1) as bv64) << 8) | ((ByteOf(x, 2) as bv64) << 16)
            | ((ByteOf(x, 3) as bv64) << 24) | ((ByteOf(x, 4) as bv64) << 32)
  {
  }

  /** Nonces that differ in one of the five bytes have different fingerprints, except that 0 counts as 1. */
  lemma FingerprintChanges(x: bv64, y: bv64, k: nat)
    requires k < 5 && ByteOf(x, k) != ByteOf(y, k) && forall m: nat :: m < 5 && m != k ==> ByteOf(x, m) == ByteOf(y, m)
    ensures Fingerprint(x) != Fingerprint(y) || (Fingerprint(x) == 1 && {Mixed(x), Mixed(y)} == {0, 1})
  {
    hide ByteOf, Mixed;
    MixedChanges(x, y, k);
  }

  lemma OneDiffers(a: bv8, b: bv8, c: bv8, d: bv8, e: bv8, a': bv8, b': bv8, c': bv8, d': bv8, e': bv8)
    requires || (a != a' && b == b' && c == c' && d == d' && e == e')
             || (a == a' && b != b' && c == c' && d == d' && e == e')
             || (a == a' && b == b' && c != c' && d == d' && e == e')
             || (a == a' && b == b' && c == c' && d != d' && e == e')
             || (a == a' && b == b' && c == c' && d == d' && e != e')
    ensures a ^ b ^ c ^ d ^ e != a' ^ b' ^ c' ^ d' ^ e'
  {
    XorPairs(a, b, c, d, e, a', b', c', d', e');
    OnlyOne(a ^ a', b ^ b', c ^ c', d ^ d', e ^ e');
  }

  lemma XorPairs(a: bv8, b: bv8, c: bv8, d: bv8, e: bv8, a': bv8, b': bv8, c': bv8, d': bv8, e': bv8)
    ensures (a ^ b ^ c ^ d ^ e) ^ (a' ^ b' ^ c' ^ d' ^ e') == (a ^ a') ^ (b ^ b') ^ (c ^ c') ^ (d ^ d') ^ (e ^ e')
  {
  }

  lemma OnlyOne(p: bv8, q: bv8, r: bv8, s: bv8, t: bv8)
    requires || (p != 0 && q == r == s == t == 0) || (q != 0 && p == r == s == t == 0) || (r != 0 && p == q == s == t == 0)
             || (s != 0 && p == q == r == t == 0) || (t != 0 && p == q == r == s == 0)
    ensures p ^ q ^ r ^ s ^ t != 0
  {
  }

  lemma MixedChanges(x: bv64, y: bv64, k: nat)
    requires k < 5 && ByteOf(x, k) != ByteOf(y, k) && forall m: nat :: m < 5 && m != k ==> ByteOf(x, m) == ByteOf(y, m)
    ensures Mixed(x) != Mixed(y)
  {
    hide ByteOf;
    OneDiffers(ByteOf(x, 4), ByteOf(x, 3), ByteOf(x, 2), ByteOf(x, 1), ByteOf(x, 0),
               ByteOf(y, 4), ByteOf(y, 3), ByteOf(y, 2), ByteOf(y, 1), ByteOf(y, 0));
  }

  const DEFAULT_MASK: bv32 := 0x3_FFFF

  /** The low bits of the nonce count for its first bucket. */
  lemma FirstBucket(x: bv64, d: bv64)
    requires 0 < d <= 0x3_FFFF
    ensures Index1(DEFAULT_MASK, x ^ d) != Index1(DEFAULT_MASK, x)
  {
    Low32Xor(x, d);
  }

  /** At the default capacity the two buckets of a fingerprint are different, and no two fingerprints share both. */
  lemma OtherBucket(i: bv32, fp: bv8, fp': bv8)
    requires i & DEFAULT_MASK == i && fp != fp'
    ensures Index2(DEFAULT_MASK, i, fp) != Index2(DEFAULT_MASK, i, fp')
    ensures fp != 0 ==> Index2(DEFAULT_MASK, i, fp) != i
  {
  }

  // ---------------------------------------------------------------------------
  // What a slot stands for
  // ---------------------------------------------------------------------------

  /** The index of a bucket. */
  datatype Index = Index(v: bv32)

  /** A fingerprint together with its two buckets. */
  datatype Item = Item(fp: bv8, buckets: set<Index>)

  datatype Slot = Slot(bucket: Index, pos: nat)

  /** Buckets by index. A bucket that is not in the map is still empty. */
  type Table = map<Index, Bucket>

  function Get(t: Table, i: Index): Bucket {
    if i in t then t[i] else [0, 0, 0, 0]
  }

  function First(mask: bv32, x: bv64): Index {
    Index(Index1(mask, x))
  }

  function Other(mask: bv32, i: Index, fp: bv8): Index {
    Index(Index2(mask, i.v, fp))
  }

  predicate Masked(mask: bv32, i: Index) {
    i.v & mask == i.v
  }

  ghost function ItemAt(mask: bv32, i: Index, fp: bv8): Item {
    Item(fp, {i, Other(mask, i, fp)})
  }

  /** The item of a nonce. */
  ghost function ItemOf(mask: bv32, x: bv64): Item {
    ItemAt(mask, First(mask, x), Fingerprint(x))
  }

  lemma OtherTwice(mask: bv32, i: Index, fp: bv8)
    requires Masked(mask, i)
    ensures Other(mask, Other(mask, i, fp), fp) == i && Masked(mask, Other(mask, i, fp))
  {
    hide Index2;
    Index2Involution(mask, i.v, fp);
    Index2InRange(mask, i.v, fp);
  }

  /** Moving a fingerprint to its other bucket does not change the item. */
  lemma SameItem(mask: bv32, i: Index, fp: bv8)
    requires Masked(mask, i)
    ensures ItemAt(mask, Other(mask, i, fp), fp) == ItemAt(mask, i, fp)
  {
    hide Other, Masked;
    OtherTwice(mask, i, fp);
  }

  /** Equal items lie in the same two buckets. */
  lemma ItemBuckets(mask: bv32, i: Index, i': Index, fp: bv8)
    requires ItemAt(mask, i, fp) == ItemAt(mask, i', fp)
    ensures i' == i || i' == Other(mask, i, fp)
  {
    hide Other;
    assert i' in ItemAt(mask, i', fp).buckets;
  }

  /** The two buckets of a nonce lie in the table. */
  lemma FirstMasked(mask: bv32, x: bv64)
    ensures Masked(mask, First(mask, x)) && First(mask, x).v <= mask
  {
    hide Index1;
    Index1InRange(mask, x);
  }

  /** Two nonces have the same item if and only if they have the same fingerprint and the same buckets. */
  lemma EqualItems(mask: bv32, x: bv64, y: bv64)
    ensures var i := First(mask, x);
      ItemOf(mask, x) == ItemOf(mask, y) <==>
        && Fingerprint(x) == Fingerprint(y)
        && (First(mask, y) == i || First(mask, y) == Other(mask, i, Fingerprint(x)))
  {
    hide Index1, Index2, Fingerprint;
    var i, fp := First(mask, x), Fingerprint(x);
    FirstMasked(mask, x);
    SameItem(mask, i, fp);
    if ItemOf(mask, x) == ItemOf(mask, y) {
      ItemBuckets(mask, i, First(mask, y), fp);
    }
  }

  ghost predicate WellSized(t: Table) {
    forall i :: i in t ==> |t[i]| == BUCKET_SIZE
  }

  ghost function Slots(t: Table): set<Slot> {
    set b, s | b in t && 0 <= s < BUCKET_SIZE :: Slot(b, s)
  }

  function At(t: Table, y: Slot): bv8 {
    if y.pos < |Get(t, y.bucket)| then Get(t, y.bucket)[y.pos] else 0
  }

  lemma UsedSlot(t: Table, y: Slot)
    requires WellSized(t) && At(t, y) != 0
    ensures y in Slots(t)
  {
    var b, s := y.bucket, y.pos;
    assert b in t && 0 <= s < BUCKET_SIZE && y == Slot(b, s);
  }

  /** The slots that hold item c. */
  ghost function Holders(t: Table, mask: bv32, c: Item): set<Slot> {
    set y | y in Slots(t) && At(t, y) != 0 && ItemAt(mask, y.bucket, At(t, y)) == c
  }

  /** The slots in use. */
  ghost function Filled(t: Table): set<Slot> {
    set y | y in Slots(t) && At(t, y) != 0
  }

  function Put(t: Table, y: Slot, fp: bv8): Table
    requires y.pos < |Get(t, y.bucket)|
  {
    t[y.bucket := Get(t, y.bucket)[y.pos := fp]]
  }

  lemma PutAt(t: Table, y: Slot, fp: bv8, z: Slot)
    requires WellSized(t) && y.pos < BUCKET_SIZE
    ensures y.pos < |Get(t, y.bucket)| && WellSized(Put(t, y, fp))
    ensures At(Put(t, y, fp), z) == if z == y then fp else At(t, z)
  {
  }

  lemma PutUsed(t: Table, y: Slot, fp: bv8, z: Slot)
    requires WellSized(t) && y.pos < BUCKET_SIZE
    ensures y.pos < |Get(t, y.bucket)|
    ensures At(Put(t, y, fp), z) == if z == y then fp else At(t, z)
    ensures At(Put(t, y, fp), z) != 0 ==> z in Slots(Put(t, y, fp))
    ensures At(t, z) != 0 ==> z in Slots(t)
  {
    hide At, Put, Slots;
    PutAt(t, y, fp, z);
    if At(Put(t, y, fp), z) != 0 {
      UsedSlot(Put(t, y, fp), z);
    }
    if At(t, z) != 0 {
      UsedSlot(t, z);
    }
  }

  /** How often item c is stored. */
  ghost function Stored(t: Table, mask: bv32, c: Item): nat {
    |Holders(t, mask, c)|
  }

  lemma ExchangeSize<T>(h: set<T>, h': set<T>, y: T)
    requires h - {y} == h' - {y}
    ensures |h'| + Bit(y in h) == |h| + Bit(y in h')
  {
    assert h == (h - {y}) + (if y in h then {y} else {});
    assert h' == (h' - {y}) + (if y in h' then {y} else {});
  }

  /** Overwriting a slot exchanges one item for another. */
  lemma PutStored(t: Table, mask: bv32, y: Slot, fp: bv8, c: Item)
    requires WellSized(t) && y.pos < BUCKET_SIZE && fp != 0
    ensures y.pos < |Get(t, y.bucket)|
    ensures Stored(Put(t, y, fp), mask, c) + Bit(At(t, y) != 0 && ItemAt(mask, y.bucket, At(t, y)) == c)
         == Stored(t, mask, c) + Bit(ItemAt(mask, y.bucket, fp) == c)
  {
    hide ItemAt, Slots, At, Put, Bit, WellSized;
    PutUsed(t, y, fp, y);
    var h, h' := Holders(t, mask, c), Holders(Put(t, y, fp), mask, c);
    forall z
      ensures z in h - {y} <==> z in h' - {y}
    {
      PutUsed(t, y, fp, z);
    }
    assert h - {y} == h' - {y};
    ExchangeSize(h, h', y);
  }

  lemma PutFilled(t: Table, y: Slot, fp: bv8)
    requires WellSized(t) && y.pos < BUCKET_SIZE && fp != 0
    ensures y.pos < |Get(t, y.bucket)|
    ensures |Filled(Put(t, y, fp))| == |Filled(t)| + Bit(At(t, y) == 0)
  {
    hide Slots, At, Put, WellSized;
    PutUsed(t, y, fp, y);
    var f, f' := Filled(t), Filled(Put(t, y, fp));
    forall z
      ensures z in f' <==> z in f + {y}
    {
      PutUsed(t, y, fp, z);
    }
    assert f' == f + {y};
    if At(t, y) != 0 {
      assert f + {y} == f;
    }
  }

  /** Only buckets that the mask allows are in use. */
  ghost predicate TableOk(t: Table, mask: bv32) {
    && WellSized(t)
    && (forall y: Slot :: At(t, y) != 0 ==> Masked(mask, y.bucket))
  }

  lemma OtherMasked(mask: bv32, i: Index, fp: bv8)
    ensures Masked(mask, Other(mask, i, fp)) && Other(mask, i, fp).v <= mask
  {
    hide Index2;
    Index2InRange(mask, i.v, fp);
  }

  lemma PutTableOk(t: Table, mask: bv32, y: Slot, fp: bv8)
    requires TableOk(t, mask) && y.pos < BUCKET_SIZE && Masked(mask, y.bucket)
    ensures y.pos < |Get(t, y.bucket)| && TableOk(Put(t, y, fp), mask)
  {
    hide Masked, At, Put;
    PutAt(t, y, fp, y);
    forall z: Slot | At(Put(t, y, fp), z) != 0
      ensures Masked(mask, z.bucket)
    {
      PutAt(t, y, fp, z);
    }
  }

  lemma StoredWitness(t: Table, mask: bv32, c: Item) returns (y: Slot)
    requires Stored(t, mask, c) > 0
    ensures At(t, y) != 0 && ItemAt(mask, y.bucket, At(t, y)) == c
  {
    assert Holders(t, mask, c) != {};
    y :| y in Holders(t, mask, c);
  }

  lemma WitnessStored(t: Table, mask: bv32, y: Slot)
    requires WellSized(t) && At(t, y) != 0
    ensures Stored(t, mask, ItemAt(mask, y.bucket, At(t, y))) > 0
  {
    UsedSlot(t, y);
    assert y in Holders(t, mask, ItemAt(mask, y.bucket, At(t, y)));
  }

  ghost predicate Full(t: Table, i: Index) {
    0 !in Get(t, i)
  }

  /** The first free slot. */
  ghost predicate FirstFree(t: Table, y: Slot) {
    && y.pos < |Get(t, y.bucket)|
    && Get(t, y.bucket)[y.pos] == 0
    && 0 !in Get(t, y.bucket)[..y.pos]
  }

  /** A fingerprint is put into the first free slot of a bucket. */
  ghost predicate Placed(t: Table, i: Index, fp: bv8, t': Table) {
    exists y: Slot :: y.bucket == i && FirstFree(t, y) && t' == Put(t, y, fp)
  }

  /** An eviction on its way: the fingerprint in hand belongs into the bucket. */
  datatype Carry = Carry(table: Table, bucket: Index, hand: bv8)

  /** The fingerprint in hand takes a slot, and the one that was there goes to its other bucket. */
  ghost function Kick(mask: bv32, c: Carry, pos: nat): Carry {
    if pos < |Get(c.table, c.bucket)| then
      var victim := Get(c.table, c.bucket)[pos];
      Carry(Put(c.table, Slot(c.bucket, pos), c.hand), Other(mask, c.bucket, victim), victim)
    else c
  }

  ghost function Kicks(mask: bv32, c: Carry, slots: seq<nat>): Carry {
    if slots == [] then c else Kick(mask, Kicks(mask, c, slots[..|slots| - 1]), slots[|slots| - 1])
  }

  ghost predicate Stuck(c: Carry) {
    Full(c.table, c.bucket)
  }

  /** Every kick is from a full bucket. */
  ghost predicate FromFull(mask: bv32, c: Carry, slots: seq<nat>) {
    forall k :: 0 <= k < |slots| ==> slots[k] < BUCKET_SIZE && Stuck(Kicks(mask, c, slots[..k]))
  }

  /** Fingerprints are kicked out one after the other while there is no room, MAX_KICKS times at most. */
  ghost predicate Evicted(mask: bv32, c: Carry, slots: seq<nat>, ok: bool, t': Table) {
    && 0 < |slots| <= MAX_KICKS && FromFull(mask, c, slots)
    && var c' := Kicks(mask, c, slots);
       if ok then Placed(c'.table, c'.bucket, c'.hand, t') else |slots| == MAX_KICKS && Stuck(c') && t' == c'.table
  }

  /**
   * How x is inserted: into its first bucket, else into its other one, and only if both are full by evictions from
   * one of them.
   */
  ghost predicate Insertion(mask: bv32, t: Table, x: bv64, ok: bool, t': Table) {
    var fp := Fingerprint(x);
    var i := First(mask, x);
    var j := Other(mask, i, fp);
    if !Full(t, i) then ok && Placed(t, i, fp, t')
    else if !Full(t, j) then ok && Placed(t, j, fp, t')
    else exists b, slots :: b in {i, j} && Evicted(mask, Carry(t, b, fp), slots, ok, t')
  }

  lemma {:induction false} LastKick(mask: bv32, c: Carry, slots: seq<nat>, pos: nat)
    ensures Kicks(mask, c, slots + [pos]) == Kick(mask, Kicks(mask, c, slots), pos)
  {
    hide Kick;
    assert (slots + [pos])[..|slots|] == slots;
  }

  lemma {:induction false} OneMoreKick(mask: bv32, c: Carry, slots: seq<nat>, pos: nat)
    requires FromFull(mask, c, slots) && Stuck(Kicks(mask, c, slots)) && pos < BUCKET_SIZE
    ensures FromFull(mask, c, slots + [pos])
  {
    hide Stuck, Kicks;
    var more := slots + [pos];
    forall k: nat | k < |more|
      ensures more[k] < BUCKET_SIZE && Stuck(Kicks(mask, c, more[..k]))
    {
      if k < |slots| {
        assert more[..k] == slots[..k];
      } else {
        assert more[..k] == slots;
      }
    }
  }

  /** The nonce is found in one of its two buckets exactly if its item is stored. */
  lemma FoundIsStored(t: Table, mask: bv32, x: bv64)
    requires TableOk(t, mask)
    ensures var fp, i := Fingerprint(x), First(mask, x);
      fp in Get(t, i) || fp in Get(t, Other(mask, i, fp)) <==> Stored(t, mask, ItemOf(mask, x)) > 0
  {
    hide Index1, Index2, Fingerprint, Get;
    var fp, i := Fingerprint(x), First(mask, x);
    var j := Other(mask, i, fp);
    FirstMasked(mask, x);
    SameItem(mask, i, fp);
    if fp in Get(t, i) {
      var s :| 0 <= s < |Get(t, i)| && Get(t, i)[s] == fp;
      WitnessStored(t, mask, Slot(i, s));
    }
    if fp in Get(t, j) {
      var s :| 0 <= s < |Get(t, j)| && Get(t, j)[s] == fp;
      WitnessStored(t, mask, Slot(j, s));
    }
    if Stored(t, mask, ItemOf(mask, x)) > 0 {
      var y := StoredWitness(t, mask, ItemOf(mask, x));
      ItemBuckets(mask, i, y.bucket, fp);
      assert Get(t, y.bucket)[y.pos] == fp;
    }
  }

  class CuckooFilter {
    const mask: bv32
    var table: Table
    var count: nat

    ghost predicate Valid()
      reads this
    {
      TableOk(table, mask) && count == |Filled(table)|
    }

    ghost function Has(c: Item): nat
      reads this
    {
      Stored(table, mask, c)
    }

    /** newCuckooFilter: a power of two of empty buckets. */
    constructor (capacity: bv32)
      ensures Valid() && count == 0 && table == map[]
      ensures mask == MaskFor(capacity) && mask & (mask + 1) == 0
      ensures forall c :: Has(c) == 0
    {
      var numBuckets := capacity / 4;
      if numBuckets == 0 {
        numBuckets := 1024;
      }
      NextPow2Smallest(numBuckets);
      mask := NextPow2(numBuckets) - 1;
      table, count := map[], 0;
      new;
      assert Slots(table) == {};
      assert Filled(table) == {};
      forall c
        ensures Has(c) == 0
      {
        assert Holders(table, mask, c) == {};
      }
    }

    /** bucketContains. */
    method BucketContains(i: Index, fp: bv8) returns (found: bool)
      requires Valid()
      ensures found <==> fp in Get(table, i)
    {
      var s := 0;
      while s < BUCKET_SIZE
        invariant s <= BUCKET_SIZE
        invariant fp !in Get(table, i)[..s]
      {
        if Get(table, i)[s] == fp {
          return true;
        }
        s := s + 1;
      }
      assert Get(table, i)[..s] == Get(table, i);
      return false;
    }

    /** Lookup: true exactly if the item of x is stored. */
    method Lookup(x: bv64) returns (found: bool)
      requires Valid()
      ensures found <==> Has(ItemOf(mask, x)) > 0
    {
      hide Index1, Index2, Fingerprint;
      var fp := Fingerprint(x);
      var i1 := First(mask, x);
      var i2 := Other(mask, i1, fp);
      var in1 := BucketContains(i1, fp);
      var in2 := BucketContains(i2, fp);
      found := in1 || in2;
      FoundIsStored(table, mask, x);
    }

    /** bucketInsert: takes the first free slot. */
    method BucketInsert(i: Index, fp: bv8) returns (ok: bool)
      requires Valid() && Masked(mask, i) && fp != 0
      modifies this`table, this`count
      ensures Valid() && (ok <==> !old(Full(table, i)))
      ensures ok ==> count == old(count) + 1 && Placed(old(table), i, fp, table)
      ensures ok ==> forall c :: Has(c) == old(Has(c)) + Bit(c == ItemAt(mask, i, fp))
      ensures !ok ==> table == old(table) && count == old(count) && 0 !in Get(table, i)
    {
      hide Other, Masked, Stored;
      var s := 0;
      while s < BUCKET_SIZE
        invariant s <= BUCKET_SIZE && table == old(table) && count == old(count)
        invariant 0 !in Get(table, i)[..s]
      {
        if Get(table, i)[s] == 0 {
          var y := Slot(i, s);
          PutTableOk(table, mask, y, fp);
          PutFilled(table, y, fp);
          forall c
            ensures Stored(Put(table, y, fp), mask, c) == Stored(table, mask, c) + Bit(c == ItemAt(mask, i, fp))
          {
            PutStored(table, mask, y, fp, c);
          }
          assert FirstFree(table, y);
          table := Put(table, y, fp);
          count := count + 1;
          return true;
        }
        s := s + 1;
      }
      assert Get(table, i)[..s] == Get(table, i);
      return false;
    }

    /** Swaps the fingerprint in hand with the one in a slot. */
    method Exchange(i: Index, slot: nat, fp: bv8) returns (victim: bv8)
      requires Valid() && Masked(mask, i) && fp != 0 && Full(table, i) && slot < BUCKET_SIZE
      modifies this`table
      ensures Valid() && victim != 0
      ensures forall c ::
                Has(c) + Bit(c == ItemAt(mask, i, victim)) == old(Has(c)) + Bit(c == ItemAt(mask, i, fp))
      ensures Carry(table, Other(mask, i, victim), victim) == Kick(mask, Carry(old(table), i, fp), slot)
    {
      hide Other, Stored;
      var y := Slot(i, slot);
      victim := Get(table, i)[slot];
      PutTableOk(table, mask, y, fp);
      PutFilled(table, y, fp);
      forall c
        ensures Stored(Put(table, y, fp), mask, c) + Bit(c == ItemAt(mask, i, victim))
             == Stored(table, mask, c) + Bit(c == ItemAt(mask, i, fp))
      {
        PutStored(table, mask, y, fp, c);
      }
      table := Put(table, y, fp);
    }

    /** One round of the eviction loop. */
    method KickOut(i: Index, fp: bv8, slot: nat) returns (ok: bool, i': Index, fp': bv8)
      requires Valid() && Masked(mask, i) && fp != 0 && Full(table, i) && slot < BUCKET_SIZE
      modifies this`table, this`count
      ensures Valid() && count == old(count) + Bit(ok) && Masked(mask, i') && fp' != 0
      ensures forall c ::
                Has(c) + Bit(!ok && c == ItemAt(mask, i', fp')) == old(Has(c)) + Bit(c == ItemAt(mask, i, fp))
      ensures var c' := Kick(mask, Carry(old(table), i, fp), slot);
        && i' == c'.bucket && fp' == c'.hand
        && if ok then Placed(c'.table, i', fp', table) else table == c'.table && Full(table, i')
    {
      hide Other, Masked, Stored, Placed, Kick, TableOk, ItemAt;
      fp' := Exchange(i, slot, fp);
      SameItem(mask, i, fp');
      OtherMasked(mask, i, fp');
      i' := Other(mask, i, fp');
      ok := BucketInsert(i', fp');
    }

    /**
     * The eviction loop of Insert: puts fp into bucket i, which is full, takes another fingerprint out and
     * carries that one to its other bucket, until there is a free slot. What is carried in the end is lost.
     */
    method Evict(i: Index, fp: bv8) returns (ok: bool, ghost lost: Item, ghost slots: seq<nat>)
      requires Valid() && Masked(mask, i) && fp != 0 && Full(table, i)
      modifies this`table, this`count
      ensures Valid() && count == old(count) + Bit(ok)
      ensures forall c ::
                Has(c) + Bit(!ok && c == lost) == old(Has(c)) + Bit(c == ItemAt(mask, i, fp))
      ensures Evicted(mask, Carry(old(table), i, fp), slots, ok, table)
    {
      hide Stored;
      var idx, hand := i, fp;
      ghost var x, c0 := ItemAt(mask, i, fp), Carry(table, i, fp);
      slots := [];
      var k := 0;
      assert Kicks(mask, c0, slots) == c0 && FromFull(mask, c0, slots);
      while k < MAX_KICKS
        invariant Valid() && count == old(count) && Masked(mask, idx) && hand != 0 && |slots| == k <= MAX_KICKS
        invariant forall c ::
                    Has(c) + Bit(c == ItemAt(mask, idx, hand)) == old(Has(c)) + Bit(c == x)
        invariant Carry(table, idx, hand) == Kicks(mask, c0, slots) && FromFull(mask, c0, slots) && Full(table, idx)
      {
        hide Masked, FromFull, Placed, Kick, Kicks, ItemAt;
        var slot: nat :| slot < BUCKET_SIZE;
        LastKick(mask, c0, slots, slot);
        OneMoreKick(mask, c0, slots, slot);
        slots := slots + [slot];
        ok, idx, hand := KickOut(idx, hand, slot);
        if ok {
          return true, x, slots;
        }
        k := k + 1;
      }
      return false, ItemAt(mask, idx, hand), slots;
    }

    /**
     * Insert: on success the item of x is stored once more and every other item as before, whatever was
     * moved. A failure loses exactly one stored item, and there is none unless both buckets of x are full.
     */
    method Insert(x: bv64) returns (ok: bool, ghost lost: Item)
      requires Valid()
      modifies this`table, this`count
      ensures Valid() && count == old(count) + Bit(ok)
      ensures forall c ::
                Has(c) + Bit(!ok && c == lost) == old(Has(c)) + Bit(c == ItemOf(mask, x))
      ensures Insertion(mask, old(table), x, ok, table)
    {
      hide Index1, Index2, Fingerprint;
      var fp := Fingerprint(x);
      var i1 := First(mask, x);
      var i2 := Other(mask, i1, fp);
      FirstMasked(mask, x);
      OtherMasked(mask, i1, fp);
      SameItem(mask, i1, fp);
      hide Placed, Evicted;
      lost := ItemOf(mask, x);
      ok := BucketInsert(i1, fp);
      if ok {
        return;
      }
      ok := BucketInsert(i2, fp);
      if ok {
        return;
      }
      var coin: bool := *;
      ghost var slots;
      ok, lost, slots := Evict(if coin then i2 else i1, fp);
    }
  }
}
