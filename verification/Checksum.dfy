/** The Internet checksum of proxy/tun.go (RFC 1071). */
module Checksums {
  import opened Protocol

  predicate Even(n: nat) {
    n % 2 == 0
  }

  /** A big-endian 16-bit word. */
  function Word(hi: Byte, lo: Byte): U16 {
    256 * hi + lo
  }

  /** The sum of the words of s; an odd byte at the end is the high half of a word. */
  function Words(s: seq<Byte>): nat {
    if |s| >= 2 then Word(s[0], s[1]) + Words(s[2..])
    else if |s| == 1 then Word(s[0], 0)
    else 0
  }

  /** One's complement addition: the carry out of the highest bit is added at the lowest. */
  function OnesAdd(a: U16, b: U16): U16 {
    if a + b >= U16_SIZE then a + b - 0xFFFF else a + b
  }

  /** The one's complement sum of the words of s, as RFC 1071 defines it. */
  function OnesSum(s: seq<Byte>): U16 {
    if |s| >= 2 then OnesAdd(Word(s[0], s[1]), OnesSum(s[2..]))
    else if |s| == 1 then Word(s[0], 0)
    else 0
  }

  /** The check of a receiver: with the checksum in place the one's complement sum is all ones. */
  predicate Verifies(s: seq<Byte>) {
    OnesSum(s) == 0xFFFF
  }

  /** One's complement numbers are the residues of 65535, with two forms of zero. */
  function Residue(n: nat): nat {
    n % 0xFFFF
  }

  /** Adds the carries back until the sum fits 16 bits. */
  function Fold(n: nat): (r: U16)
    ensures Residue(r) == Residue(n)
    ensures r == 0 <==> n == 0
  {
    if n >= U16_SIZE then Fold(n / U16_SIZE + n % U16_SIZE) else n
  }

  lemma SameResidue(a: U16, b: U16)
    requires Residue(a) == Residue(b) && (a == 0 <==> b == 0)
    ensures a == b
  {
  }

  lemma ResidueAdd(a: nat, b: nat, c: nat)
    requires Residue(b) == Residue(c)
    ensures Residue(a + b) == Residue(a + c)
  {
  }

  lemma OnesAddResidue(a: U16, b: U16)
    ensures Residue(OnesAdd(a, b)) == Residue(a + b)
    ensures OnesAdd(a, b) == 0 <==> a + b == 0
  {
  }

  lemma {:induction false} OnesSumResidue(s: seq<Byte>)
    ensures Residue(OnesSum(s)) == Residue(Words(s))
    ensures OnesSum(s) == 0 <==> Words(s) == 0
  {
    hide Residue, OnesAdd;
    if |s| >= 2 {
      var w, t := Word(s[0], s[1]), s[2..];
      OnesSumResidue(t);
      OnesAddResidue(w, OnesSum(t));
      ResidueAdd(w, OnesSum(t), Words(t));
    }
  }

  /** Summing first and folding once is the one's complement sum. */
  lemma FoldIsOnesSum(s: seq<Byte>)
    ensures Fold(Words(s)) == OnesSum(s)
  {
    hide Residue;
    OnesSumResidue(s);
    SameResidue(Fold(Words(s)), OnesSum(s));
  }

  lemma {:induction false} WordsAppend(a: seq<Byte>, b: seq<Byte>)
    requires Even(|a|)
    ensures Words(a + b) == Words(a) + Words(b)
  {
    if a == [] {
      assert a + b == b;
    } else {
      WordsAppend(a[2..], b);
      assert (a + b)[2..] == a[2..] + b;
    }
  }

  lemma {:induction false} WordsBound(s: seq<Byte>)
    ensures Words(s) <= 0xFFFF * ((|s| + 1) / 2)
  {
    if |s| >= 2 {
      WordsBound(s[2..]);
    }
  }

  lemma WordsShort(x: Byte, y: Byte)
    ensures Words([x]) == Word(x, 0) && Words([x, y]) == Word(x, y)
  {
    assert [x, y][2..] == [];
  }

  lemma WordsStep(s: seq<Byte>, i: nat)
    requires Even(i) && i <= |s|
    ensures Even(i + 2)
    ensures i + 1 < |s| ==> Words(s[..i + 2]) == Words(s[..i]) + Word(s[i], s[i + 1])
    ensures i + 1 == |s| ==> Words(s) == Words(s[..i]) + Word(s[i], 0)
  {
    hide Words;
    if i + 1 < |s| {
      WordsShort(s[i], s[i + 1]);
      assert s[..i + 2] == s[..i] + [s[i], s[i + 1]];
      WordsAppend(s[..i], [s[i], s[i + 1]]);
    } else if i + 1 == |s| {
      WordsShort(s[i], 0);
      assert s == s[..i] + [s[i]];
      WordsAppend(s[..i], [s[i]]);
    }
  }

  /** Writes a 16-bit number at position at of a packet. */
  function Put16(s: seq<Byte>, at: nat, v: U16): (r: seq<Byte>)
    requires at + 1 < |s|
    ensures |r| == |s| && Word(r[at], r[at + 1]) == v
    ensures forall i :: 0 <= i < |s| && i != at && i != at + 1 ==> r[i] == s[i]
  {
    s[at := v / 256][at + 1 := v % 256]
  }

  lemma WordsSplit(s: seq<Byte>, at: nat)
    requires Even(at) && at + 1 < |s|
    ensures Words(s) == Words(s[..at]) + Word(s[at], s[at + 1]) + Words(s[at + 2..])
  {
    hide Words, Word;
    assert s == s[..at + 2] + s[at + 2..];
    WordsAppend(s[..at + 2], s[at + 2..]);
    WordsStep(s, at);
  }

  /** Writing a word at an even position changes the sum by the difference. */
  lemma WordsPut(s: seq<Byte>, at: nat, v: U16)
    requires Even(at) && at + 1 < |s|
    ensures Words(Put16(s, at, v)) == Words(s) - Word(s[at], s[at + 1]) + v
  {
    hide Words;
    var t := Put16(s, at, v);
    WordsSplit(s, at);
    WordsSplit(t, at);
    assert t[..at] == s[..at] && t[at + 2..] == s[at + 2..];
  }

  lemma AddWraps(a: nat, b: nat)
    ensures Wrap(Wrap(a) + b) == Wrap(a + b)
  {
  }

  /** checksumData, with 32-bit addition. */
  method ChecksumData(initial: U32, data: seq<Byte>) returns (sum: U32)
    ensures sum == Wrap(initial + Words(data))
  {
    hide Words, Word, Wrap, Even;
    sum := initial;
    var i := 0;
    NothingSummed(initial, data);
    while i + 1 < |data|
      invariant i <= |data| && Even(i)
      invariant sum == Wrap(initial + Words(data[..i]))
    {
      WordsStep(data, i);
      AddWraps(initial + Words(data[..i]), Word(data[i], data[i + 1]));
      sum := Wrap(sum + Word(data[i], data[i + 1]));
      i := i + 2;
    }
    if |data| % 2 != 0 {
      AtOddEnd(i, |data|);
      WordsStep(data, i);
      AddWraps(initial + Words(data[..i]), Word(data[i], 0));
      sum := Wrap(sum + Word(data[|data| - 1], 0));
    } else {
      AtEvenEnd(i, |data|);
      assert data[..i] == data;
    }
  }

  lemma NothingSummed(initial: U32, data: seq<Byte>)
    ensures Even(0) && Wrap(initial + Words(data[..0])) == initial
  {
  }

  lemma AtOddEnd(i: nat, n: nat)
    requires Even(i) && i <= n <= i + 1 && n % 2 != 0
    ensures i + 1 == n
  {
  }

  lemma AtEvenEnd(i: nat, n: nat)
    requires Even(i) && i <= n <= i + 1 && n % 2 == 0
    ensures i == n
  {
  }

  /** checksumFold. */
  method ChecksumFold(sum: U32) returns (r: U16)
    ensures r == Fold(sum)
  {
    var s: U32 := sum;
    while s > 0xFFFF
      invariant Fold(s) == Fold(sum)
    {
      s := s / U16_SIZE + s % U16_SIZE;
    }
    r := s;
  }

  function ChecksumOf(prefix: seq<Byte>, segment: seq<Byte>): U16 {
    0xFFFF - Fold(Wrap(Words(prefix) + Words(segment)))
  }

  /** The complement of the folded sum of a prefix and a segment: ipChecksum, tcpChecksum, udpChecksum. */
  method Checksum(prefix: seq<Byte>, segment: seq<Byte>) returns (csum: U16)
    ensures csum == ChecksumOf(prefix, segment)
  {
    hide Words, Fold, Wrap;
    AddWraps(Words(prefix), Words(segment));
    var sum := ChecksumData(0, prefix);
    sum := ChecksumData(sum, segment);
    var folded := ChecksumFold(sum);
    csum := 0xFFFF - folded;
  }

  /** Storing the checksum of a segment in its checksum field, which was zero, makes the receiver's check succeed. */
  lemma StoredChecksumVerifies(prefix: seq<Byte>, segment: seq<Byte>, at: nat, csum: U16)
    requires Even(|prefix|) && |prefix| <= 40 && |segment| < U16_SIZE
    requires Even(at) && at + 1 < |segment| && segment[at] == segment[at + 1] == 0
    requires csum == ChecksumOf(prefix, segment) || (csum == 0xFFFF && ChecksumOf(prefix, segment) == 0)
    ensures Verifies(prefix + Put16(segment, at, csum))
  {
    hide Words, OnesSum, Fold;
    var total := Words(prefix) + Words(segment);
    var stored := Put16(segment, at, csum);
    NoWrap(prefix, segment);
    WordsPut(segment, at, csum);
    WordsAppend(prefix, stored);
    FoldIsOnesSum(prefix + stored);
    Complements(total, csum);
  }

  lemma NoWrap(prefix: seq<Byte>, segment: seq<Byte>)
    requires |prefix| <= 40 && |segment| < U16_SIZE
    ensures Wrap(Words(prefix) + Words(segment)) == Words(prefix) + Words(segment)
  {
    hide Words;
    WordsBound(prefix);
    WordsBound(segment);
  }

  lemma Complements(total: nat, csum: U16)
    requires csum == 0xFFFF - Fold(total) || (csum == 0xFFFF && Fold(total) == 0xFFFF)
    ensures Fold(total + csum) == 0xFFFF
  {
    hide Fold;
    ResidueAdd(csum, total, Fold(total));
    SameResidue(Fold(total + csum), 0xFFFF);
  }
}
