/** The packets that proxy/tun.go and proxy/tun_ipv6.go write into pooled buffers, whose old bytes are arbitrary. */
module TunPackets {
  import opened Protocol
  import opened Checksums

  const PROTO_TCP: Byte := 6
  const PROTO_UDP: Byte := 17
  const IPV6_HEADER_LEN: nat := 40

  datatype Tcp = Tcp(srcPort: U16, dstPort: U16, seqNr: U32, ackNr: U32, flags: Byte)
  datatype Udp = Udp(srcPort: U16, dstPort: U16)

  function U32At(p: seq<Byte>, at: nat): U32
    requires at + 4 <= |p|
  {
    U16_SIZE * Word(p[at], p[at + 1]) + Word(p[at + 2], p[at + 3])
  }

  function Bytes32(v: U32): (r: seq<Byte>)
    ensures |r| == 4 && U32At(r, 0) == v
  {
    var hi, lo := v / U16_SIZE, v % U16_SIZE;
    [hi / 256, hi % 256, lo / 256, lo % 256]
  }

  /** The pseudo-header of RFC 793 and RFC 768. */
  function Pseudo4(src: seq<Byte>, dst: seq<Byte>, proto: Byte, len: nat): (r: seq<Byte>)
    ensures |r| == |src| + |dst| + 4
  {
    src + dst + [0, proto, len / 256 % 256, len % 256]
  }

  /** The pseudo-header of section 8.1 of RFC 8200. */
  function Pseudo6(src: seq<Byte>, dst: seq<Byte>, proto: Byte, len: nat): (r: seq<Byte>)
    ensures |r| == |src| + |dst| + 8
  {
    src + dst + Bytes32(len % U32_SIZE) + [0, 0, 0, proto]
  }

  lemma LowWord(len: nat)
    ensures Word(len / 256 % 256, len % 256) == len % U16_SIZE
  {
    var q, r := len / 256, len % 256;
    assert len == 256 * q + r && q == 256 * (q / 256) + q % 256;
    assert len == U16_SIZE * (q / 256) + (256 * (q % 256) + r);
  }

  /** Source, destination, a zero byte, the protocol and the length. */
  lemma Pseudo4Fields(src: seq<Byte>, dst: seq<Byte>, proto: Byte, len: nat)
    requires |src| == |dst| == 4
    ensures var p := Pseudo4(src, dst, proto, len);
      && |p| == 12 && p[..4] == src && p[4..8] == dst
      && p[8] == 0 && p[9] == proto && Word(p[10], p[11]) == len % U16_SIZE
  {
    hide Word;
    LowWord(len);
  }

  /** Source, destination, the length, three zero bytes and the next header. */
  lemma Pseudo6Fields(src: seq<Byte>, dst: seq<Byte>, proto: Byte, len: nat)
    requires |src| == |dst| == 16
    ensures var p := Pseudo6(src, dst, proto, len);
      && |p| == 40 && p[..16] == src && p[16..32] == dst
      && U32At(p, 32) == len % U32_SIZE && p[36] == p[37] == p[38] == 0 && p[39] == proto
  {
    var p := Pseudo6(src, dst, proto, len);
    var b := Bytes32(len % U32_SIZE);
    assert p[32] == b[0] && p[33] == b[1] && p[34] == b[2] && p[35] == b[3];
  }

  predicate SameAt(p: seq<Byte>, at: nat, s: seq<Byte>) {
    at + |s| <= |p| && forall i :: 0 <= i < |s| ==> p[at + i] == s[i]
  }

  /** An IPv4 header without options for the whole of p. */
  predicate IsIpv4(p: seq<Byte>, tos: Byte, proto: Byte, src: seq<Byte>, dst: seq<Byte>) {
    && |p| >= 20
    && p[0] == 0x45 && p[1] == tos && Word(p[2], p[3]) == |p| % U16_SIZE
    && p[8] == 64 && p[9] == proto
    && SameAt(p, 12, src) && SameAt(p, 16, dst)
  }

  /** An IPv6 header without a flow label for the whole of p. */
  predicate IsIpv6(p: seq<Byte>, trafficClass: Byte, nextHeader: Byte, src: seq<Byte>, dst: seq<Byte>) {
    && |p| >= IPV6_HEADER_LEN
    && Word(p[0], p[1]) == 0x6000 + 16 * trafficClass && p[2] == p[3] == 0
    && Word(p[4], p[5]) == (|p| - IPV6_HEADER_LEN) % U16_SIZE
    && p[6] == nextHeader && p[7] == 64
    && SameAt(p, 8, src) && SameAt(p, 24, dst)
  }

  predicate IsTcp(p: seq<Byte>, at: nat, t: Tcp, payload: seq<Byte>) {
    && |p| == at + 20 + |payload|
    && Word(p[at], p[at + 1]) == t.srcPort && Word(p[at + 2], p[at + 3]) == t.dstPort
    && U32At(p, at + 4) == t.seqNr && U32At(p, at + 8) == t.ackNr
    && p[at + 12] == 0x50 && p[at + 13] == t.flags && Word(p[at + 14], p[at + 15]) == 0xFFFF
    && SameAt(p, at + 20, payload)
  }

  predicate IsUdp(p: seq<Byte>, at: nat, u: Udp, payload: seq<Byte>) {
    && |p| == at + 8 + |payload|
    && Word(p[at], p[at + 1]) == u.srcPort && Word(p[at + 2], p[at + 3]) == u.dstPort
    && Word(p[at + 4], p[at + 5]) == (8 + |payload|) % U16_SIZE
    && SameAt(p, at + 8, payload)
  }

  method PutU16(p: array<Byte>, at: nat, v: U16)
    requires at + 2 <= p.Length
    modifies p
    ensures p[..] == Put16(old(p[..]), at, v)
  {
    p[at], p[at + 1] := v / 256, v % 256;
  }

  method PutBytes(p: array<Byte>, at: nat, s: seq<Byte>)
    requires at + |s| <= p.Length
    modifies p
    ensures SameAt(p[..], at, s)
    ensures forall i :: 0 <= i < p.Length && !(at <= i < at + |s|) ==> p[i] == old(p[i])
  {
    forall i | 0 <= i < |s| {
      p[at + i] := s[i];
    }
  }

  /**
   * The end of every builder: the checksum field at p[from + at] is cleared, the checksum of the prefix and
   * p[from..to] is computed and stored. In UDP a zero checksum is sent as all ones.
   */
  method StoreChecksum(p: array<Byte>, from: nat, to: nat, at: nat, prefix: seq<Byte>, udp: bool)
    requires from + at + 2 <= to <= p.Length && Even(at) && Even(|prefix|) && |prefix| <= 40
    modifies p
    ensures forall i :: 0 <= i < p.Length && i != from + at && i != from + at + 1 ==> p[i] == old(p[i])
    ensures to - from < U16_SIZE ==> Verifies(prefix + p[from..to])
    ensures udp ==> Word(p[from + at], p[from + at + 1]) != 0
  {
    hide Verifies, ChecksumOf, Put16, Word, Even;
    PutU16(p, from + at, 0);
    ghost var cleared := p[..];
    var csum := Checksum(prefix, p[from..to]);
    assert p[from..to] == cleared[from..to];
    if udp && csum == 0 {
      csum := 0xFFFF;
    }
    PutU16(p, from + at, csum);
    assert p[from..to] == p[..][from..to];
    if to - from < U16_SIZE {
      StoredInPacket(old(p[..]), from, to, at, prefix, csum);
    }
  }

  lemma StoredInPacket(p: seq<Byte>, from: nat, to: nat, at: nat, prefix: seq<Byte>, csum: U16)
    requires from + at + 2 <= to <= |p| && to - from < U16_SIZE
    requires Even(at) && Even(|prefix|) && |prefix| <= 40
    requires var c := ChecksumOf(prefix, Put16(p, from + at, 0)[from..to]); csum == c || (csum == 0xFFFF && c == 0)
    ensures Verifies(prefix + Put16(Put16(p, from + at, 0), from + at, csum)[from..to])
  {
    hide Verifies, ChecksumOf, Put16, Word, Even;
    var cleared := Put16(p, from + at, 0);
    var segment := cleared[from..to];
    ZeroWord(segment[at], segment[at + 1]);
    PutSlice(cleared, from, to, at, csum);
    StoredChecksumVerifies(prefix, segment, at, csum);
  }

  lemma PutSlice(s: seq<Byte>, from: nat, to: nat, at: nat, v: U16)
    requires from + at + 2 <= to <= |s|
    ensures Put16(s, from + at, v)[from..to] == Put16(s[from..to], at, v)
  {
    UpdateSlice(s, from, to, at, v / 256);
    UpdateSlice(s[from + at := v / 256], from, to, at + 1, v % 256);
  }

  lemma UpdateSlice(s: seq<Byte>, from: nat, to: nat, at: nat, x: Byte)
    requires from + at < to <= |s|
    ensures s[from + at := x][from..to] == s[from..to][at := x]
  {
    var l, r := s[from + at := x][from..to], s[from..to][at := x];
    forall i | 0 <= i < |l|
      ensures l[i] == r[i]
    {
    }
  }

  lemma ZeroWord(hi: Byte, lo: Byte)
    requires Word(hi, lo) == 0
    ensures hi == lo == 0
  {
  }

  method PutIpv4(p: array<Byte>, tos: Byte, proto: Byte, src: seq<Byte>, dst: seq<Byte>)
    requires p.Length >= 20 && |src| == |dst| == 4
    modifies p
    ensures IsIpv4(p[..], tos, proto, src, dst)
    ensures forall i :: (4 <= i < 8 || 10 <= i < 12 || 20 <= i < p.Length) ==> p[i] == old(p[i])
  {
    p[0], p[1] := 0x45, tos;
    PutU16(p, 2, p.Length % U16_SIZE);
    p[8], p[9] := 64, proto;
    PutBytes(p, 12, src);
    PutBytes(p, 16, dst);
  }

  method PutIpv6(p: array<Byte>, trafficClass: Byte, nextHeader: Byte, src: seq<Byte>, dst: seq<Byte>)
    requires p.Length >= IPV6_HEADER_LEN && |src| == |dst| == 16
    modifies p
    ensures IsIpv6(p[..], trafficClass, nextHeader, src, dst)
    ensures forall i :: IPV6_HEADER_LEN <= i < p.Length ==> p[i] == old(p[i])
  {
    p[0], p[1] := 0x60 + trafficClass / 16, trafficClass % 16 * 16;
    p[2], p[3] := 0, 0;
    PutU16(p, 4, (p.Length - IPV6_HEADER_LEN) % U16_SIZE);
    p[6], p[7] := nextHeader, 64;
    PutBytes(p, 8, src);
    PutBytes(p, 24, dst);
  }

  method PutTcp(p: array<Byte>, at: nat, t: Tcp, payload: seq<Byte>)
    requires p.Length == at + 20 + |payload|
    modifies p
    ensures IsTcp(p[..], at, t, payload)
    ensures forall i :: (0 <= i < at || at + 16 <= i < at + 20) ==> p[i] == old(p[i])
  {
    PutU16(p, at, t.srcPort);
    PutU16(p, at + 2, t.dstPort);
    PutBytes(p, at + 4, Bytes32(t.seqNr));
    PutBytes(p, at + 8, Bytes32(t.ackNr));
    p[at + 12], p[at + 13] := 0x50, t.flags;
    PutU16(p, at + 14, 0xFFFF);
    PutBytes(p, at + 20, payload);
  }

  method PutUdp(p: array<Byte>, at: nat, u: Udp, payload: seq<Byte>)
    requires p.Length == at + 8 + |payload|
    modifies p
    ensures IsUdp(p[..], at, u, payload)
    ensures forall i :: (0 <= i < at || at + 6 <= i < at + 8) ==> p[i] == old(p[i])
  {
    PutU16(p, at, u.srcPort);
    PutU16(p, at + 2, u.dstPort);
    PutU16(p, at + 4, (8 + |payload|) % U16_SIZE);
    PutBytes(p, at + 8, payload);
  }

  /** buildTCPPacketWithTOS. The IPv4 identification and fragment fields and the urgent pointer keep the old bytes. */
  method BuildTcp4(p: array<Byte>, src: seq<Byte>, dst: seq<Byte>, t: Tcp, payload: seq<Byte>, tos: Byte)
    requires |src| == |dst| == 4 && p.Length == 40 + |payload|
    modifies p
    ensures IsIpv4(p[..], tos, PROTO_TCP, src, dst) && IsTcp(p[..], 20, t, payload)
    ensures Verifies(p[..20])
    ensures p.Length < U16_SIZE ==> Verifies(Pseudo4(src, dst, PROTO_TCP, p.Length - 20) + p[20..])
    ensures p[4..8] == old(p[4..8]) && p[38..40] == old(p[38..40])
  {
    hide Verifies, Pseudo4, Word;
    PutIpv4(p, tos, PROTO_TCP, src, dst);
    PutTcp(p, 20, t, payload);
    StoreChecksum(p, 20, p.Length, 16, Pseudo4(src, dst, PROTO_TCP, p.Length - 20), false);
    ghost var segment := p[20..p.Length];
    StoreChecksum(p, 0, 20, 10, [], false);
    assert p[20..] == segment && [] + p[0..20] == p[..20];
  }

  /** buildUDPPacketWithTOS. The checksum is never zero, which in UDP would mean that there is none. */
  method BuildUdp4(p: array<Byte>, src: seq<Byte>, dst: seq<Byte>, u: Udp, payload: seq<Byte>, tos: Byte)
    requires |src| == |dst| == 4 && p.Length == 28 + |payload|
    modifies p
    ensures IsIpv4(p[..], tos, PROTO_UDP, src, dst) && IsUdp(p[..], 20, u, payload)
    ensures Verifies(p[..20]) && Word(p[26], p[27]) != 0
    ensures p.Length < U16_SIZE ==> Verifies(Pseudo4(src, dst, PROTO_UDP, p.Length - 20) + p[20..])
    ensures p[4..8] == old(p[4..8])
  {
    hide Verifies, Pseudo4, Word;
    PutIpv4(p, tos, PROTO_UDP, src, dst);
    PutUdp(p, 20, u, payload);
    StoreChecksum(p, 20, p.Length, 6, Pseudo4(src, dst, PROTO_UDP, p.Length - 20), true);
    ghost var segment := p[20..p.Length];
    StoreChecksum(p, 0, 20, 10, [], false);
    assert p[20..] == segment && [] + p[0..20] == p[..20];
  }

  /** buildTCPPacketV6WithTOS. The urgent pointer keeps the old bytes. */
  method BuildTcp6(p: array<Byte>, src: seq<Byte>, dst: seq<Byte>, t: Tcp, payload: seq<Byte>, trafficClass: Byte)
    requires |src| == |dst| == 16 && p.Length == 60 + |payload|
    modifies p
    ensures IsIpv6(p[..], trafficClass, PROTO_TCP, src, dst) && IsTcp(p[..], 40, t, payload)
    ensures 20 + |payload| < U16_SIZE ==> Verifies(Pseudo6(src, dst, PROTO_TCP, 20 + |payload|) + p[40..])
    ensures p[58..60] == old(p[58..60])
  {
    hide Verifies, Pseudo6, Word;
    PutIpv6(p, trafficClass, PROTO_TCP, src, dst);
    PutTcp(p, IPV6_HEADER_LEN, t, payload);
    StoreChecksum(p, IPV6_HEADER_LEN, p.Length, 16, Pseudo6(src, dst, PROTO_TCP, 20 + |payload|), false);
    assert p[40..p.Length] == p[40..];
  }

  /** buildUDPPacketV6WithTOS. */
  method BuildUdp6(p: array<Byte>, src: seq<Byte>, dst: seq<Byte>, u: Udp, payload: seq<Byte>, trafficClass: Byte)
    requires |src| == |dst| == 16 && p.Length == 48 + |payload|
    modifies p
    ensures IsIpv6(p[..], trafficClass, PROTO_UDP, src, dst) && IsUdp(p[..], 40, u, payload)
    ensures 8 + |payload| < U16_SIZE ==> Verifies(Pseudo6(src, dst, PROTO_UDP, 8 + |payload|) + p[40..])
    ensures Word(p[46], p[47]) != 0
  {
    hide Verifies, Pseudo6, Word;
    PutIpv6(p, trafficClass, PROTO_UDP, src, dst);
    PutUdp(p, IPV6_HEADER_LEN, u, payload);
    StoreChecksum(p, IPV6_HEADER_LEN, p.Length, 6, Pseudo6(src, dst, PROTO_UDP, 8 + |payload|), true);
    assert p[40..p.Length] == p[40..];
  }
}
