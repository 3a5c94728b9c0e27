/** Locating the SNI and ECH extensions of a ClientHello (quicfork/sni.go). */
module Sni {
  import opened Protocol

  const EXT_TYPE_SNI := 0
  const EXT_TYPE_ECH := 0xfe0d

  /** -1 marks an extension that was not found. */
  datatype SniResult =
    | Found(sniPos: int, sniLen: nat, echPos: int)
    | UnexpectedEof
    | Malformed

  function Uint16(data: seq<Byte>, i: nat): nat
    requires i + 2 <= |data|
  {
    (data[i] as int) * 256 + data[i + 1]
  }

  /** The length field of the handshake message. */
  function HandshakeLen(data: seq<Byte>): nat
    requires 4 <= |data|
  {
    (data[1] as int) * 65536 + (data[2] as int) * 256 + data[3]
  }

  /** data is one complete handshake message of type ClientHello. */
  predicate WholeClientHello(data: seq<Byte>) {
    4 <= |data| && data[0] == 1 && |data| == 4 + HandshakeLen(data)
  }

  /** Skips a vector whose length takes lenBytes bytes; None if it does not fit. */
  function SkipVector(data: seq<Byte>, pos: nat, lenBytes: nat): (r: Option<nat>)
    requires lenBytes == 1 || lenBytes == 2
    ensures r.Some? ==> pos + lenBytes <= r.value <= |data|
  {
    if pos + lenBytes > |data| then None
    else
      var n := if lenBytes == 1 then data[pos] else Uint16(data, pos);
      if pos + lenBytes + n > |data| then None else Some(pos + lenBytes + n)
  }

  // ---------------------------------------------------------------------------
  // What the two search loops compute
  // ---------------------------------------------------------------------------

  /** The result of searching a server name list from pos on; len is the last name length read so far. */
  function NameSearch(data: seq<Byte>, pos: nat, hi: nat, len: nat): Option<(int, nat)>
    requires pos <= hi <= |data|
    decreases hi - pos
  {
    if pos + 3 > hi then Some((-1, len))
    else
      var n := Uint16(data, pos + 1);
      if pos + 3 + n > hi then None
      else if data[pos] == 0 then Some((pos + 3, n))
      else NameSearch(data, pos + 3 + n, hi, n)
  }

  /** The result of searching the extensions data[pos..end]. */
  function ExtSearch(data: seq<Byte>, pos: nat, end: nat, sniPos: int, sniLen: nat, echPos: int): SniResult
    requires pos <= end <= |data|
    decreases end - pos
  {
    if pos + 4 > end || (sniPos != -1 && echPos != -1) then Found(sniPos, sniLen, echPos)
    else
      var extLen := Uint16(data, pos + 2);
      var next := pos + 4 + extLen;
      if next > end then UnexpectedEof
      else if Uint16(data, pos) == EXT_TYPE_SNI then
        if sniPos != -1 then Malformed
        else if extLen < 2 || extLen != 2 + Uint16(data, pos + 4) then UnexpectedEof
        else
          match NameSearch(data, pos + 6, next, sniLen) {
            case None => UnexpectedEof
            case Some((p, l)) => ExtSearch(data, next, end, p, l, echPos)
          }
      else if Uint16(data, pos) == EXT_TYPE_ECH then
        if echPos != -1 then Malformed else ExtSearch(data, next, end, sniPos, sniLen, pos)
      else ExtSearch(data, next, end, sniPos, sniLen, echPos)
  }

  /** Where the extensions of a ClientHello begin (behind their length) and end. */
  function Extensions(data: seq<Byte>): (r: Option<(nat, nat)>)
    ensures r.Some? ==> 2 <= r.value.0 <= r.value.1 <= |data|
  {
    if 38 > |data| then None
    else
      match SkipVector(data, 38, 1) {
        case None => None
        case Some(a) =>
          match SkipVector(data, a, 2) {
            case None => None
            case Some(b) =>
              match SkipVector(data, b, 1) {
                case None => None
                case Some(c) =>
                  match SkipVector(data, c, 2) {
                    case None => None
                    case Some(d) => Some((c + 2, d))
                  }
              }
          }
      }
  }

  /** The result of the whole search. */
  function Search(data: seq<Byte>): SniResult {
    if |data| < 4 then UnexpectedEof
    else if data[0] != 1 then Malformed
    else if !WholeClientHello(data) || Extensions(data).None? then UnexpectedEof
    else ExtSearch(data, Extensions(data).value.0, Extensions(data).value.1, -1, 0, -1)
  }

  // ---------------------------------------------------------------------------
  // The code
  // ---------------------------------------------------------------------------

  /** The loop over a server name list. */
  method FindHostName(data: seq<Byte>, lo: nat, hi: nat, oldLen: nat) returns (r: Option<(int, nat)>)
    requires lo <= hi <= |data|
    ensures r == NameSearch(data, lo, hi, oldLen)
  {
    var listPos, sniLen: nat := lo, oldLen;
    while listPos + 3 <= hi
      invariant lo <= listPos <= hi
      invariant NameSearch(data, lo, hi, oldLen) == NameSearch(data, listPos, hi, sniLen)
      decreases hi - listPos
    {
      var nameType := data[listPos];
      sniLen := Uint16(data, listPos + 1);
      if listPos + 3 + sniLen > hi {
        return None;
      }
      if nameType == 0 {
        return Some((listPos + 3, sniLen));
      }
      listPos := listPos + 3 + sniLen;
    }
    return Some((-1, sniLen));
  }

  /** The loop over the extensions data[start..end]. */
  method FindInExtensions(data: seq<Byte>, start: nat, end: nat) returns (r: SniResult)
    requires start <= end <= |data|
    ensures r == ExtSearch(data, start, end, -1, 0, -1)
  {
    var sniPos, sniLen: nat, echPos := -1, 0, -1;
    var pos := start;
    while pos + 4 <= end
      invariant start <= pos <= end
      invariant sniPos == -1 || echPos == -1
      invariant ExtSearch(data, start, end, -1, 0, -1) == ExtSearch(data, pos, end, sniPos, sniLen, echPos)
      decreases end - pos
    {
      var extType := Uint16(data, pos);
      var extLen := Uint16(data, pos + 2);
      if pos + 4 + extLen > end {
        return UnexpectedEof;
      }
      if extType == EXT_TYPE_SNI {
        if sniPos != -1 {
          return Malformed;
        }
        if extLen < 2 {
          return UnexpectedEof;
        }
        var nameListLen := Uint16(data, pos + 4);
        if extLen != 2 + nameListLen {
          return UnexpectedEof;
        }
        var name := FindHostName(data, pos + 6, pos + 4 + extLen, sniLen);
        if name.None? {
          return UnexpectedEof;
        }
        sniPos, sniLen := name.value.0, name.value.1;
        // The test for a missing host name compares with 0 and never succeeds.
      } else if extType == EXT_TYPE_ECH {
        if echPos != -1 {
          return Malformed;
        }
        echPos := pos;
      }
      pos := pos + 4 + extLen;
      if sniPos != -1 && echPos != -1 {
        break;
      }
    }
    return Found(sniPos, sniLen, echPos);
  }

  /** findSNIAndECH. */
  method FindSniAndEch(data: seq<Byte>) returns (r: SniResult)
    ensures r == Search(data)
  {
    if |data| < 4 {
      return UnexpectedEof;
    }
    if data[0] != 1 {
      return Malformed;
    }
    if |data| != 4 + HandshakeLen(data) {
      return UnexpectedEof;
    }
    // protocol version and random, session id, cipher suites, compression methods, extensions
    if 4 + 2 + 32 > |data| {
      return UnexpectedEof;
    }
    var afterSession := SkipVector(data, 38, 1);
    if afterSession.None? {
      return UnexpectedEof;
    }
    var afterCiphers := SkipVector(data, afterSession.value, 2);
    if afterCiphers.None? {
      return UnexpectedEof;
    }
    var afterCompression := SkipVector(data, afterCiphers.value, 1);
    if afterCompression.None? {
      return UnexpectedEof;
    }
    var afterExtensions := SkipVector(data, afterCompression.value, 2);
    if afterExtensions.None? {
      return UnexpectedEof;
    }
    r := FindInExtensions(data, afterCompression.value + 2, afterExtensions.value);
  }

  // ---------------------------------------------------------------------------
  // Soundness: what a reported position means
  // ---------------------------------------------------------------------------

  /** A host name of length len begins at pos, behind its name type and its length. */
  ghost predicate HostNameAt(data: seq<Byte>, pos: int, len: nat) {
    && 3 <= pos && pos + len <= |data|
    && data[pos - 3] == 0
    && Uint16(data, pos - 2) == len
  }

  /** An extension of type ECH begins at pos. */
  ghost predicate EchAt(data: seq<Byte>, pos: int) {
    0 < pos && pos + 4 <= |data| && Uint16(data, pos) == EXT_TYPE_ECH
  }

  ghost predicate Sound(data: seq<Byte>, sniPos: int, sniLen: nat, echPos: int) {
    && (sniPos == -1 || HostNameAt(data, sniPos, sniLen))
    && (echPos == -1 || EchAt(data, echPos))
    && sniLen <= |data|
  }

  lemma {:induction false} NameSearchSound(data: seq<Byte>, pos: nat, hi: nat, len: nat)
    requires pos <= hi <= |data| && len <= |data|
    ensures var r := NameSearch(data, pos, hi, len);
      r.Some? ==> Sound(data, r.value.0, r.value.1, -1)
    decreases hi - pos
  {
    if pos + 3 <= hi {
      var n := Uint16(data, pos + 1);
      if pos + 3 + n <= hi && data[pos] != 0 {
        NameSearchSound(data, pos + 3 + n, hi, n);
      }
    }
  }

  lemma {:induction false} ExtSearchSound(data: seq<Byte>, pos: nat, end: nat, sniPos: int, sniLen: nat, echPos: int)
    requires 0 < pos <= end <= |data| && Sound(data, sniPos, sniLen, echPos)
    ensures var r := ExtSearch(data, pos, end, sniPos, sniLen, echPos);
      r.Found? ==> Sound(data, r.sniPos, r.sniLen, r.echPos)
    decreases end - pos
  {
    if pos + 4 <= end && !(sniPos != -1 && echPos != -1) {
      var extLen := Uint16(data, pos + 2);
      var next := pos + 4 + extLen;
      if next <= end {
        if Uint16(data, pos) == EXT_TYPE_SNI {
          if sniPos == -1 && 2 <= extLen && extLen == 2 + Uint16(data, pos + 4) {
            NameSearchSound(data, pos + 6, next, sniLen);
            var name := NameSearch(data, pos + 6, next, sniLen);
            if name.Some? {
              ExtSearchSound(data, next, end, name.value.0, name.value.1, echPos);
            }
          }
        } else if Uint16(data, pos) == EXT_TYPE_ECH {
          if echPos == -1 {
            ExtSearchSound(data, next, end, sniPos, sniLen, pos);
          }
        } else {
          ExtSearchSound(data, next, end, sniPos, sniLen, echPos);
        }
      }
    }
  }

  /** A reported position lies in the data and points at what was asked for; only whole ClientHellos are searched. */
  lemma SearchSound(data: seq<Byte>)
    ensures var r := Search(data);
      r.Found? ==> WholeClientHello(data) && Sound(data, r.sniPos, r.sniLen, r.echPos)
  {
    if 4 <= |data| && data[0] == 1 && WholeClientHello(data) && Extensions(data).Some? {
      ExtSearchSound(data, Extensions(data).value.0, Extensions(data).value.1, -1, 0, -1);
    }
  }

  /** The host name and the header of the ECH extension have no byte in common. */
  ghost predicate Apart(sniPos: int, sniLen: nat, echPos: int) {
    sniPos != -1 && echPos != -1 ==> sniPos + sniLen <= echPos || echPos + 4 <= sniPos
  }

  lemma {:induction false} NameSearchWithin(data: seq<Byte>, pos: nat, hi: nat, len: nat)
    requires pos <= hi <= |data|
    ensures var r := NameSearch(data, pos, hi, len);
      r.Some? && r.value.0 != -1 ==> pos + 3 <= r.value.0 && r.value.0 + r.value.1 <= hi
    decreases hi - pos
  {
    if pos + 3 <= hi {
      var n := Uint16(data, pos + 1);
      if pos + 3 + n <= hi && data[pos] != 0 {
        NameSearchWithin(data, pos + 3 + n, hi, n);
      }
    }
  }

  lemma {:induction false} ExtSearchApart(data: seq<Byte>, pos: nat, end: nat, sniPos: int, sniLen: nat, echPos: int)
    requires pos <= end <= |data| && Apart(sniPos, sniLen, echPos)
    requires (sniPos != -1 ==> sniPos + sniLen <= pos) && (echPos != -1 ==> echPos + 4 <= pos)
    ensures var r := ExtSearch(data, pos, end, sniPos, sniLen, echPos);
      r.Found? ==> Apart(r.sniPos, r.sniLen, r.echPos)
    decreases end - pos
  {
    if pos + 4 <= end && !(sniPos != -1 && echPos != -1) {
      var extLen := Uint16(data, pos + 2);
      var next := pos + 4 + extLen;
      if next <= end {
        if Uint16(data, pos) == EXT_TYPE_SNI {
          if sniPos == -1 && 2 <= extLen && extLen == 2 + Uint16(data, pos + 4) {
            NameSearchWithin(data, pos + 6, next, sniLen);
            var name := NameSearch(data, pos + 6, next, sniLen);
            if name.Some? {
              ExtSearchApart(data, next, end, name.value.0, name.value.1, echPos);
            }
          }
        } else if Uint16(data, pos) == EXT_TYPE_ECH {
          if echPos == -1 {
            ExtSearchApart(data, next, end, sniPos, sniLen, pos);
          }
        } else {
          ExtSearchApart(data, next, end, sniPos, sniLen, echPos);
        }
      }
    }
  }

  /** A name that is found does not overlap the ECH extension. */
  lemma SearchApart(data: seq<Byte>)
    ensures var r := Search(data); r.Found? ==> Apart(r.sniPos, r.sniLen, r.echPos)
  {
    if 4 <= |data| && data[0] == 1 && WholeClientHello(data) && Extensions(data).Some? {
      ExtSearchApart(data, Extensions(data).value.0, Extensions(data).value.1, -1, 0, -1);
    }
  }

  // ---------------------------------------------------------------------------
  // The message (RFC 8446, section 4.1.2)
  // ---------------------------------------------------------------------------

  /** A vector of at most 255 bytes, behind its length. */
  function Vector8(v: seq<Byte>): (r: seq<Byte>)
    requires |v| < 256
    ensures |r| == 1 + |v|
  {
    [|v|] + v
  }

  /** A vector of at most 65535 bytes, behind its length. */
  function Vector16(v: seq<Byte>): (r: seq<Byte>)
    requires |v| < 65536
    ensures |r| == 2 + |v|
  {
    [|v| / 256, |v| % 256] + v
  }

  /** The parts of a ClientHello. */
  datatype Hello = Hello(version: seq<Byte>, random: seq<Byte>, session: seq<Byte>, ciphers: seq<Byte>,
                         compression: seq<Byte>, extensions: seq<Byte>)

  ghost predicate HelloOk(h: Hello) {
    && |h.version| == 2 && |h.random| == 32
    && |h.session| < 256 && |h.ciphers| < 65536 && |h.compression| < 256 && |h.extensions| < 65536
  }

  /** The length of what follows the header of the message. */
  ghost function BodyLen(h: Hello): nat {
    |h.version| + |h.random| + 1 + |h.session| + 2 + |h.ciphers| + 1 + |h.compression| + 2 + |h.extensions|
  }

  ghost function Header(n: nat): seq<Byte>
    requires n < 0x100_0000
  {
    [1, n / 65536, n / 256 % 256, n % 256]
  }

  /** The message up to its first vector, and then with each of the first three vectors. */
  ghost function Front(h: Hello): seq<Byte>
    requires HelloOk(h)
  {
    Header(BodyLen(h)) + h.version + h.random
  }

  ghost function Front1(h: Hello): seq<Byte>
    requires HelloOk(h)
  {
    Front(h) + Vector8(h.session)
  }

  ghost function Front2(h: Hello): seq<Byte>
    requires HelloOk(h)
  {
    Front1(h) + Vector16(h.ciphers)
  }

  ghost function Front3(h: Hello): seq<Byte>
    requires HelloOk(h)
  {
    Front2(h) + Vector8(h.compression)
  }

  /** The handshake message: type and length, version, random, session id, cipher suites, compression methods, extensions. */
  ghost function Message(h: Hello): seq<Byte>
    requires HelloOk(h)
  {
    Front3(h) + Vector16(h.extensions)
  }

  lemma SkipVector8(data: seq<Byte>, front: seq<Byte>, v: seq<Byte>)
    requires |v| < 256 && front + Vector8(v) <= data
    ensures SkipVector(data, |front|, 1) == Some(|front| + 1 + |v|)
  {
    assert data[|front|] == (front + Vector8(v))[|front|] == |v|;
  }

  lemma SkipVector16(data: seq<Byte>, front: seq<Byte>, v: seq<Byte>)
    requires |v| < 65536 && front + Vector16(v) <= data
    ensures SkipVector(data, |front|, 2) == Some(|front| + 2 + |v|)
  {
    var all := front + Vector16(v);
    assert data[|front|] == all[|front|] == |v| / 256;
    assert data[|front| + 1] == all[|front| + 1] == |v| % 256;
  }

  lemma HeaderLen(n: nat)
    requires n < 0x100_0000
    ensures n / 65536 * 65536 + n / 256 % 256 * 256 + n % 256 == n
  {
  }

  lemma MessageIsWhole(h: Hello)
    requires HelloOk(h)
    ensures |Message(h)| == 4 + BodyLen(h) && WholeClientHello(Message(h))
    ensures |Front(h)| == 38 && Front(h) <= Front1(h) <= Front2(h) <= Front3(h) <= Message(h)
  {
    hide Vector8, Vector16, BodyLen, Header;
    FrontLen(h);
    FrontWhole(Message(h), BodyLen(h));
  }

  lemma FrontLen(h: Hello)
    requires HelloOk(h)
    ensures |Message(h)| == 4 + BodyLen(h) && |Front(h)| == 38
    ensures Header(BodyLen(h)) <= Front(h) <= Front1(h) <= Front2(h) <= Front3(h) <= Message(h)
  {
    hide Vector8, Vector16;
  }

  lemma FrontWhole(m: seq<Byte>, n: nat)
    requires n < 0x100_0000 && Header(n) <= m && |m| == 4 + n
    ensures WholeClientHello(m)
  {
    HeaderLen(n);
    assert m[..4] == Header(n);
    assert m[0] == m[..4][0] && m[1] == m[..4][1] && m[2] == m[..4][2] && m[3] == m[..4][3];
  }

  /** The extensions of a message are what is in its last vector. */
  lemma ExtensionsOfMessage(h: Hello)
    requires HelloOk(h)
    ensures var m := Message(h);
      && WholeClientHello(m) && |h.extensions| <= |m| && m[|m| - |h.extensions|..] == h.extensions
      && Extensions(m) == Some((|m| - |h.extensions|, |m|))
  {
    hide SkipVector, Vector8, Vector16, Front;
    MessageIsWhole(h);
    var m := Message(h);
    SkipVector8(m, Front(h), h.session);
    SkipVector16(m, Front1(h), h.ciphers);
    SkipVector8(m, Front2(h), h.compression);
    SkipVector16(m, Front3(h), h.extensions);
    LastVector(m, Front3(h), h.extensions);
  }

  lemma LastVector(m: seq<Byte>, front: seq<Byte>, v: seq<Byte>)
    requires |v| < 65536 && m == front + Vector16(v)
    ensures |m| == |front| + 2 + |v| && m[|m| - |v|..] == v
  {
  }

  lemma SearchOfMessage(h: Hello)
    requires HelloOk(h)
    ensures var m := Message(h);
      |h.extensions| <= |m| && Search(m) == ExtSearch(m, |m| - |h.extensions|, |m|, -1, 0, -1)
  {
    hide Message, ExtSearch, Extensions;
    ExtensionsOfMessage(h);
  }

  // ---------------------------------------------------------------------------
  // Completeness: what is there is found
  // ---------------------------------------------------------------------------

  /** A server name: its type and its bytes. */
  datatype Name = Name(typ: Byte, name: seq<Byte>)

  /** An extension. Other stands for every type but the two that are searched. */
  datatype Ext = SniExt(names: seq<Name>) | EchExt | OtherExt

  /** data[lo..hi] holds these names, one behind the other. */
  ghost predicate NamesAt(data: seq<Byte>, lo: nat, hi: nat, names: seq<Name>)
    decreases |names|
  {
    hi <= |data| &&
    if names == [] then lo == hi
    else
      var next := lo + 3 + |names[0].name|;
      && next <= hi
      && data[lo] == names[0].typ && Uint16(data, lo + 1) == |names[0].name|
      && data[lo + 3..next] == names[0].name
      && NamesAt(data, next, hi, names[1..])
  }

  /** data[lo..hi] holds these extensions, one behind the other. */
  ghost predicate ExtsAt(data: seq<Byte>, lo: nat, hi: nat, exts: seq<Ext>)
    decreases |exts|
  {
    hi <= |data| &&
    if exts == [] then lo == hi
    else
      && lo + 4 <= hi
      && var len := Uint16(data, lo + 2);
      var next := lo + 4 + len;
      && next <= hi
      && (match exts[0]
          case SniExt(names) => && Uint16(data, lo) == EXT_TYPE_SNI
                                && 2 <= len && Uint16(data, lo + 4) == len - 2
                                && NamesAt(data, lo + 6, next, names)
          case EchExt => Uint16(data, lo) == EXT_TYPE_ECH
          case OtherExt => Uint16(data, lo) != EXT_TYPE_SNI && Uint16(data, lo) != EXT_TYPE_ECH)
      && ExtsAt(data, next, hi, exts[1..])
  }

  ghost predicate NoHostName(names: seq<Name>) {
    forall i :: 0 <= i < |names| ==> names[i].typ != 0
  }

  /** At most one extension of each searched type (RFC 8446, section 4.2). */
  ghost predicate NoneOf(exts: seq<Ext>, sni: bool, ech: bool) {
    forall i :: 0 <= i < |exts| ==> !(sni && exts[i].SniExt?) && !(ech && exts[i].EchExt?)
  }

  /** The first host name of a list is found, with its bytes. */
  lemma {:induction false} NameSearchFinds(data: seq<Byte>, lo: nat, hi: nat, len: nat, pre: seq<Name>, host: seq<Byte>, post: seq<Name>)
    requires lo <= hi && NamesAt(data, lo, hi, pre + [Name(0, host)] + post) && NoHostName(pre)
    ensures var r := NameSearch(data, lo, hi, len);
      && r.Some? && r.value.1 == |host|
      && lo < r.value.0 && r.value.0 + |host| <= hi
      && data[r.value.0..r.value.0 + |host|] == host
    decreases |pre|
  {
    var names := pre + [Name(0, host)] + post;
    if pre != [] {
      assert names[0] == pre[0];
      assert names[1..] == pre[1..] + [Name(0, host)] + post;
      NameSearchFinds(data, lo + 3 + |pre[0].name|, hi, |pre[0].name|, pre[1..], host, post);
    } else {
      assert names[0] == Name(0, host);
    }
  }

  /** Once the host name is found, only an ECH extension can still be added to the result. */
  lemma {:induction false} ExtSearchKeepsName(data: seq<Byte>, pos: nat, end: nat, sniPos: int, sniLen: nat, echPos: int, exts: seq<Ext>)
    requires pos <= end && ExtsAt(data, pos, end, exts) && sniPos != -1
    requires NoneOf(exts, true, echPos != -1)
    requires forall i, j :: 0 <= i < j < |exts| ==> !(exts[i].EchExt? && exts[j].EchExt?)
    ensures var r := ExtSearch(data, pos, end, sniPos, sniLen, echPos);
      && r.Found? && r.sniPos == sniPos && r.sniLen == sniLen
      && (r.echPos != -1 <==> echPos != -1 || EchExt in exts)
    decreases |exts|
  {
    if exts != [] && echPos == -1 {
      var next := pos + 4 + Uint16(data, pos + 2);
      assert exts == [exts[0]] + exts[1..];
      if exts[0].EchExt? {
        assert forall i :: 0 <= i < |exts[1..]| ==> exts[1..][i] == exts[i + 1];
        ExtSearchKeepsName(data, next, end, sniPos, sniLen, pos, exts[1..]);
      } else {
        ExtSearchKeepsName(data, next, end, sniPos, sniLen, echPos, exts[1..]);
      }
    }
  }

  lemma RestOfExts(first: Ext, rest: seq<Ext>, ech: bool)
    requires NoneOf([first] + rest, true, ech)
    requires forall i, j :: 0 <= i < j < |[first] + rest| ==> !(([first] + rest)[i].EchExt? && ([first] + rest)[j].EchExt?)
    ensures !first.SniExt? && !(ech && first.EchExt?) && NoneOf(rest, true, ech || first.EchExt?)
    ensures forall i, j :: 0 <= i < j < |rest| ==> !(rest[i].EchExt? && rest[j].EchExt?)
    ensures EchExt in [first] + rest <==> first.EchExt? || EchExt in rest
  {
    var exts := [first] + rest;
    assert exts[0] == first;
    assert forall i :: 0 <= i < |rest| ==> exts[i + 1] == rest[i];
  }

  /**
   * In a ClientHello with at most one SNI and one ECH extension, the search reports the first
   * host name, and reports an ECH position exactly if there is an ECH extension.
   */
  lemma {:induction false} ExtSearchFinds(
    data: seq<Byte>, pos: nat, end: nat, sniLen: nat, echPos: int,
    before: seq<Ext>, pre: seq<Name>, host: seq<Byte>, post: seq<Name>, behind: seq<Ext>)
    requires pos <= end && ExtsAt(data, pos, end, before + [SniExt(pre + [Name(0, host)] + post)] + behind)
    requires NoHostName(pre) && NoneOf(before + behind, true, echPos != -1)
    requires forall i, j :: 0 <= i < j < |before + behind| ==> !((before + behind)[i].EchExt? && (before + behind)[j].EchExt?)
    ensures var r := ExtSearch(data, pos, end, -1, sniLen, echPos);
      && r.Found? && r.sniLen == |host|
      && 0 <= r.sniPos && r.sniPos + |host| <= |data| && data[r.sniPos..r.sniPos + |host|] == host
      && (r.echPos != -1 <==> echPos != -1 || EchExt in before + behind)
    decreases |before|
  {
    hide NamesAt, NameSearch, NoHostName, NoneOf;
    var names := pre + [Name(0, host)] + post;
    var exts := before + [SniExt(names)] + behind;
    var next := pos + 4 + Uint16(data, pos + 2);
    if before == [] {
      assert exts[0] == SniExt(names) && exts[1..] == behind;
      assert before + behind == behind;
      NameSearchFinds(data, pos + 6, next, sniLen, pre, host, post);
      var name := NameSearch(data, pos + 6, next, sniLen).value;
      ExtSearchKeepsName(data, next, end, name.0, name.1, echPos, behind);
    } else {
      var rest := before[1..] + behind;
      assert exts[0] == before[0] && exts[1..] == before[1..] + [SniExt(names)] + behind;
      assert before + behind == [before[0]] + rest;
      RestOfExts(before[0], rest, echPos != -1);
      ExtSearchFinds(data, next, end, sniLen, if before[0].EchExt? then pos else echPos, before[1..], pre, host, post, behind);
    }
  }
}
