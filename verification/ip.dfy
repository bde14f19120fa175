/** The IP layer parser of ip.c: finds where the transport payload of an IPv4
    or IPv6 packet starts and which transport protocol it carries. */
module Ip {
  import opened Bytes

  /** Shortest IPv4 header (five 32-bit words, section 3.1 of RFC 791). */
  const Ipv4MinHeader: nat := 20
  /** Length of the fixed IPv6 header (section 3 of RFC 8200). */
  const Ipv6Header: nat := 40
  /** Smallest step the extension walk takes: the header length is `8 + buf[offset + 1]`. */
  const ExtensionBase: nat := 8

  /** Next-header values that parse_ip skips as IPv6 extension headers:
      hop-by-hop, routing, fragment, ESP, AH, destination options, mobility,
      HIP, Shim6 and the two experimental codepoints. */
  const ExtensionTypes: set<byte> := {0, 43, 44, 50, 51, 60, 135, 139, 140, 253, 254}

  /** Where the transport header starts and its protocol number; `IpFailed`
      is the C return value 0. */
  datatype IpResult = IpFailed | Transport(offset: nat, protocol: byte)

  /** The value parse_ip returns: the transport offset, or 0 on failure. */
  function ReturnedOffset(r: IpResult): nat
  {
    match r
    case IpFailed => 0
    case Transport(offset, _) => offset
  }

  /** The IP version: the high nibble of the first octet. */
  function Version(b: byte): nat
  {
    b as nat / 16
  }

  /** The IPv4 header length in bytes: the low nibble of the first octet
      counts 32-bit words. */
  function Ipv4HeaderLength(b: byte): nat
  {
    b as nat % 16 * 4
  }

  /** The two nibbles as parse_ip extracts them, `buf[0] >> 4` and `buf[0] & 0xf`. */
  lemma NibbleBits(x: bv8)
    ensures Version(x as byte) == (x >> 4) as nat
    ensures Ipv4HeaderLength(x as byte) == (x & 0xF) as nat * 4
  {
  }

  /** The switch of is_ipv6_extension_header_type. */
  function IsExtensionHeaderType(t: byte): (r: bool)
    ensures r <==> t in ExtensionTypes
  {
    match t
    case 0 => true
    case 43 => true
    case 44 => true
    case 50 => true
    case 51 => true
    case 60 => true
    case 135 => true
    case 139 => true
    case 140 => true
    case 253 => true
    case 254 => true
    case _ => false
  }

  /** The IPv6 extension-header walk of parse_ip, from `offset` with the
      pending next-header value `next`. Each step needs more than two bytes
      left, skips `8 + buf[offset + 1]` bytes and must leave at least one byte
      after the skipped header. */
  function SkipExtensions(buf: seq<byte>, offset: nat, next: byte): (r: IpResult)
    requires offset < |buf|
    ensures r.Transport? ==> offset <= r.offset < |buf| && r.protocol !in ExtensionTypes
    ensures next !in ExtensionTypes ==> r == Transport(offset, next)
    ensures r.Transport? && next in ExtensionTypes ==> offset + ExtensionBase <= r.offset
    decreases |buf| - offset
  {
    if !IsExtensionHeaderType(next) then Transport(offset, next)
    else if |buf| - offset <= 2 then IpFailed
    else
      var headerLength := ExtensionBase + buf[offset + 1] as nat;
      if |buf| - offset <= headerLength then IpFailed
      else SkipExtensions(buf, offset + headerLength, buf[offset])
  }

  /** parse_ip: the transport offset and protocol of the packet in `buf`. */
  function ParseIp(buf: seq<byte>): (r: IpResult)
    requires |buf| < 0x1_0000_0000
    ensures r.Transport? ==> Ipv4MinHeader <= r.offset < |buf|
    ensures |buf| == 0 ==> r == IpFailed
    ensures |buf| > 0 && Version(buf[0]) != 4 && Version(buf[0]) != 6 ==> r == IpFailed
    ensures |buf| > 0 && Version(buf[0]) == 4 ==>
              (r.Transport? <==> Ipv4MinHeader <= Ipv4HeaderLength(buf[0]) < |buf|)
    ensures r.Transport? && Version(buf[0]) == 4 ==>
              r.offset == Ipv4HeaderLength(buf[0]) && r.protocol == buf[9]
    ensures |buf| > 0 && Version(buf[0]) == 6 && |buf| <= Ipv6Header ==> r == IpFailed
    ensures r.Transport? && Version(buf[0]) == 6 ==>
              Ipv6Header <= r.offset && r.protocol !in ExtensionTypes
  {
    if |buf| == 0 then IpFailed
    else if Version(buf[0]) == 4 then
      var size := Ipv4HeaderLength(buf[0]);
      if size < Ipv4MinHeader || size >= |buf| then IpFailed
      else Transport(size, buf[9])
    else if Version(buf[0]) == 6 then
      if |buf| <= Ipv6Header then IpFailed
      else SkipExtensions(buf, Ipv6Header, buf[6])
    else IpFailed
  }

  /** Success is never confused with the failure sentinel 0. */
  lemma ReturnedOffsetSentinel(buf: seq<byte>)
    requires |buf| < 0x1_0000_0000
    ensures ReturnedOffset(ParseIp(buf)) == 0 <==> ParseIp(buf) == IpFailed
  {
  }

  // ---------------------------------------------------------------------
  // Reference definition of an IPv6 extension chain, built forwards.

  /** One extension header as parse_ip reads it: next-header octet, length
      octet, and the `6 + hdrLen` further octets it skips. */
  datatype ExtHeader = ExtHeader(next: byte, hdrLen: byte, body: seq<byte>)

  predicate WellFormedExt(e: ExtHeader)
  {
    |e.body| == 6 + e.hdrLen as nat
  }

  function EncodeExt(e: ExtHeader): (b: seq<byte>)
    requires WellFormedExt(e)
    ensures |b| == ExtensionBase + e.hdrLen as nat
  {
    [e.next, e.hdrLen] + e.body
  }

  function EncodeChain(es: seq<ExtHeader>): (b: seq<byte>)
    requires forall i :: 0 <= i < |es| ==> WellFormedExt(es[i])
  {
    if |es| == 0 then [] else EncodeExt(es[0]) + EncodeChain(es[1..])
  }

  /** `first` and the next-header fields of `es` name extension headers
      exactly up to the last one, whose next-header field does not. */
  predicate Chain(first: byte, es: seq<ExtHeader>)
    decreases |es|
  {
    if |es| == 0 then first !in ExtensionTypes
    else first in ExtensionTypes && Chain(es[0].next, es[1..])
  }

  /** The protocol that follows the chain. */
  function FinalProtocol(first: byte, es: seq<ExtHeader>): byte
    decreases |es|
  {
    if |es| == 0 then first else FinalProtocol(es[0].next, es[1..])
  }

  /** One step of the walk over an extension header that fits. */
  lemma SkipOneStep(buf: seq<byte>, offset: nat, first: byte)
    requires offset + 1 < |buf| && first in ExtensionTypes
    requires |buf| - offset > ExtensionBase + buf[offset + 1] as nat
    ensures SkipExtensions(buf, offset, first)
            == SkipExtensions(buf, offset + ExtensionBase + buf[offset + 1] as nat, buf[offset])
  {
  }

  /** The encoding of a non-empty chain starts with its first header. */
  lemma EncodedHead(buf: seq<byte>, offset: nat, es: seq<ExtHeader>, payload: seq<byte>)
    requires |es| > 0 && forall i :: 0 <= i < |es| ==> WellFormedExt(es[i])
    requires offset <= |buf| && buf[offset..] == EncodeChain(es) + payload
    ensures offset + |EncodeExt(es[0])| <= |buf|
    ensures buf[offset] == es[0].next && buf[offset + 1] == es[0].hdrLen
    ensures buf[offset + |EncodeExt(es[0])|..] == EncodeChain(es[1..]) + payload
  {
    var head := EncodeExt(es[0]);
    var rest := EncodeChain(es[1..]) + payload;
    var tail := buf[offset..];
    assert tail == head + rest;
    assert tail[0] == es[0].next && tail[1] == es[0].hdrLen;
    assert tail[|head|..] == rest;
  }

  /** An encoded chain followed by at least one payload byte is walked to
      its end, and the walk reports the protocol after the chain. */
  lemma {:induction false} SkipEncodedChain(buf: seq<byte>, offset: nat, first: byte,
                                            es: seq<ExtHeader>, payload: seq<byte>)
    requires forall i :: 0 <= i < |es| ==> WellFormedExt(es[i])
    requires offset <= |buf| && buf[offset..] == EncodeChain(es) + payload
    requires |payload| > 0
    requires Chain(first, es)
    ensures offset < |buf|
    ensures SkipExtensions(buf, offset, first)
            == Transport(offset + |EncodeChain(es)|, FinalProtocol(first, es))
    decreases |es|
  {
    hide SkipExtensions;
    if |es| == 0 {
      assert buf[offset..] == payload;
    } else {
      EncodedHead(buf, offset, es, payload);
      var next := offset + |EncodeExt(es[0])|;
      SkipOneStep(buf, offset, first);
      SkipEncodedChain(buf, next, es[0].next, es[1..], payload);
    }
  }

  /** A successful walk that starts at an extension header took one step over it. */
  lemma SkipSucceededStep(buf: seq<byte>, offset: nat, first: byte)
    requires offset < |buf| && first in ExtensionTypes
    requires SkipExtensions(buf, offset, first).Transport?
    ensures offset + 1 < |buf|
    ensures |buf| - offset > ExtensionBase + buf[offset + 1] as nat
    ensures SkipExtensions(buf, offset, first)
            == SkipExtensions(buf, offset + ExtensionBase + buf[offset + 1] as nat, buf[offset])
  {
  }

  lemma EncodeChainCons(e: ExtHeader, tail: seq<ExtHeader>)
    requires WellFormedExt(e) && forall i :: 0 <= i < |tail| ==> WellFormedExt(tail[i])
    ensures forall i :: 0 <= i < |[e] + tail| ==> WellFormedExt(([e] + tail)[i])
    ensures EncodeChain([e] + tail) == EncodeExt(e) + EncodeChain(tail)
  {
    assert ([e] + tail)[1..] == tail;
  }

  /** Conversely, every successful walk skipped an encoded chain. */
  lemma {:induction false} SkipExtensionsDecomposes(buf: seq<byte>, offset: nat, first: byte)
    returns (es: seq<ExtHeader>)
    requires offset < |buf|
    requires SkipExtensions(buf, offset, first).Transport?
    ensures forall i :: 0 <= i < |es| ==> WellFormedExt(es[i])
    ensures Chain(first, es)
    ensures SkipExtensions(buf, offset, first).offset == offset + |EncodeChain(es)|
    ensures buf[offset..SkipExtensions(buf, offset, first).offset] == EncodeChain(es)
    ensures SkipExtensions(buf, offset, first).protocol == FinalProtocol(first, es)
    decreases |buf| - offset
  {
    var r := SkipExtensions(buf, offset, first);
    if first !in ExtensionTypes {
      es := [];
    } else {
      SkipSucceededStep(buf, offset, first);
      var next := offset + ExtensionBase + buf[offset + 1] as nat;
      var e := ExtHeader(buf[offset], buf[offset + 1], buf[offset + 2..next]);
      assert EncodeExt(e) == buf[offset..next];
      var tail := SkipExtensionsDecomposes(buf, next, buf[offset]);
      EncodeChainCons(e, tail);
      es := [e] + tail;
      assert es[0] == e && es[1..] == tail;
      assert buf[offset..r.offset] == buf[offset..next] + buf[next..r.offset];
    }
  }

  /** A whole IPv6 packet: base header, encoded chain, non-empty payload. */
  lemma ParseIpv6Chain(base: seq<byte>, es: seq<ExtHeader>, payload: seq<byte>)
    requires |base| == Ipv6Header && Version(base[0]) == 6
    requires forall i :: 0 <= i < |es| ==> WellFormedExt(es[i])
    requires |payload| > 0 && Chain(base[6], es)
    requires |base + EncodeChain(es) + payload| < 0x1_0000_0000
    ensures ParseIp(base + EncodeChain(es) + payload)
            == Transport(Ipv6Header + |EncodeChain(es)|, FinalProtocol(base[6], es))
  {
    var buf := base + EncodeChain(es) + payload;
    assert buf[Ipv6Header..] == EncodeChain(es) + payload;
    assert buf[0] == base[0] && buf[6] == base[6];
    SkipEncodedChain(buf, Ipv6Header, base[6], es, payload);
  }
}
