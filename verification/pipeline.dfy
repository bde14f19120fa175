/** parse_ip_dns: from a raw IP packet to the DNS answer it carries, with
    the fixed 8-byte UDP header skipped and neither port nor QR bit checked. */
module Pipeline {
  import opened Bytes
  import opened Ip
  import opened DnsName
  import opened Dns

  /** The IP protocol number of UDP. */
  const ProtocolUdp: byte := 17
  /** Length of the UDP header (section "Format" of RFC 768). */
  const UdpHeader: nat := 8

  /** The range of the C `unsigned`. */
  const U32Limit: nat := 0x1_0000_0000

  /** `offset + 8` in the unsigned 32-bit arithmetic of parse_ip_dns: where
      the DNS message starts. For a transport offset within 8 bytes of 4 GiB
      the sum wraps to a small offset inside the IP header. */
  function DnsStart(offset: nat): (start: nat)
    requires offset < U32Limit
    ensures offset + UdpHeader < U32Limit ==> start == offset + UdpHeader
    ensures offset + UdpHeader >= U32Limit ==> start == offset + UdpHeader - U32Limit < UdpHeader
  {
    (offset + UdpHeader) % U32Limit
  }

  /** Both cases of `DnsStart` at once, for proofs that keep it folded. */
  lemma DnsStartBounds(offset: nat)
    requires offset < U32Limit
    ensures offset + UdpHeader < U32Limit ==> DnsStart(offset) == offset + UdpHeader
    ensures offset + UdpHeader >= U32Limit ==> DnsStart(offset) == offset + UdpHeader - U32Limit
  {
  }

  /** parse_ip_dns goes on to parse_dns: the packet carries UDP and the
      (wrapped) start of the DNS message lies inside it. */
  predicate CarriesDns(buf: seq<byte>)
    requires |buf| < U32Limit
  {
    ParseIp(buf).Transport? && ParseIp(buf).protocol == ProtocolUdp
    && DnsStart(ParseIp(buf).offset) < |buf|
  }

  /** parse_ip_dns. `prior` is what the caller's dns_info held before the
      call: the early exits return 0 without touching it. */
  function ParseIpDns(buf: seq<byte>, prior: DnsInfo, fuel: nat): (r: DnsOutcome)
    requires |buf| < U32Limit
    ensures !CarriesDns(buf) ==> r == Returned(0, prior)
    ensures CarriesDns(buf) ==> Ipv4MinHeader + UdpHeader < |buf|
    ensures r.Returned? && r.code == 1 ==>
              CarriesDns(buf) && ValidInfo(r.info) && r.info.name != [] && |r.info.entries| > 0
    ensures r.Returned? ==> r.code == 0 || r.code == 1
    ensures r.Returned? && r.info != prior ==> CarriesDns(buf) && ValidInfo(r.info)
  {
    match ParseIp(buf)
    case IpFailed => Returned(0, prior)
    case Transport(offset, protocol) =>
      if protocol != ProtocolUdp then Returned(0, prior)
      else if DnsStart(offset) >= |buf| then Returned(0, prior)
      else ParseDns(buf[DnsStart(offset)..], fuel)
  }

  /** Once the IP and UDP headers are skipped, the outcome is parse_dns's on
      the rest of the packet. */
  lemma ParseIpDnsDelegates(buf: seq<byte>, prior: DnsInfo, fuel: nat)
    requires |buf| < U32Limit && CarriesDns(buf)
    ensures ParseIpDns(buf, prior, fuel) == ParseDns(buf[DnsStart(ParseIp(buf).offset)..], fuel)
    ensures ParseIp(buf).offset + UdpHeader < U32Limit ==>
              ParseIpDns(buf, prior, fuel) == ParseDns(buf[ParseIp(buf).offset + UdpHeader..], fuel)
  {
    // For solver speed only: keep these bodies folded; the lemmas called below state what is used.
    hide ParseIp, ParseDns, DnsStart;
    DnsStartBounds(ParseIp(buf).offset);
  }

  /** When `offset + 8` wraps, the check `offset + 8 >= buflen` passes and
      parse_dns runs on the packet from a wrapped offset below 8, which
      lies inside the IP header. */
  lemma ParseIpDnsWraps(buf: seq<byte>, prior: DnsInfo, fuel: nat)
    requires |buf| < U32Limit
    requires ParseIp(buf).Transport? && ParseIp(buf).protocol == ProtocolUdp
    requires ParseIp(buf).offset + UdpHeader >= U32Limit
    ensures CarriesDns(buf)
    ensures ParseIpDns(buf, prior, fuel) == ParseDns(buf[ParseIp(buf).offset + UdpHeader - U32Limit..], fuel)
  {
    // For solver speed only: keep these bodies folded; the lemmas called below state what is used.
    hide ParseIp, ParseDns, DnsStart;
    DnsStartBounds(ParseIp(buf).offset);
  }

  /** An IPv4 packet with a 20-byte header naming UDP, any 8-byte UDP
      header and a non-empty message is parsed as that message, whatever
      the ports. */
  lemma ParseUdp4Packet(ipHeader: seq<byte>, udp: seq<byte>, msg: seq<byte>, prior: DnsInfo, fuel: nat)
    requires |ipHeader| == Ipv4MinHeader && ipHeader[0] == 0x45 && ipHeader[9] == ProtocolUdp
    requires |udp| == UdpHeader && |msg| > 0
    requires |ipHeader + udp + msg| < U32Limit
    ensures ParseIpDns(ipHeader + udp + msg, prior, fuel) == ParseDns(msg, fuel)
  {
    var buf := ipHeader + udp + msg;
    assert buf[0] == 0x45 && buf[9] == ProtocolUdp;
    assert Version(0x45) == 4 && Ipv4HeaderLength(0x45) == Ipv4MinHeader;
    assert buf[Ipv4MinHeader + UdpHeader..] == msg;
  }

  /** `SufficientFuel` of the packet decides parse_ip_dns as it decides
      parse_dns on the message inside: a result returned at any fuel is the
      one returned there, divergence there is divergence at every fuel, and
      more fuel changes nothing. */
  lemma ParseIpDnsSettles(buf: seq<byte>, prior: DnsInfo, fuel: nat)
    requires |buf| < U32Limit
    ensures ParseIpDns(buf, prior, fuel).Returned? ==>
              ParseIpDns(buf, prior, fuel) == ParseIpDns(buf, prior, SufficientFuel(|buf|))
    ensures ParseIpDns(buf, prior, SufficientFuel(|buf|)).DnsDiverges? ==>
              ParseIpDns(buf, prior, fuel).DnsDiverges?
    ensures fuel >= SufficientFuel(|buf|) ==>
              ParseIpDns(buf, prior, fuel) == ParseIpDns(buf, prior, SufficientFuel(|buf|))
  {
    if CarriesDns(buf) {
      var msg := buf[DnsStart(ParseIp(buf).offset)..];
      var sf := SufficientFuel(|buf|);
      assert SufficientFuel(|msg|) <= sf;
      ParseDnsSettles(msg, fuel);
      ParseDnsSettles(msg, sf);
    }
  }

  /** A packet that is not UDP leaves the result alone. */
  lemma NonUdpIgnored(buf: seq<byte>, prior: DnsInfo, fuel: nat)
    requires |buf| < U32Limit
    requires ParseIp(buf).Transport? && ParseIp(buf).protocol != ProtocolUdp
    ensures ParseIpDns(buf, prior, fuel) == Returned(0, prior)
  {
  }

  // ---------------------------------------------------------------------
  // The response of the A-query regression test.

  /** The IPv4 header of the test packet: IHL 5, protocol 17, from 8.8.8.8. */
  const QueryAIpHeader: seq<byte> := [
    0x45, 0x00, 0x00, 0x49, 0xc7, 0xa0, 0x00, 0x00, 0x30, 0x11, 0xa8, 0xe9,
    0x08, 0x08, 0x08, 0x08, 0x0a, 0x09, 0x00, 0x02]

  /** Its UDP header: source port 53. */
  const QueryAUdpHeader: seq<byte> := [0x00, 0x35, 0xd0, 0xb2, 0x00, 0x35, 0x9b, 0x1d]

  /** The DNS header: a response with QDCOUNT 1 and ANCOUNT 1. */
  const QueryADnsHeader: seq<byte> := [
    0x77, 0x2c, 0x81, 0x80, 0x00, 0x01, 0x00, 0x01, 0x00, 0x00, 0x00, 0x00]

  /** The question: example.com, type A, class IN. */
  const QueryAQuestion: seq<byte> := [
    0x07, 0x65, 0x78, 0x61, 0x6d, 0x70, 0x6c, 0x65, 0x03, 0x63, 0x6f, 0x6d, 0x00,
    0x00, 0x01, 0x00, 0x01]

  /** The answer: a pointer to the question's name, type A, class IN, a TTL,
      RDLENGTH 4 and the address. */
  const QueryAAnswer: seq<byte> := [
    0xc0, 0x0c, 0x00, 0x01, 0x00, 0x01, 0x00, 0x00, 0x52, 0xc4, 0x00, 0x04,
    0x5d, 0xb8, 0xd8, 0x22]

  /** The DNS message the test packet carries. */
  const QueryAMessage: seq<byte> := QueryADnsHeader + QueryAQuestion + QueryAAnswer

  /** The 73-byte IPv4/UDP response of the A-query regression test. */
  const QueryAPacket: seq<byte> := QueryAIpHeader + QueryAUdpHeader + QueryAMessage

  /** The labels `example` and `com`. */
  const ExampleCom: seq<seq<byte>> :=
    [[0x65, 0x78, 0x61, 0x6d, 0x70, 0x6c, 0x65], [0x63, 0x6f, 0x6d]]

  /** The address 93.184.216.34. */
  const ExampleAddress: Ip4Bytes := [0x5d, 0xb8, 0xd8, 0x22]

  lemma ExampleComText()
    ensures ValidLabels(ExampleCom) && NulFreeLabels(ExampleCom)
    ensures Join(ExampleCom) == [0x65, 0x78, 0x61, 0x6d, 0x70, 0x6c, 0x65, 0x2e, 0x63, 0x6f, 0x6d]
    ensures |Dotted(ExampleCom)| == 12
    ensures EncodeName(ExampleCom)
            == [0x07, 0x65, 0x78, 0x61, 0x6d, 0x70, 0x6c, 0x65, 0x03, 0x63, 0x6f, 0x6d, 0x00]
  {
    assert ExampleCom[1..][1..] == [];
    assert ExampleCom[1..] == [ExampleCom[1]];
  }

  /** The question is the encoded entry (example.com, A, IN). */
  lemma QueryAQuestionEncoded()
    ensures ValidLabels(ExampleCom)
    ensures QueryAQuestion == EncodeEntry(ExampleCom, TypeA, ClassIn)
  {
    ExampleComText();
    assert Be16Bytes(1) == [0x00, 0x01];
  }

  /** The answer is a pointer to offset 12, type A, class IN, a TTL, then
      RDLENGTH 4 and the address. */
  lemma QueryAAnswerLayout()
    ensures At(QueryAMessage, 29, EncodePointer(12) + Be16Bytes(TypeA) + Be16Bytes(ClassIn))
    ensures At(QueryAMessage, 39, Be16Bytes(4))
    ensures At(QueryAMessage, 41, ExampleAddress)
  {
    var m := QueryAMessage;
    assert Be16Bytes(1) == [0x00, 0x01];
    assert Be16Bytes(4) == [0x00, 0x04];
    assert EncodePointer(12) == [0xc0, 0x0c];
    assert m[29..35] == QueryAAnswer[..6];
    assert m[39..41] == QueryAAnswer[10..12];
    assert m[41..45] == QueryAAnswer[12..];
  }

  /** Where the parts of the test message lie. */
  lemma QueryAMessageLayout()
    ensures |QueryAMessage| == 45
    ensures Be16At(QueryAMessage, 4) == 1 && Be16At(QueryAMessage, 6) == 1
    ensures At(QueryAMessage, 12, QueryAQuestion)
    ensures At(QueryAMessage, 29, QueryAAnswer)
  {
    var m := QueryAMessage;
    assert m[4] == 0 && m[5] == 1 && m[6] == 0 && m[7] == 1;
    AtAppend(QueryADnsHeader + QueryAQuestion, QueryAAnswer);
    AtConcat(m, 0, QueryADnsHeader, QueryAQuestion);
  }

  /** The answer record of the test message reads as an A record carrying
      the address. */
  lemma QueryAAnswerRead(fuel: nat)
    requires fuel >= 3
    ensures ReadAnswer(QueryAMessage, 29, fuel) == ReadRecord(TypeA, ExampleAddress, 45)
  {
    var m := QueryAMessage;
    QueryAMessageLayout();
    QueryAQuestionEncoded();
    ExampleComText();
    QueryAAnswerLayout();
    AtConcat(m, 12, EncodeName(ExampleCom), Be16Bytes(TypeA) + Be16Bytes(ClassIn));
    ReadPointerAnswer(m, 29, 12, ExampleCom, TypeA, ExampleAddress, fuel);
  }

  /** parse_dns on the test message: the name example.com and one IPv4 address. */
  lemma QueryAMessageParses(fuel: nat)
    requires fuel >= 3
    ensures ParseDns(QueryAMessage, fuel)
            == Returned(1, DnsInfo(Join(ExampleCom), [V4(ExampleAddress)]))
  {
    var m := QueryAMessage;
    QueryAMessageLayout();
    QueryAQuestionEncoded();
    ExampleComText();
    ParseEncodedEntry(m, 12, ExampleCom, TypeA, ClassIn, fuel);
    var q := Entry(17, Join(ExampleCom), TypeA, ClassIn);
    assert ParseEntry(m, 12, fuel) == EntryParsed(q);
    QueryAAnswerRead(fuel);
    AnswerLoopStep(m, 29, 1, [], fuel, TypeA, ExampleAddress, 45);
    assert ParseRdata(ExampleAddress, TypeA, []) == [V4(ExampleAddress)];
    ParseDnsAccepts(m, fuel, q, [V4(ExampleAddress)]);
  }

  /** parse_ip_dns on the test packet returns 1 with the name
      `example.com` and the single IPv4 address 93.184.216.34. */
  lemma QueryAPacketParses(prior: DnsInfo, fuel: nat)
    requires fuel >= 3
    ensures ParseIpDns(QueryAPacket, prior, fuel)
            == Returned(1, DnsInfo(Join(ExampleCom), [V4(ExampleAddress)]))
    ensures Join(ExampleCom) == [0x65, 0x78, 0x61, 0x6d, 0x70, 0x6c, 0x65, 0x2e, 0x63, 0x6f, 0x6d]
  {
    assert QueryAIpHeader[0] == 0x45 && QueryAIpHeader[9] == ProtocolUdp;
    ParseUdp4Packet(QueryAIpHeader, QueryAUdpHeader, QueryAMessage, prior, fuel);
    QueryAMessageParses(fuel);
    ExampleComText();
  }
}
