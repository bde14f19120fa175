/** The DNS message parser of dns.c: header (section 4.1.1 of RFC 1035),
    name/type/class entries (sections 4.1.2-4.1.3), A and AAAA RDATA
    (section 3.4.1 of RFC 1035, section 2.2 of RFC 3596), the best-effort
    answer loop and parse_dns. */
module Dns {
  import opened Bytes
  import opened DnsName

  /** Length of the fixed DNS header. */
  const HeaderLength: nat := 12
  /** The Internet class (DNS_CLASS_IN). */
  const ClassIn: nat := 1
  const TypeA: nat := 1
  const TypeAaaa: nat := 28
  /** Capacity of the address list (DNS_MAX_ENTRIES). */
  const MaxEntries: nat := 16
  /** TTL and RDLENGTH after a record's type and class. */
  const TtlLength: nat := 4
  const RdLengthLength: nat := 2

  // ---------------------------------------------------------------------
  // Header.

  datatype Header = Header(id: nat, flags: nat, qdcount: nat, ancount: nat,
                           nscount: nat, arcount: nat)

  predicate ValidHeader(h: Header)
  {
    h.id < U16Limit && h.flags < U16Limit && h.qdcount < U16Limit
    && h.ancount < U16Limit && h.nscount < U16Limit && h.arcount < U16Limit
  }

  /** parse_header: six big-endian 16-bit fields from the first 12 bytes. */
  function ParseHeader(buf: seq<byte>): (h: Header)
    requires |buf| >= HeaderLength
    ensures ValidHeader(h)
  {
    Header(Be16At(buf, 0), Be16At(buf, 2), Be16At(buf, 4),
           Be16At(buf, 6), Be16At(buf, 8), Be16At(buf, 10))
  }

  /** The wire form of a header. */
  function EncodeHeader(h: Header): (b: seq<byte>)
    requires ValidHeader(h)
    ensures |b| == HeaderLength
  {
    Be16Bytes(h.id) + Be16Bytes(h.flags) + Be16Bytes(h.qdcount)
    + Be16Bytes(h.ancount) + Be16Bytes(h.nscount) + Be16Bytes(h.arcount)
  }

  /** A header held at the start of a buffer is read back field by field. */
  lemma HeaderAt(buf: seq<byte>, h: Header)
    requires ValidHeader(h) && At(buf, 0, EncodeHeader(h))
    ensures |buf| >= HeaderLength && ParseHeader(buf) == h
  {
    AtConcat(buf, 0, Be16Bytes(h.id) + Be16Bytes(h.flags) + Be16Bytes(h.qdcount)
                     + Be16Bytes(h.ancount) + Be16Bytes(h.nscount), Be16Bytes(h.arcount));
    AtConcat(buf, 0, Be16Bytes(h.id) + Be16Bytes(h.flags) + Be16Bytes(h.qdcount)
                     + Be16Bytes(h.ancount), Be16Bytes(h.nscount));
    AtConcat(buf, 0, Be16Bytes(h.id) + Be16Bytes(h.flags) + Be16Bytes(h.qdcount), Be16Bytes(h.ancount));
    AtConcat(buf, 0, Be16Bytes(h.id) + Be16Bytes(h.flags), Be16Bytes(h.qdcount));
    AtConcat(buf, 0, Be16Bytes(h.id), Be16Bytes(h.flags));
    AtBe16(buf, 0, h.id);
    AtBe16(buf, 2, h.flags);
    AtBe16(buf, 4, h.qdcount);
    AtBe16(buf, 6, h.ancount);
    AtBe16(buf, 8, h.nscount);
    AtBe16(buf, 10, h.arcount);
  }

  lemma HeaderRoundTrip(h: Header)
    requires ValidHeader(h)
    ensures ParseHeader(EncodeHeader(h)) == h
  {
    var b := EncodeHeader(h);
    assert b[0..|b|] == b;
    HeaderAt(b, h);
  }

  lemma HeaderEncoding(buf: seq<byte>)
    requires |buf| >= HeaderLength
    ensures EncodeHeader(ParseHeader(buf)) == buf[..HeaderLength]
  {
    Be16Encoding(buf, 0);
    Be16Encoding(buf, 2);
    Be16Encoding(buf, 4);
    Be16Encoding(buf, 6);
    Be16Encoding(buf, 8);
    Be16Encoding(buf, 10);
    assert buf[..HeaderLength] == buf[0..2] + buf[2..4] + buf[4..6] + buf[6..8] + buf[8..10] + buf[10..12];
  }

  // ---------------------------------------------------------------------
  // Addresses and the result structure (struct address, struct dns_info).

  type Ip4Bytes = s: seq<byte> | |s| == 4 witness [0, 0, 0, 0]
  type Ip6Bytes = s: seq<byte> | |s| == 16 witness [0, 0, 0, 0, 0, 0, 0, 0, 0, 0, 0, 0, 0, 0, 0, 0]

  /** An address in network byte order, tagged by family. */
  datatype Address = V4(ip4: Ip4Bytes) | V6(ip6: Ip6Bytes)

  /** The queried name (without terminator) and the addresses collected,
      oldest first; `count` is the length of `entries`. */
  datatype DnsInfo = DnsInfo(name: seq<byte>, entries: seq<Address>)

  /** What a dns_info can hold: a NUL-free name that fits in 256 bytes with
      its terminator, and at most 16 addresses. */
  predicate ValidInfo(info: DnsInfo)
  {
    |info.name| < NameCapacity && 0 !in info.name && |info.entries| <= MaxEntries
  }

  /** The result after `memset(result, 0, sizeof(*result))`. */
  const ZeroInfo: DnsInfo := DnsInfo([], [])

  /** result_add: append one address; the caller keeps the count below 16. */
  function ResultAdd(entries: seq<Address>, a: Address): (r: seq<Address>)
    requires |entries| < MaxEntries
    ensures |r| == |entries| + 1 <= MaxEntries
    ensures r[..|entries|] == entries && r[|entries|] == a
  {
    entries + [a]
  }

  // ---------------------------------------------------------------------
  // Entries: a name followed by type and class.

  datatype Entry = Entry(length: nat, name: seq<byte>, rtype: nat, rclass: nat)

  /** parse_entry: `EntryFailed` is the C return value 0. */
  datatype EntryOutcome = EntryFailed | EntryParsed(entry: Entry) | EntryDiverges

  /** parse_entry: decode the name, then require the 4 type/class bytes and
      at least one more byte after them. */
  function ParseEntry(buf: seq<byte>, offset: nat, fuel: nat): (r: EntryOutcome)
    ensures r.EntryDiverges? <==> ParseName(buf, offset, fuel).NameDiverges?
    ensures r.EntryParsed? <==>
              ParseName(buf, offset, fuel).NameDecoded?
              && offset + ParseName(buf, offset, fuel).wireLength + 4 < |buf|
    ensures r.EntryParsed? ==>
              r.entry.length == ParseName(buf, offset, fuel).wireLength + 4
              && r.entry.name == ParseName(buf, offset, fuel).name
              && offset + r.entry.length < |buf|
              && r.entry.rtype < U16Limit && r.entry.rclass < U16Limit
  {
    match ParseName(buf, offset, fuel)
    case NameDiverges => EntryDiverges
    case NameFailed => EntryFailed
    case NameDecoded(wire, name) =>
      if offset + wire + 4 >= |buf| then EntryFailed
      else EntryParsed(Entry(wire + 4, name, Be16At(buf, offset + wire), Be16At(buf, offset + wire + 2)))
  }

  /** The wire form of a name/type/class entry with an uncompressed name. */
  function EncodeEntry(labels: seq<seq<byte>>, rtype: nat, rclass: nat): (b: seq<byte>)
    requires ValidLabels(labels) && rtype < U16Limit && rclass < U16Limit
  {
    EncodeName(labels) + Be16Bytes(rtype) + Be16Bytes(rclass)
  }

  /** An encoded entry followed by at least one byte parses back to its
      text, type and class; with nothing after it, parse_entry rejects it. */
  lemma ParseEncodedEntry(buf: seq<byte>, offset: nat, labels: seq<seq<byte>>,
                          rtype: nat, rclass: nat, fuel: nat)
    requires ValidLabels(labels) && |labels| > 0 && NulFreeLabels(labels)
    requires |Join(labels)| < NameCapacity
    requires rtype < U16Limit && rclass < U16Limit
    requires At(buf, offset, EncodeEntry(labels, rtype, rclass))
    requires fuel >= |labels|
    ensures offset + |EncodeEntry(labels, rtype, rclass)| < |buf| ==>
              ParseEntry(buf, offset, fuel)
              == EntryParsed(Entry(|EncodeEntry(labels, rtype, rclass)|, Join(labels), rtype, rclass))
    ensures offset + |EncodeEntry(labels, rtype, rclass)| == |buf| ==>
              ParseEntry(buf, offset, fuel) == EntryFailed
  {
    // For solver speed only: keep these bodies folded; the lemmas called below state what is used.
    hide NameWalk, ParseName, ParseEntry;
    var name := EncodeName(labels);
    assert |EncodeEntry(labels, rtype, rclass)| == |name| + 4;
    AtConcat(buf, offset, name, Be16Bytes(rtype) + Be16Bytes(rclass));
    ParseEncodedName(buf, offset, labels, fuel);
    if offset + |name| + 4 < |buf| {
      EntryAfterName(buf, offset, fuel, |name|, Join(labels), rtype, rclass);
    }
  }

  /** Once the name has decoded, the entry is the name with the type and
      class that follow it. */
  lemma EntryAfterName(buf: seq<byte>, offset: nat, fuel: nat, wire: nat, name: seq<byte>,
                       rtype: nat, rclass: nat)
    requires ParseName(buf, offset, fuel) == NameDecoded(wire, name)
    requires rtype < U16Limit && rclass < U16Limit
    requires At(buf, offset + wire, Be16Bytes(rtype) + Be16Bytes(rclass))
    requires offset + wire + 4 < |buf|
    ensures ParseEntry(buf, offset, fuel) == EntryParsed(Entry(wire + 4, name, rtype, rclass))
  {
    hide NameWalk;
    AtConcat(buf, offset + wire, Be16Bytes(rtype), Be16Bytes(rclass));
    AtBe16(buf, offset + wire, rtype);
    AtBe16(buf, offset + wire + 2, rclass);
  }

  // ---------------------------------------------------------------------
  // RDATA.

  /** parse_rdata: an A record with 4 bytes of RDATA or an AAAA record with
      16 adds one address; anything else adds nothing. */
  function ParseRdata(rdata: seq<byte>, rtype: nat, entries: seq<Address>): (r: seq<Address>)
    requires |entries| < MaxEntries
    ensures |r| == |entries| + 1 <==>
              (rtype == TypeA && |rdata| == 4) || (rtype == TypeAaaa && |rdata| == 16)
    ensures |r| != |entries| + 1 ==> r == entries
    ensures rtype == TypeA && |rdata| == 4 ==> r == entries + [V4(rdata)]
    ensures rtype == TypeAaaa && |rdata| == 16 ==> r == entries + [V6(rdata)]
  {
    if rtype == TypeA then
      if |rdata| != 4 then entries else ResultAdd(entries, V4(rdata))
    else if rtype == TypeAaaa then
      if |rdata| != 16 then entries else ResultAdd(entries, V6(rdata))
    else entries
  }

  // ---------------------------------------------------------------------
  // The answer loop.

  datatype AnswersOutcome = Answers(entries: seq<Address>) | AnswersDiverge

  /** What one iteration of the answer loop reads: a reason to stop, a name
      that does not stop decoding, or a record's type, RDATA and the offset
      after it. */
  datatype AnswerRead = ReadStop | ReadDiverges | ReadRecord(rtype: nat, rdata: seq<byte>, next: nat)

  /** The body of the answer loop up to parse_rdata: an entry of class IN,
      then a TTL and RDLENGTH, then RDLENGTH bytes of RDATA, all inside the
      buffer. */
  function ReadAnswer(buf: seq<byte>, offset: nat, fuel: nat): (r: AnswerRead)
    ensures r.ReadDiverges? <==> ParseEntry(buf, offset, fuel).EntryDiverges?
    ensures r.ReadRecord? ==>
              ParseEntry(buf, offset, fuel).EntryParsed?
              && ParseEntry(buf, offset, fuel).entry.rclass == ClassIn
              && r.rtype == ParseEntry(buf, offset, fuel).entry.rtype
              && offset + ParseEntry(buf, offset, fuel).entry.length + TtlLength + RdLengthLength
                 + |r.rdata| == r.next <= |buf|
              && |r.rdata| == Be16At(buf, r.next - |r.rdata| - RdLengthLength)
              && r.rdata == buf[r.next - |r.rdata|..r.next]
  {
    match ParseEntry(buf, offset, fuel)
    case EntryDiverges => ReadDiverges
    case EntryFailed => ReadStop
    case EntryParsed(e) =>
      if e.rclass != ClassIn then ReadStop
      else
        var ttlAt := offset + e.length;
        if ttlAt + TtlLength + RdLengthLength > |buf| then ReadStop
        else
          var rdlengthAt := ttlAt + TtlLength;
          var rdlength := Be16At(buf, rdlengthAt);
          if rdlengthAt + RdLengthLength + rdlength > |buf| then ReadStop
          else
            var rdataAt := rdlengthAt + RdLengthLength;
            ReadRecord(e.rtype, buf[rdataAt..rdataAt + rdlength], rdataAt + rdlength)
  }

  /** The loop stops at an answer exactly when its entry fails, is not of
      class IN, leaves no room for TTL and RDLENGTH, or announces more RDATA
      than the buffer holds. */
  lemma ReadAnswerStops(buf: seq<byte>, offset: nat, fuel: nat)
    ensures ReadAnswer(buf, offset, fuel).ReadStop?
            <==> || ParseEntry(buf, offset, fuel).EntryFailed?
                 || (&& ParseEntry(buf, offset, fuel).EntryParsed?
                     && var e := ParseEntry(buf, offset, fuel).entry;
                        || e.rclass != ClassIn
                        || offset + e.length + TtlLength + RdLengthLength > |buf|
                        || offset + e.length + TtlLength + RdLengthLength
                           + Be16At(buf, offset + e.length + TtlLength) > |buf|)
  {
  }

  /** The answer loop of parse_dns from `offset`, with `remaining` of the
      ANCOUNT iterations left and `entries` collected so far. */
  function AnswerLoop(buf: seq<byte>, offset: nat, remaining: nat, entries: seq<Address>,
                      fuel: nat): (r: AnswersOutcome)
    requires |entries| < MaxEntries
    ensures r.Answers? ==> |entries| <= |r.entries| <= MaxEntries && r.entries[..|entries|] == entries
    ensures r.Answers? ==> |r.entries| <= |entries| + remaining
    decreases remaining
  {
    if remaining == 0 then Answers(entries)
    else match ReadAnswer(buf, offset, fuel)
      case ReadDiverges => AnswersDiverge
      case ReadStop => Answers(entries)
      case ReadRecord(rtype, rdata, next) =>
        var entries' := ParseRdata(rdata, rtype, entries);
        if |entries'| == MaxEntries then Answers(entries')
        else AnswerLoop(buf, next, remaining - 1, entries', fuel)
  }

  /** Reference description of an answer record with an uncompressed owner name. */
  datatype Record = Record(owner: seq<seq<byte>>, rtype: nat, ttl: seq<byte>, rdata: seq<byte>)

  /** An IN-class record as an encoder writes it. */
  predicate WellFormedRecord(rr: Record)
  {
    && ValidLabels(rr.owner) && |rr.owner| > 0 && NulFreeLabels(rr.owner)
    && |Join(rr.owner)| < NameCapacity
    && rr.rtype < U16Limit && |rr.ttl| == TtlLength && |rr.rdata| < U16Limit
  }

  predicate WellFormedRecords(rrs: seq<Record>)
  {
    forall i :: 0 <= i < |rrs| ==> WellFormedRecord(rrs[i])
  }

  function EncodeRecord(rr: Record): (b: seq<byte>)
    requires WellFormedRecord(rr)
  {
    EncodeEntry(rr.owner, rr.rtype, ClassIn) + rr.ttl + Be16Bytes(|rr.rdata|) + rr.rdata
  }

  function EncodeRecords(rrs: seq<Record>): (b: seq<byte>)
    requires WellFormedRecords(rrs)
    decreases |rrs|
  {
    if |rrs| == 0 then [] else EncodeRecord(rrs[0]) + EncodeRecords(rrs[1..])
  }

  /** The address a record carries, if it is an A or AAAA record of the right
      size. This repeats the case split of `ParseRdata`: `RdataAddress` is a
      bridge from parse_rdata to the record-level description, not an
      independent check of it. */
  function AddressOf(rr: Record): seq<Address>
  {
    if rr.rtype == TypeA && |rr.rdata| == 4 then [V4(rr.rdata)]
    else if rr.rtype == TypeAaaa && |rr.rdata| == 16 then [V6(rr.rdata)]
    else []
  }

  /** The addresses of all records, in record order. */
  function Addresses(rrs: seq<Record>): seq<Address>
    decreases |rrs|
  {
    if |rrs| == 0 then [] else AddressOf(rrs[0]) + Addresses(rrs[1..])
  }

  /** The first 16 of a list of addresses. */
  function Capped(s: seq<Address>): (r: seq<Address>)
  {
    if |s| <= MaxEntries then s else s[..MaxEntries]
  }

  /** The largest fuel any one owner name needs. */
  predicate FuelCovers(rrs: seq<Record>, fuel: nat)
  {
    forall i :: 0 <= i < |rrs| ==> |rrs[i].owner| <= fuel
  }

  lemma RecordsHead(rrs: seq<Record>)
    requires WellFormedRecords(rrs) && |rrs| > 0
    ensures WellFormedRecord(rrs[0]) && WellFormedRecords(rrs[1..])
    ensures EncodeRecords(rrs) == EncodeRecord(rrs[0]) + EncodeRecords(rrs[1..])
    ensures Addresses(rrs) == AddressOf(rrs[0]) + Addresses(rrs[1..])
  {
    assert forall i :: 0 <= i < |rrs[1..]| ==> rrs[1..][i] == rrs[i + 1];
  }

  /** The answer loop's step: the address of one IN record is appended,
      and the loop goes on after it unless 16 addresses are held. */
  lemma AnswerLoopStep(buf: seq<byte>, offset: nat, remaining: nat, entries: seq<Address>,
                       fuel: nat, rtype: nat, rdata: seq<byte>, next: nat)
    requires |entries| < MaxEntries && remaining > 0
    requires ReadAnswer(buf, offset, fuel) == ReadRecord(rtype, rdata, next)
    ensures AnswerLoop(buf, offset, remaining, entries, fuel)
            == var entries' := ParseRdata(rdata, rtype, entries);
               if |entries'| == MaxEntries then Answers(entries')
               else AnswerLoop(buf, next, remaining - 1, entries', fuel)
  {
  }

  /** An encoded IN entry followed by a TTL, RDLENGTH and RDATA that fit is
      read as one record. */
  lemma ReadParsedAnswer(buf: seq<byte>, offset: nat, fuel: nat, e: Entry, rdata: seq<byte>)
    requires ParseEntry(buf, offset, fuel) == EntryParsed(e) && e.rclass == ClassIn
    requires |rdata| < U16Limit
    requires At(buf, offset + e.length + TtlLength, Be16Bytes(|rdata|))
    requires At(buf, offset + e.length + TtlLength + RdLengthLength, rdata)
    ensures ReadAnswer(buf, offset, fuel)
            == ReadRecord(e.rtype, rdata, offset + e.length + TtlLength + RdLengthLength + |rdata|)
  {
    var rdlengthAt := offset + e.length + TtlLength;
    AtBe16(buf, rdlengthAt, |rdata|);
  }

  /** An IN answer whose owner name is a bare pointer to an earlier
      uncompressed name is read with that name's type and RDATA. */
  lemma ReadPointerAnswer(buf: seq<byte>, offset: nat, target: nat, labels: seq<seq<byte>>,
                          rtype: nat, rdata: seq<byte>, fuel: nat)
    requires ValidLabels(labels) && |labels| > 0 && NulFreeLabels(labels)
    requires |Join(labels)| < NameCapacity
    requires target < offset && target < 0x4000
    requires At(buf, target, EncodeName(labels))
    requires rtype < U16Limit && |rdata| < U16Limit
    requires At(buf, offset, EncodePointer(target) + Be16Bytes(rtype) + Be16Bytes(ClassIn))
    requires At(buf, offset + 6 + TtlLength, Be16Bytes(|rdata|))
    requires At(buf, offset + 6 + TtlLength + RdLengthLength, rdata)
    requires fuel >= 1 + |labels|
    ensures ReadAnswer(buf, offset, fuel)
            == ReadRecord(rtype, rdata, offset + 6 + TtlLength + RdLengthLength + |rdata|)
  {
    // For solver speed only: keep these bodies folded; the lemmas called below state what is used.
    hide NameWalk, ParseName, ParseEntry, ReadAnswer, Dotted, Join, EncodeLabels, EncodeName;
    var e := Entry(6, Join(labels), rtype, ClassIn);
    PointerEntry(buf, offset, target, labels, rtype, fuel);
    ReadParsedAnswer(buf, offset, fuel, e, rdata);
  }

  /** The entry of an answer whose owner is a bare pointer to an earlier
      uncompressed name is six bytes long and carries that name. */
  lemma PointerEntry(buf: seq<byte>, offset: nat, target: nat, labels: seq<seq<byte>>,
                     rtype: nat, fuel: nat)
    requires ValidLabels(labels) && |labels| > 0 && NulFreeLabels(labels)
    requires |Join(labels)| < NameCapacity
    requires target < offset && target < 0x4000
    requires At(buf, target, EncodeName(labels))
    requires rtype < U16Limit
    requires At(buf, offset, EncodePointer(target) + Be16Bytes(rtype) + Be16Bytes(ClassIn))
    requires offset + 6 < |buf|
    requires fuel >= 1 + |labels|
    ensures ParseEntry(buf, offset, fuel) == EntryParsed(Entry(6, Join(labels), rtype, ClassIn))
  {
    // For solver speed only: keep these bodies folded; the lemmas called below state what is used.
    hide NameWalk, ParseName, ParseEntry, Dotted, Join, EncodeLabels, EncodeName;
    DottedLength(labels);
    AtConcat(buf, offset, EncodePointer(target), Be16Bytes(rtype) + Be16Bytes(ClassIn));
    ParsePointerName(buf, offset, target, labels, fuel);
    EntryAfterName(buf, offset, fuel, 2, Join(labels), rtype, ClassIn);
  }

  /** Where the parts of an encoded record lie. */
  lemma RecordLayout(buf: seq<byte>, offset: nat, rr: Record)
    requires WellFormedRecord(rr) && At(buf, offset, EncodeRecord(rr))
    ensures At(buf, offset, EncodeEntry(rr.owner, rr.rtype, ClassIn))
    ensures var rdlengthAt := offset + |EncodeEntry(rr.owner, rr.rtype, ClassIn)| + TtlLength;
            At(buf, rdlengthAt, Be16Bytes(|rr.rdata|))
            && At(buf, rdlengthAt + RdLengthLength, rr.rdata)
    ensures |EncodeRecord(rr)|
            == |EncodeEntry(rr.owner, rr.rtype, ClassIn)| + TtlLength + RdLengthLength + |rr.rdata|
  {
    var entry := EncodeEntry(rr.owner, rr.rtype, ClassIn);
    var len := Be16Bytes(|rr.rdata|);
    AtConcat(buf, offset, entry + rr.ttl + len, rr.rdata);
    AtConcat(buf, offset, entry + rr.ttl, len);
    AtConcat(buf, offset, entry, rr.ttl);
  }

  /** parse_rdata adds exactly the record's address. */
  lemma RdataAddress(rr: Record, entries: seq<Address>)
    requires |entries| < MaxEntries
    ensures ParseRdata(rr.rdata, rr.rtype, entries) == entries + AddressOf(rr)
  {
  }

  /** One iteration of the answer loop over an encoded IN record: the
      record's address, if any, is appended and the offset moves past it. */
  lemma AnswerStep(buf: seq<byte>, offset: nat, remaining: nat, entries: seq<Address>,
                   rr: Record, fuel: nat)
    requires |entries| < MaxEntries && remaining > 0
    requires WellFormedRecord(rr) && |rr.owner| <= fuel
    requires At(buf, offset, EncodeRecord(rr))
    ensures |entries + AddressOf(rr)| <= MaxEntries
    ensures AnswerLoop(buf, offset, remaining, entries, fuel)
            == if |entries + AddressOf(rr)| == MaxEntries then Answers(entries + AddressOf(rr))
               else AnswerLoop(buf, offset + |EncodeRecord(rr)|, remaining - 1, entries + AddressOf(rr), fuel)
  {
    // For solver speed only: keep these bodies folded; the lemmas called below state what is used.
    hide NameWalk, ParseName, ParseEntry, ReadAnswer, AnswerLoop;
    var entry := EncodeEntry(rr.owner, rr.rtype, ClassIn);
    RecordLayout(buf, offset, rr);
    ParseEncodedEntry(buf, offset, rr.owner, rr.rtype, ClassIn, fuel);
    ReadParsedAnswer(buf, offset, fuel, Entry(|entry|, Join(rr.owner), rr.rtype, ClassIn), rr.rdata);
    RdataAddress(rr, entries);
    AnswerLoopStep(buf, offset, remaining, entries, fuel, rr.rtype, rr.rdata, offset + |EncodeRecord(rr)|);
  }

  /** Over a well-formed answer section of IN records with uncompressed
      owner names, the loop collects the records' addresses in order and
      stops at 16. */
  lemma {:induction false} AnswerLoopEncoded(buf: seq<byte>, offset: nat, rrs: seq<Record>,
                                             entries: seq<Address>, fuel: nat)
    requires |entries| < MaxEntries
    requires WellFormedRecords(rrs) && FuelCovers(rrs, fuel)
    requires At(buf, offset, EncodeRecords(rrs))
    ensures AnswerLoop(buf, offset, |rrs|, entries, fuel) == Answers(Capped(entries + Addresses(rrs)))
    decreases |rrs|
  {
    // For solver speed only: keep these bodies folded; the lemmas called below state what is used.
    hide NameWalk, ParseName, ParseEntry, ReadAnswer, AnswerLoop;
    hide Capped, Addresses, EncodeRecords, WellFormedRecords, FuelCovers, EncodeRecord, AddressOf;
    if |rrs| == 0 {
      AnswerLoopEmpty(buf, offset, entries, fuel);
    } else {
      var rr := rrs[0];
      RecordsHead(rrs);
      FuelCoversTail(rrs, fuel);
      AtConcat(buf, offset, EncodeRecord(rr), EncodeRecords(rrs[1..]));
      AnswerStep(buf, offset, |rrs|, entries, rr, fuel);
      var entries' := entries + AddressOf(rr);
      AddressesCons(entries, rr, rrs);
      if |entries'| == MaxEntries {
        CappedFull(entries', Addresses(rrs[1..]));
      } else {
        AnswerLoopEncoded(buf, offset + |EncodeRecord(rr)|, rrs[1..], entries', fuel);
      }
    }
  }

  /** With no answers left the loop returns what it collected. */
  lemma AnswerLoopEmpty(buf: seq<byte>, offset: nat, entries: seq<Address>, fuel: nat)
    requires |entries| < MaxEntries
    ensures AnswerLoop(buf, offset, 0, entries, fuel) == Answers(Capped(entries + Addresses([])))
  {
    assert entries + Addresses([]) == entries;
  }

  lemma {:induction false} AddressesCons(entries: seq<Address>, rr: Record, rrs: seq<Record>)
    requires |rrs| > 0 && rrs[0] == rr
    ensures entries + Addresses(rrs) == (entries + AddressOf(rr)) + Addresses(rrs[1..])
  {
    assert Addresses(rrs) == AddressOf(rr) + Addresses(rrs[1..]);
  }

  /** Once 16 addresses are held, nothing after them is kept. */
  lemma CappedFull(a: seq<Address>, b: seq<Address>)
    requires |a| == MaxEntries
    ensures Capped(a + b) == a
  {
    assert (a + b)[..MaxEntries] == a;
  }

  lemma FuelCoversTail(rrs: seq<Record>, fuel: nat)
    requires |rrs| > 0 && FuelCovers(rrs, fuel)
    ensures |rrs[0].owner| <= fuel && FuelCovers(rrs[1..], fuel)
  {
    assert forall i :: 0 <= i < |rrs[1..]| ==> rrs[1..][i] == rrs[i + 1];
  }

  /** A record of another class stops the loop and keeps what was collected. */
  lemma NonInClassStops(buf: seq<byte>, offset: nat, remaining: nat, entries: seq<Address>, fuel: nat)
    requires |entries| < MaxEntries && remaining > 0
    requires ParseEntry(buf, offset, fuel).EntryParsed?
    requires ParseEntry(buf, offset, fuel).entry.rclass != ClassIn
    ensures AnswerLoop(buf, offset, remaining, entries, fuel) == Answers(entries)
  {
  }

  // ---------------------------------------------------------------------
  // parse_dns.

  /** The return value of parse_dns (0 or 1) and the result it filled in,
      or a name decoding that has not stopped. */
  datatype DnsOutcome = Returned(code: int, info: DnsInfo) | DnsDiverges

  /** parse_dns: zero the result, check the header, decode the single IN
      question and its non-empty name, then collect answers best-effort. */
  function ParseDns(buf: seq<byte>, fuel: nat): (r: DnsOutcome)
    ensures r.Returned? ==> ValidInfo(r.info)
    ensures r.Returned? ==> (r.code == 1 <==> |r.info.entries| > 0) && (r.code == 0 || r.code == 1)
    ensures |buf| <= HeaderLength ==> r == Returned(0, ZeroInfo)
    ensures |buf| > HeaderLength && Be16At(buf, 4) != 1 ==> r == Returned(0, ZeroInfo)
    ensures r.Returned? && r.info != ZeroInfo ==>
              |buf| > HeaderLength && Be16At(buf, 4) == 1
              && ParseEntry(buf, HeaderLength, fuel).EntryParsed?
              && ParseEntry(buf, HeaderLength, fuel).entry.rclass == ClassIn
              && r.info.name == ParseEntry(buf, HeaderLength, fuel).entry.name != []
    ensures r.Returned? && r.code == 1 ==> r.info.name != []
  {
    if |buf| <= HeaderLength then Returned(0, ZeroInfo)
    else
      var hdr := ParseHeader(buf);
      if hdr.qdcount != 1 then Returned(0, ZeroInfo)
      else match ParseEntry(buf, HeaderLength, fuel)
        case EntryDiverges => DnsDiverges
        case EntryFailed => Returned(0, ZeroInfo)
        case EntryParsed(q) =>
          if q.rclass != ClassIn || q.name == [] then Returned(0, ZeroInfo)
          else match AnswerLoop(buf, HeaderLength + q.length, hdr.ancount, [], fuel)
            case AnswersDiverge => DnsDiverges
            case Answers(es) => Returned(if |es| > 0 then 1 else 0, DnsInfo(q.name, es))
  }

  /** A question that fails to parse, is not of class IN or has an empty
      name makes parse_dns return 0 with the result zeroed. */
  lemma ParseDnsQuestionRejected(buf: seq<byte>, fuel: nat)
    requires |buf| > HeaderLength && Be16At(buf, 4) == 1
    requires !ParseEntry(buf, HeaderLength, fuel).EntryDiverges?
    requires || ParseEntry(buf, HeaderLength, fuel).EntryFailed?
             || ParseEntry(buf, HeaderLength, fuel).entry.rclass != ClassIn
             || ParseEntry(buf, HeaderLength, fuel).entry.name == []
    ensures ParseDns(buf, fuel) == Returned(0, ZeroInfo)
  {
  }

  /** A question whose name is only a pointer to a root byte has the empty
      name and is rejected. */
  lemma PointerToRootQuestionRejected(buf: seq<byte>, target: nat, fuel: nat)
    requires |buf| > HeaderLength + 6 && Be16At(buf, 4) == 1
    requires target < HeaderLength && buf[target] == RootLabel
    requires At(buf, HeaderLength, EncodePointer(target))
    requires fuel >= 1
    ensures ParseName(buf, HeaderLength, fuel) == NameDecoded(2, [])
    ensures ParseDns(buf, fuel) == Returned(0, ZeroInfo)
  {
    assert At(buf, HeaderLength, EncodeLabels([]) + EncodePointer(target));
    assert At(buf, target, EncodeName([])) by {
      assert buf[target + 0] == EncodeName([])[0];
    }
    assert NulFreeLabels([] + []);
    ParseCompressedName(buf, HeaderLength, [], target, [], fuel);
  }

  /** A whole message: header with QDCOUNT 1 and ANCOUNT = |rrs|, one IN
      question with an uncompressed name, then the encoded answers. parse_dns
      records the question's name and the first 16 addresses of the answers,
      and returns 1 exactly when there is at least one. */
  lemma ParseEncodedMessage(h: Header, qname: seq<seq<byte>>, qtype: nat, rrs: seq<Record>,
                            buf: seq<byte>, fuel: nat)
    requires ValidHeader(h) && h.qdcount == 1 && h.ancount == |rrs|
    requires ValidLabels(qname) && |qname| > 0 && NulFreeLabels(qname) && |Join(qname)| < NameCapacity
    requires qtype < U16Limit
    requires WellFormedRecords(rrs) && |rrs| > 0
    requires fuel >= |qname| && FuelCovers(rrs, fuel)
    requires buf == EncodeHeader(h) + EncodeEntry(qname, qtype, ClassIn) + EncodeRecords(rrs)
    ensures ParseDns(buf, fuel)
            == Returned(if |Addresses(rrs)| > 0 then 1 else 0,
                        DnsInfo(Join(qname), Capped(Addresses(rrs))))
  {
    var question := EncodeEntry(qname, qtype, ClassIn);
    RecordsHead(rrs);
    MessageLayout(EncodeHeader(h), question, EncodeRecords(rrs), buf);
    HeaderAt(buf, h);
    ParseMessageAt(h, qname, qtype, rrs, buf, fuel);
  }

  /** The same, for a buffer known only through where its parts lie. */
  lemma ParseMessageAt(h: Header, qname: seq<seq<byte>>, qtype: nat, rrs: seq<Record>,
                       buf: seq<byte>, fuel: nat)
    requires ValidHeader(h) && h.qdcount == 1 && h.ancount == |rrs|
    requires ValidLabels(qname) && |qname| > 0 && NulFreeLabels(qname) && |Join(qname)| < NameCapacity
    requires qtype < U16Limit
    requires WellFormedRecords(rrs)
    requires fuel >= |qname| && FuelCovers(rrs, fuel)
    requires |buf| >= HeaderLength && ParseHeader(buf) == h
    requires At(buf, HeaderLength, EncodeEntry(qname, qtype, ClassIn))
    requires At(buf, HeaderLength + |EncodeEntry(qname, qtype, ClassIn)|, EncodeRecords(rrs))
    requires HeaderLength + |EncodeEntry(qname, qtype, ClassIn)| < |buf|
    ensures ParseDns(buf, fuel)
            == Returned(if |Addresses(rrs)| > 0 then 1 else 0,
                        DnsInfo(Join(qname), Capped(Addresses(rrs))))
  {
    // For solver speed only: keep these bodies folded; the lemmas called below state what is used.
    hide NameWalk, ParseName, ParseEntry, ReadAnswer, AnswerLoop, ParseDns, ParseHeader, Capped;
    hide Join, Dotted, EncodeLabels, EncodeName, EncodeEntry, EncodeRecords, Addresses;
    hide FuelCovers, WellFormedRecords, NulFreeLabels, ValidLabels;
    var question := EncodeEntry(qname, qtype, ClassIn);
    var q := Entry(|question|, Join(qname), qtype, ClassIn);
    var es := Capped(Addresses(rrs));
    HeaderCounts(buf, h);
    CappedEmpty(Addresses(rrs));
    assert ParseEntry(buf, HeaderLength, fuel) == EntryParsed(q) by {
      ParseEncodedEntry(buf, HeaderLength, qname, qtype, ClassIn, fuel);
    }
    assert q.name != [] by {
      JoinNonEmpty(qname);
    }
    assert AnswerLoop(buf, HeaderLength + q.length, |rrs|, [], fuel) == Answers(es) by {
      AnswerLoopEncoded(buf, HeaderLength + |question|, rrs, [], fuel);
      assert [] + Addresses(rrs) == Addresses(rrs);
    }
    ParseDnsAccepts(buf, fuel, q, es);
  }

  /** The counts a parsed header reports are the fields at bytes 4 and 6. */
  lemma HeaderCounts(buf: seq<byte>, h: Header)
    requires |buf| >= HeaderLength && ParseHeader(buf) == h
    ensures Be16At(buf, 4) == h.qdcount && Be16At(buf, 6) == h.ancount
  {
  }

  /** Capping keeps a list empty exactly when it was empty. */
  lemma CappedEmpty(s: seq<Address>)
    ensures |Capped(s)| > 0 <==> |s| > 0
    ensures |Capped(s)| <= MaxEntries
  {
  }

  /** Where the header, question and answers of an encoded message lie. */
  lemma MessageLayout(head: seq<byte>, question: seq<byte>, records: seq<byte>, buf: seq<byte>)
    requires |head| == HeaderLength && |records| > 0
    requires buf == head + question + records
    ensures At(buf, 0, head) && At(buf, HeaderLength, question)
    ensures At(buf, HeaderLength + |question|, records)
    ensures HeaderLength + |question| < |buf|
  {
    AtAppend(head + question, records);
    AtConcat(buf, 0, head, question);
  }

  /** A name with at least one label has non-empty text. */
  lemma JoinNonEmpty(labels: seq<seq<byte>>)
    requires ValidLabels(labels) && |labels| > 0
    ensures Join(labels) != []
  {
    assert |labels[0]| > 0;
    assert Join(labels)[..|labels[0]|] == labels[0];
  }

  /** The accepting path of parse_dns. */
  lemma ParseDnsAccepts(buf: seq<byte>, fuel: nat, q: Entry, es: seq<Address>)
    requires |buf| > HeaderLength && Be16At(buf, 4) == 1
    requires ParseEntry(buf, HeaderLength, fuel) == EntryParsed(q)
    requires q.rclass == ClassIn && q.name != []
    requires AnswerLoop(buf, HeaderLength + q.length, Be16At(buf, 6), [], fuel) == Answers(es)
    ensures ParseDns(buf, fuel) == Returned(if |es| > 0 then 1 else 0, DnsInfo(q.name, es))
  {
    // For solver speed only: keep these bodies folded; the lemmas called below state what is used.
    hide NameWalk, ParseName, ParseEntry, AnswerLoop;
  }

  /** The message of `CycleMessage` never finishes parsing, whatever the fuel. */
  lemma CycleMessageDiverges(fuel: nat)
    ensures ParseDns(CycleMessage, fuel) == DnsDiverges
  {
    CycleNameDiverges(fuel);
    assert Be16At(CycleMessage, 4) == 1;
  }

  // ---------------------------------------------------------------------
  // Fuel: `SufficientFuel` of the buffer decides parse_dns, as it decides
  // every name in it.

  /** parse_entry settles with its name: an entry parsed at some fuel is
      the one parsed at `SufficientFuel`, one that diverges there diverges
      at every fuel, and more fuel changes nothing. */
  lemma EntrySettles(buf: seq<byte>, offset: nat, fuel: nat)
    ensures ParseEntry(buf, offset, fuel).EntryDiverges?
            || ParseEntry(buf, offset, fuel) == ParseEntry(buf, offset, SufficientFuel(|buf|))
    ensures ParseEntry(buf, offset, SufficientFuel(|buf|)).EntryDiverges? ==>
              ParseEntry(buf, offset, fuel).EntryDiverges?
    ensures fuel >= SufficientFuel(|buf|) ==>
              ParseEntry(buf, offset, fuel) == ParseEntry(buf, offset, SufficientFuel(|buf|))
  {
    ParseNameSettles(buf, offset, fuel);
  }

  /** The same for one answer read. */
  lemma ReadSettles(buf: seq<byte>, offset: nat, fuel: nat)
    ensures ReadAnswer(buf, offset, fuel).ReadDiverges?
            || ReadAnswer(buf, offset, fuel) == ReadAnswer(buf, offset, SufficientFuel(|buf|))
    ensures ReadAnswer(buf, offset, SufficientFuel(|buf|)).ReadDiverges? ==>
              ReadAnswer(buf, offset, fuel).ReadDiverges?
    ensures fuel >= SufficientFuel(|buf|) ==>
              ReadAnswer(buf, offset, fuel) == ReadAnswer(buf, offset, SufficientFuel(|buf|))
  {
    // For solver speed only: keep these bodies folded; the lemmas called below state what is used.
    hide NameWalk, ParseName;
    EntrySettles(buf, offset, fuel);
  }

  /** The same for the whole answer loop. */
  lemma {:induction false} LoopSettles(buf: seq<byte>, offset: nat, remaining: nat,
                                       entries: seq<Address>, fuel: nat)
    requires |entries| < MaxEntries
    ensures AnswerLoop(buf, offset, remaining, entries, fuel).AnswersDiverge?
            || AnswerLoop(buf, offset, remaining, entries, fuel)
               == AnswerLoop(buf, offset, remaining, entries, SufficientFuel(|buf|))
    ensures AnswerLoop(buf, offset, remaining, entries, SufficientFuel(|buf|)).AnswersDiverge? ==>
              AnswerLoop(buf, offset, remaining, entries, fuel).AnswersDiverge?
    ensures fuel >= SufficientFuel(|buf|) ==>
              AnswerLoop(buf, offset, remaining, entries, fuel)
              == AnswerLoop(buf, offset, remaining, entries, SufficientFuel(|buf|))
    decreases remaining
  {
    // For solver speed only: keep these bodies folded; the lemmas called below state what is used.
    hide NameWalk, ParseName, ParseEntry, ReadAnswer, ParseRdata, AnswerLoop;
    var sf := SufficientFuel(|buf|);
    AnswerLoopUnfold(buf, offset, remaining, entries, fuel);
    AnswerLoopUnfold(buf, offset, remaining, entries, sf);
    if remaining > 0 {
      ReadSettles(buf, offset, fuel);
      var r := ReadAnswer(buf, offset, fuel);
      if r.ReadRecord? {
        assert r == ReadAnswer(buf, offset, sf);
        var entries' := ParseRdata(r.rdata, r.rtype, entries);
        if |entries'| < MaxEntries {
          LoopSettles(buf, r.next, remaining - 1, entries', fuel);
        }
      }
    }
  }

  /** One turn of the answer loop, as an equation. */
  lemma AnswerLoopUnfold(buf: seq<byte>, offset: nat, remaining: nat, entries: seq<Address>, fuel: nat)
    requires |entries| < MaxEntries
    ensures remaining == 0 ==> AnswerLoop(buf, offset, remaining, entries, fuel) == Answers(entries)
    ensures remaining > 0 && ReadAnswer(buf, offset, fuel).ReadDiverges? ==>
              AnswerLoop(buf, offset, remaining, entries, fuel) == AnswersDiverge
    ensures remaining > 0 && ReadAnswer(buf, offset, fuel).ReadStop? ==>
              AnswerLoop(buf, offset, remaining, entries, fuel) == Answers(entries)
    ensures remaining > 0 && ReadAnswer(buf, offset, fuel).ReadRecord? ==>
              var r := ReadAnswer(buf, offset, fuel);
              var entries' := ParseRdata(r.rdata, r.rtype, entries);
              AnswerLoop(buf, offset, remaining, entries, fuel)
              == if |entries'| == MaxEntries then Answers(entries')
                 else AnswerLoop(buf, r.next, remaining - 1, entries', fuel)
  {
  }

  /** `SufficientFuel` decides parse_dns: a result returned at any fuel is
      the one returned there, `DnsDiverges` there means the C function never
      returns (it diverges at every fuel), and more fuel changes nothing. */
  lemma ParseDnsSettles(buf: seq<byte>, fuel: nat)
    ensures ParseDns(buf, fuel).Returned? ==> ParseDns(buf, fuel) == ParseDns(buf, SufficientFuel(|buf|))
    ensures ParseDns(buf, SufficientFuel(|buf|)).DnsDiverges? ==> ParseDns(buf, fuel).DnsDiverges?
    ensures fuel >= SufficientFuel(|buf|) ==> ParseDns(buf, fuel) == ParseDns(buf, SufficientFuel(|buf|))
  {
    // For solver speed only: keep these bodies folded; the lemmas called below state what is used.
    hide NameWalk, ParseName, ParseEntry, ReadAnswer, AnswerLoop, ParseRdata;
    if |buf| > HeaderLength && ParseHeader(buf).qdcount == 1 {
      var sf := SufficientFuel(|buf|);
      EntrySettles(buf, HeaderLength, fuel);
      var e := ParseEntry(buf, HeaderLength, fuel);
      var e' := ParseEntry(buf, HeaderLength, sf);
      if e.EntryParsed? && e.entry.rclass == ClassIn && e.entry.name != [] {
        assert e' == e;
        LoopSettles(buf, HeaderLength + e.entry.length, ParseHeader(buf).ancount, [], fuel);
      } else if e'.EntryParsed? && e'.entry.rclass == ClassIn && e'.entry.name != [] {
        assert e.EntryDiverges? || e == e';
        LoopSettles(buf, HeaderLength + e'.entry.length, ParseHeader(buf).ancount, [], fuel);
      }
    }
  }
}
