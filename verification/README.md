# dnsallow packet parser in Dafny

dnsallow watches DNS responses that arrive from the network. It extracts
the queried name and the A/AAAA addresses from each response, so that a
firewall set can be opened for them. This project models the parsing core:

- `ip.c` finds the transport payload of an IPv4 or IPv6 packet, walking
  IPv6 extension headers.
- `dns.c` reads the DNS header, decodes the single question (with
  compression pointers), runs the best-effort answer loop and collects up
  to 16 addresses. `parse_ip_dns` chains the two, skipping a fixed 8-byte
  UDP header.

The model is a set of pure functions over byte sequences. Every function
follows the C code branch for branch. The lemmas relate it to independent
reference encoders: extension chains, uncompressed names, records and
whole messages. Parsing what the encoder wrote gives back what was
encoded.

Modules:

- `Bytes` (`bytes.dfy`): the octet type, big-endian 16-bit fields, and
  `At`, which says that a buffer holds given bytes at an offset.
- `Ip` (`ip.dfy`): `is_ipv6_extension_header_type` and `parse_ip`, plus
  the reference encoding of IPv6 extension chains.
- `DnsName` (`dns_name.dfy`): `parse_name`, as a walk over labels and
  pointers that is bounded by fuel. Also the reference encoding of
  names, and lemmas on termination, fuel and pointer cycles.
- `Dns` (`dns.dfy`): `parse_header`, `parse_entry`, `result_add`,
  `parse_rdata`, the answer loop and `parse_dns`, plus the reference
  encoding of records and messages.
- `Pipeline` (`pipeline.dfy`): `parse_ip_dns`, and the 73-byte response
  of the A-query regression test.

### Behaviour kept as the C code has it

- **Pointer cycles can hang `parse_name`.** A compression pointer is only
  required to point below the name's original start, so two pointers
  stored earlier can point at each other. The loop is therefore modelled
  with fuel, and the outcome `NameDiverges` means "the C loop would still
  be running".
  - `DnsName.CycleNameDiverges` and `Dns.CycleMessageDiverges` exhibit
    such a message for every fuel.
  - `DnsName.ParseNameSettles` bounds the loop with no condition on the
    buffer. A name not finished after `258 * (buflen + 1)` iterations never
    finishes. Any fuel at which it finishes gives the same answer.
  - `DnsName.ParseNameTerminates` proves termination from a simpler
    sufficient condition, `BackwardPointers`. That condition applies to every
    octet of 0xC0 or more below the start, read with the octet after it as
    a pointer, not only to the pointers a name uses. A message ID such as
    `C7 A0` fails it, even though the name after it decodes
    (`DnsName.HighIdNameParses`).
- **A missing root byte is accepted.** Labels that run to the end of the
  buffer still decode. See `DnsName.ParseUnterminatedName`.
- **A name that is only a pointer to a root byte** makes parse_name
  return 2 and write nothing into the name buffer. The model gives it the
  empty name. As a question it is rejected
  (`Dns.PointerToRootQuestionRejected`).
- **Length bytes 0x40-0xBF are read as literal labels.** Only the top
  two bits `11` make a pointer.
- **The IPv6 extension header length is `8 + buf[offset + 1]` bytes.**
  This is not `(hdrLen + 1) * 8` as in section 4 of RFC 8200.
- **The result is zeroed only by `parse_dns`.** The early exits of
  `parse_ip_dns` leave the caller's result untouched, which is why
  `ParseIpDns` takes the prior value.
- **No check of the UDP port or the QR flag.**
- **`offset + 8` in parse_ip_dns is unsigned 32-bit arithmetic.** For a
  transport offset within 8 bytes of 4 GiB the sum wraps to a value below
  8. The check `offset + 8 >= buflen` then passes, and parse_dns runs on
  the packet from inside the IP header. `Pipeline.DnsStart` computes the
  wrapped sum, and `Pipeline.ParseIpDnsWraps` states the outcome.
- **Fuel does not change the answer once it suffices.**
  `Dns.ParseDnsSettles` shows that `SufficientFuel(buflen)` decides
  parse_dns, as `DnsName.ParseNameSettles` does for one name. A result
  returned at any fuel is the result at that bound. `DnsDiverges` at that
  bound means the C function never returns, because it then diverges at
  every fuel.

## Model

| member | source | states |
|---|---|---|
| Bytes.Be16RoundTrip | dns.c:58-63 | reading back a big-endian 16-bit field written for `v` gives `v` |
| Bytes.Be16Encoding | dns.c:58-63 | the two octets of a field are exactly the encoding of the value read from them |
| Bytes.AtBe16 | dns.c:135-136 | a 16-bit field written at an offset is read back there as the big-endian value of its two octets |
| Ip.IsExtensionHeaderType | ip.c:23-43 | true exactly for the eleven next-header values 0, 43, 44, 50, 51, 60, 135, 139, 140, 253, 254 |
| Ip.NibbleBits | ip.c:53-55 | the version and IPv4 header length used are `buf[0] >> 4` and `(buf[0] & 0xf) * 4` |
| Ip.SkipExtensions | ip.c:65-82 | a successful walk ends inside the buffer, at or after its start, on a protocol outside the extension set; a non-extension next header is returned at once; any step moves at least 8 bytes |
| Ip.ParseIp | ip.c:46-86 | empty input and versions other than 4 and 6 fail; IPv4 succeeds iff `20 <= (buf[0]&0xf)*4 < buflen`, returning that length and `buf[9]`; IPv6 needs more than 40 bytes; every success lies in `[20, buflen)`; the IPv6 protocol is never an extension type |
| Ip.ReturnedOffsetSentinel | ip.c:45-86 | the returned offset is 0 exactly when parsing failed, so success cannot be mistaken for failure |
| Ip.SkipOneStep | ip.c:68-79 | one step over an extension header that fits skips `8 + buf[offset+1]` bytes and continues with `buf[offset]` as the next header |
| Ip.SkipSucceededStep | ip.c:69-78 | a successful walk from an extension header had more than 2 bytes, and more than the header length, left at that step |
| Ip.SkipEncodedChain | ip.c:68-82 | over an encoded extension chain followed by payload, the walk stops right after the chain with the chain's final protocol |
| Ip.SkipExtensionsDecomposes | ip.c:68-82 | conversely, every successful walk skipped exactly an encoded chain, and the protocol returned is its final protocol |
| Ip.ParseIpv6Chain | ip.c:61-82 | an IPv6 base header, an encoded chain and a non-empty payload parse to the payload offset and the chain's final protocol |
| DnsName.PointerByteBits | dns.c:81 | the pointer test is `(b & 0xc0) == 0xc0` |
| DnsName.PointerTargetBits | dns.c:85 | the pointer target is the low six bits of the first byte shifted left by 8, or-ed with the next byte |
| DnsName.CStrLen | dns.c:111 | strlen stops at the first NUL: no NUL comes before the length it returns, and a NUL sits at that length when it is inside the buffer |
| DnsName.CStrLenNulFree | dns.c:111-114 | strlen of the name plus terminator equals the name's length iff the name holds no NUL |
| DnsName.FinishName | dns.c:108-117 | after the loop, a non-empty output decodes iff the text before the last dot is NUL-free; an empty output decodes iff a pointer was followed; the wire length is the one frozen at the first pointer, otherwise the output length plus one |
| DnsName.NameWalk | dns.c:75-106 | a decoded name is shorter than 256 bytes and NUL-free, with wire length in 1..258, and keeps the wire length frozen at the first pointer |
| DnsName.ParseName | dns.c:68-118 | parse_name starts the walk at the name's own offset with no output and no pointer seen; a decoded name is shorter than 256 bytes and NUL-free with wire length in 1..258, and a name starting at or past the end of the buffer, or at a root byte, returns 0 |
| DnsName.ExitStep | dns.c:75-80 | at the end of the buffer or at a root byte, the loop stops and finishes the name |
| DnsName.LiteralStep | dns.c:95-105 | a literal label that fits is copied with a dot after it, and the walk moves past it |
| DnsName.PointerStep | dns.c:81-94 | a pointer below the original start redirects the walk, and the first one freezes the wire length at the output length plus 2 |
| DnsName.BadPointerFails | dns.c:82-88 | a pointer with fewer than 2 bytes left, or one whose target is at or past the original start, fails the name |
| DnsName.OversizedLabelFails | dns.c:99-100 | a label longer than the bytes left, or one that would take the name past 256 bytes, fails the name |
| DnsName.RootOnlyFails | dns.c:108-117 | a name that is just a root byte with no pointer returns 0 |
| DnsName.WalkLabels | dns.c:95-105 | walking over encoded labels appends each label with a dot and uses one fuel unit per label |
| DnsName.FinishLabels | dns.c:108-117 | finishing the dotted labels gives their dot-joined text, or fails exactly when a label holds a NUL |
| DnsName.JoinNulFree | dns.c:111-114 | the joined name holds a NUL exactly when some label does |
| DnsName.ParseEncodedName | dns.c:68-118 | an uncompressed encoded name decodes to its dot-joined labels with its full wire length, and fails exactly when a label holds a NUL |
| DnsName.ParseUnterminatedName | dns.c:75-117 | labels that run to the end of the buffer without a root byte still decode, with wire length one past the end |
| DnsName.WalkOverCapacityFails | dns.c:99-100 | labels whose dotted text would exceed 256 bytes fail the name |
| DnsName.ParseOverlongNameFails | dns.c:99-100 | a name of 256 or more text bytes is rejected |
| DnsName.PointerRoundTrip | dns.c:81-85 | an encoded pointer to `t` is a pointer byte whose target reads back as `t` |
| DnsName.WalkPrefixAndPointer | dns.c:81-94 | after encoded prefix labels and a pointer below the start, the walk resumes at the target with the labels appended; the wire length is frozen at the output length plus 2 unless an earlier pointer froze it |
| DnsName.WalkChain | dns.c:75-106 | walking labels and pointers through any number of hops appends every label of the chain; the wire length is frozen at the first pointer |
| DnsName.ParseChainedName | dns.c:68-118 | a name compressed through one or more pointers below its start decodes to all the chain's labels joined; its wire length covers the first segment's labels and pointer; it fails exactly when a label holds a NUL |
| DnsName.ChainSampleParses | dns.c:68-118 | the name `b`, pointing to `c`, pointing to `a`, decodes to `b.c.a` with wire length 4 |
| DnsName.ParseCompressedName | dns.c:68-118 | prefix labels then a pointer to an earlier encoded name decode to all the labels joined, with the wire length covering only the prefix and the pointer |
| DnsName.ParsePointerName | dns.c:81-117 | a name that is only a pointer to an earlier encoded name has that name's text and wire length 2 |
| DnsName.NameWalkFuelMonotone | dns.c:75-106 | once the walk reaches an answer with some fuel, any larger fuel gives the same answer |
| DnsName.ParseNameFuelMonotone | dns.c:68-118 | more fuel never changes a decoded or failed name |
| DnsName.NameWalkTerminates | dns.c:75-106 | if every octet of 0xC0 or more below the start, read as a pointer with the octet after it, aims below its own position, the walk stops within the measure. This is a condition on all such octets, not only on the pointers a name uses |
| DnsName.ParseNameTerminates | dns.c:68-118 | under that sufficient condition, parse_name stops for fuel `258 * (buflen + 1)` |
| DnsName.HighIdNameParses | dns.c:68-118 | a message whose ID octet 0xC7 fails that condition still has its uncompressed name decoded in one iteration, so the condition is not necessary |
| DnsName.LoopDiverges | dns.c:75-94 | pointers the loop follows that lead back to one of themselves keep it running for any fuel |
| DnsName.WalkSettles | dns.c:75-106 | from a state reached through distinct pointers, the walk either does not stop within the given fuel, or stops within `(258 - output length) * (buflen + 1)` iterations less the pointers already followed |
| DnsName.PointerOnPath | dns.c:81-94 | the same at a pointer not yet followed: at most `buflen` distinct pointers can be followed in a row |
| DnsName.LabelOnPath | dns.c:96-105 | the same at a literal label that fits: the output grows by two bytes or more, which pays for the next run of pointers |
| DnsName.ParseNameSettles | dns.c:68-118 | for every buffer: if parse_name has not finished after `258 * (buflen + 1)` iterations it never finishes; a name that finishes at any fuel has the answer it has at that bound; any larger fuel gives that answer |
| DnsName.CycleWalkDiverges | dns.c:81-94 | two pointers below the start that point at each other keep the loop running for any fuel |
| DnsName.CycleNameDiverges | dns.c:86-88 | the name at offset 12 of the cycle message never finishes, and the message fails `BackwardPointers` |
| Dns.ParseHeader | dns.c:56-64 | six big-endian 16-bit fields read from the first 12 bytes, each below 2^16 (HeaderRoundTrip and HeaderEncoding relate it to the encoder both ways) |
| Dns.HeaderAt | dns.c:56-64 | a header encoded at the start of a buffer is read back field by field |
| Dns.HeaderRoundTrip | dns.c:56-64 | parsing an encoded header gives the header back |
| Dns.HeaderEncoding | dns.c:56-64 | re-encoding a parsed header gives the first 12 bytes back |
| Dns.ResultAdd | dns.c:140-145 | appends one address after the existing ones, which are kept, and keeps the count at 16 or below |
| Dns.ParseEntry | dns.c:122-138 | diverges iff the name does; succeeds iff the name decodes and `offset + wire + 4 < buflen`; then the length is wire plus 4, the name is the decoded one, and one more byte follows |
| Dns.ParseEncodedEntry | dns.c:122-138 | an encoded name/type/class followed by at least one byte parses back to its text, type and class; with nothing after it, it is rejected |
| Dns.EntryAfterName | dns.c:131-137 | once the name decodes, the entry's type and class are the two fields after it |
| Dns.PointerEntry | dns.c:122-138 | an entry whose owner is a bare pointer to an earlier name is 6 bytes long and carries that name |
| Dns.ParseRdata | dns.c:147-168 | adds exactly one address iff the record is A with 4 bytes or AAAA with 16; then the address is the RDATA with the matching family; otherwise nothing changes |
| Dns.RdataAddress | dns.c:147-168 | parse_rdata appends exactly the address the record carries in the reference model |
| Dns.ReadAnswer | dns.c:199-221 | a record is read only from an IN entry that parsed; its RDATA is the RDLENGTH bytes after TTL and RDLENGTH, inside the buffer; it diverges iff the entry does |
| Dns.ReadAnswerStops | dns.c:199-215 | the loop stops at an answer exactly when its entry fails, its class is not IN, TTL and RDLENGTH do not fit, or RDLENGTH runs past the buffer |
| Dns.AnswerLoop | dns.c:198-226 | keeps the addresses already collected as a prefix, never holds more than 16, and adds at most one per remaining answer |
| Dns.AnswerLoopStep | dns.c:220-225 | after a record is read, its address is added and the loop stops at 16 or goes on after the RDATA |
| Dns.ReadParsedAnswer | dns.c:206-221 | after a parsed IN entry with RDLENGTH and RDATA in place, the loop reads that RDATA and moves past it |
| Dns.ReadPointerAnswer | dns.c:199-221 | an IN answer whose owner is a compression pointer is read with its type and RDATA |
| Dns.AnswerStep | dns.c:198-226 | one iteration over an encoded IN record appends that record's address and moves past the record |
| Dns.AnswerLoopEncoded | dns.c:198-226 | over an encoded answer section, the loop collects the records' addresses in order and truncates at 16 |
| Dns.NonInClassStops | dns.c:199-201 | a record of a class other than IN stops the loop with what was collected |
| Dns.ParseDns | dns.c:170-229 | returns 0 or 1, and 1 iff an address was collected; buflen <= 12 and qdcount != 1 give 0 with a zeroed result; a non-zero result comes from a parsed IN question with a non-empty name; the result always fits |
| Dns.ParseDnsQuestionRejected | dns.c:189-192 | a question that fails to parse, is not class IN or has an empty name gives 0 with a zeroed result |
| Dns.PointerToRootQuestionRejected | dns.c:189-192 | a question whose name is a pointer to a root byte decodes to the empty name and is rejected |
| Dns.ParseDnsAccepts | dns.c:182-228 | with qdcount 1 and a non-empty IN question, parse_dns records the question's name and the loop's addresses |
| Dns.ParseEncodedMessage | dns.c:170-229 | for a message encoded from a header, one IN question and answer records, parse_dns returns the question's text and the first 16 addresses of the answers, with code 1 iff there is one |
| Dns.ParseMessageAt | dns.c:170-229 | the same for a buffer described by where the header, question and records lie |
| Dns.CycleMessageDiverges | dns.c:186-190 | a message whose question name is a pointer cycle never finishes parsing |
| Dns.EntrySettles | dns.c:122-138 | an entry parsed at any fuel is the one parsed at `SufficientFuel(buflen)`; divergence there holds at every fuel; larger fuel gives the same outcome |
| Dns.ReadSettles | dns.c:199-215 | the same for reading one answer up to its RDATA |
| Dns.LoopSettles | dns.c:198-226 | the same for the whole answer loop, from any offset, count and collected prefix |
| Dns.ParseDnsSettles | dns.c:170-229 | the same for parse_dns: a result returned at any fuel is the one at `SufficientFuel(buflen)`, and `DnsDiverges` there means it diverges at every fuel |
| Pipeline.DnsStart | dns.c:247-250 | the DNS message starts at the transport offset plus 8, wrapped modulo 2^32 as the C `unsigned` sum; the wrapped value is below 8 |
| Pipeline.ParseIpDns | dns.c:236-259 | unless the packet is UDP and the 32-bit sum `offset + 8` lies inside it, it returns 0 and leaves the result alone; a return of 1 means that framing was found and a valid name and addresses were collected |
| Pipeline.ParseIpDnsDelegates | dns.c:247-258 | when parse_ip_dns goes on, the outcome is parse_dns on the bytes from the wrapped `offset + 8`; without a wrap, those are the bytes after the 8-byte UDP header |
| Pipeline.ParseIpDnsWraps | dns.c:247-258 | a UDP transport offset within 8 bytes of 4 GiB wraps `offset + 8` below 8, so parse_dns runs on the packet from inside the IP header |
| Pipeline.ParseIpDnsSettles | dns.c:236-259 | `SufficientFuel(buflen)` decides parse_ip_dns: a result returned at any fuel is the one returned there, divergence there holds at every fuel, and larger fuel gives the same outcome |
| Pipeline.ParseUdp4Packet | dns.c:241-258 | a 20-byte IPv4 header with protocol 17, any UDP header and a non-empty message are parsed as that message, whatever the ports |
| Pipeline.NonUdpIgnored | dns.c:245-254 | a transport other than UDP returns 0 and leaves the result alone |
| Pipeline.ExampleComText | tests/query-a.c:27-28 | the test's question name is the labels `example` and `com`, with text `example.com` |
| Pipeline.QueryAAnswerRead | tests/query-a.c:28-30 | the test's answer is read as an A record with the address 93.184.216.34 |
| Pipeline.QueryAMessageParses | tests/query-a.c:23-31 | parse_dns on the test's DNS message gives 1, `example.com` and one IPv4 address |
| Pipeline.QueryAPacketParses | tests/query-a.c:62-78 | parse_ip_dns on the test packet returns 1 with name `example.com` and the single address 5d b8 d8 22 |

## Left out

- `queue.c`, `ipset.c`, `main.c` and `policy.c` are left out. They deal with netfilter queues, ipset and policy, not with parsing.
- The structs `dns_question` and `dns_answer` (dns.c:41-54) are never used by the code.
- The C string layout is left out. The name is a byte sequence without a terminator. `strcpy` into `result->name` is the copy of that sequence.
- The address family (`AF_INET`/`AF_INET6`) is the `V4`/`V6` constructor. The `count` field of `dns_info` is the length of `entries`.
- The uninitialised name buffer after a pointer-to-root name is modelled as the empty name. The C code then reads uninitialised memory at `name[0]`.
- DnsName.NameWalk: the unbounded loop is bounded by `fuel`. Running out of fuel is reported as a divergent outcome, not as a value. `DnsName.ParseNameSettles` shows that fuel `258 * (buflen + 1)` decides every input: a name not finished by then never finishes.
- Dns.ParseDns: does not model 32-bit wrap-around of `offset + r + 4` (dns.c:132), `offset + 6` (dns.c:207) and `offset + 2 + rdlength` (dns.c:214). These wrap only for buffers within 64 KiB of 4 GiB.
- Ip.ParseIp: requires a buffer shorter than 2^32 bytes, the range of the unsigned `buflen`.
- Pipeline.ParseIpDns: the caller's result before the call is a parameter (`prior`), since the early exits do not write it.
- Dns.AnswerLoopEncoded: covers answer sections whose owner names are uncompressed. An owner written as a bare compression pointer is covered one record at a time by `Dns.ReadPointerAnswer`.
- Dns.ParseEncodedMessage: needs at least one answer record. With none, nothing follows the question, and parse_entry rejects it (the second case of `Dns.ParseEncodedEntry`).
- The TTL is skipped by the C code and is not interpreted.
