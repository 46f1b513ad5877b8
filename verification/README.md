# gatekeeper core in Dafny

gatekeeper is a home-network appliance: a DNS resolver with a blocklist and
local domains, a DHCP server with a lease pool, a netlink client that reads
interfaces and routes, and a web API and UI that configure and observe them.
This project models the parts of it that are pure computation: the wire
codecs, the lease-pool state machine, the DHCP server's decisions, and the
small parsers and validators behind the web API and its metrics page. Each
is a set of pure functions over immutable values, with contracts and lemmas
stating what the Go and JavaScript code promises.

Modules, one per source component:

- `Wrappers`, `Bytes`, `Text`, `Net`, `ByteOrder`: Option/Result, byte
  encodings (big- and little-endian), ASCII case folding, Go's string
  helpers (`strings.Split`, `Fields`, `TrimSpace`), dotted-quad IPv4, and
  the byte-wise string order with its binary search.
- `DnsHeader`, `DnsName`, `DnsMessage` (internal/dns/types.go): header flag
  fields (section 4.1.1 of RFC 1035), name encoding and compressed-name
  decoding with its loop guards (sections 3.1 and 4.1.4 of RFC 1035),
  message and resource-record parse and marshal, and the OPT record of
  section 6.1.2 of RFC 6891.
- `DnsResolver` (internal/dns/resolver.go): upstream selection, the sorted
  blocklist, local domains, the cache key, and the order `Resolve` consults
  them in.
- `LeaseCommon` (internal/common/types.go), `LeaseTable`, `LeasePool`
  (internal/dhcp/lease.go) and `LeaseDb` (dhcp/lease.go): the two
  revisions of the lease pool, sharing the loops both perform, with their
  persist and load byte layouts.
- `DhcpPacket` (dhcp/packet.go): fixed-offset message fields (section 2 of
  RFC 2131), the option codec (sections 2 and 3 of RFC 2132), padding and
  `DHCPReply`.
- `DhcpServer` (internal/dhcp/server.go): the broadcast address, the
  receive filter and the DISCOVER/REQUEST/RELEASE decisions.
- `NetlinkHeader` (netlink/types.go), `NetlinkAttr` (internal/netlink/netlink.go)
  and `NetlinkRoute` (internal/netlink/types.go): the 12-byte header, the
  attribute codec and decoders, and route printing.
- `Hosts`, `Duration`, `WebValidate`, `ApiMiddleware`, `WebMiddleware`,
  `ServiceManager`: the hosts-file validator, the uptime formatter, the API
  request validators, both middleware files and the service registry.
- `PromParse` and `PromQuery` (internal/web/ui/src/lib/prometheus/prom.js):
  the Prometheus text parser and the queries built on it.

Time is a parameter `now` (nanoseconds, the zero time being 0). Go map
iteration order is a parameter `order` listing every key once. Calls into
code outside the model (MAC parsing, JWT claim parsing, JavaScript's
`parseFloat` and division) are function parameters. Where the Go code
panics (a slice past the end, a length byte whose sum wraps, `nlenc.Uint32`
given more than four bytes) or loops forever, the model returns an `Err`
that names the cause.

## Model

| member | source | states |
|---|---|---|
| Bytes.BE32 | internal/dhcp/lease.go:71-78 | the big-endian encoding of a 32-bit value is 4 bytes that read back as the value |
| Bytes.BE32OfRead | internal/dhcp/lease.go:71-78 | reading 4 bytes big-endian and encoding again gives the same bytes |
| Bytes.LE16 | internal/netlink/netlink.go:451-452 | the host-order (little-endian) encoding of a 16-bit value is 2 bytes that read back as the value |
| Bytes.LE32 | internal/netlink/netlink.go:349-356 | the host-order (little-endian) encoding of a 32-bit value is 4 bytes that read back as the value |
| Bytes.EqualFoldTrans | internal/dhcp/lease.go:96 | the case-insensitive client-id comparison is transitive, so it groups ids consistently |
| Bytes.Decimal | internal/system/system_linux.go:103-125 | decimal text is non-empty digits without a leading zero whose value is the number |
| ByteOrder.BelowTotal | internal/dns/resolver.go:86 | Go's byte-wise string order is total |
| ByteOrder.BelowTransitive | internal/dns/resolver.go:86 | Go's byte-wise string order is transitive |
| ByteOrder.SortAllSorted | internal/dns/resolver.go:242 | the sorted blocklist is in ascending order |
| ByteOrder.SortedUnique | internal/dns/resolver.go:242 | two ascending sequences with the same elements are equal, so the sorted order is determined by the entries |
| ByteOrder.SearchSplits | internal/dns/resolver.go:86 | on a sorted slice the search index splits it into the elements below the key and the rest |
| ByteOrder.FoundIffMember | internal/dns/resolver.go:86 | on a sorted slice the search lands on the key exactly when the key is a member |
| Net.To4 | internal/dns/resolver.go:224 | the 4-byte form denotes the same address, and a 4-byte address is its own 4-byte form |
| Net.ParseIPv4 | internal/dns/resolver.go:61 | an address that parses has exactly 4 bytes |
| Net.DottedQuadIffParses | internal/web/v1/types.go:80-81 | the validators' dotted-quad regular expression accepts exactly the texts the IPv4 parser accepts |
| Net.FormatParseIPv4 | internal/dns/resolver.go:224 | printing a 4-byte address and parsing the text gives the address back |
| DnsHeader.RCode | internal/dns/types.go:204-206 | RCODE is the low four bits of the flags word, so always below 16 |
| DnsHeader.SetQR | internal/dns/types.go:152-158 | QR (bit 15) reads back as given; every other flag bit and the ID are unchanged |
| DnsHeader.SetOpcode | internal/dns/types.go:160-162 | for an opcode below 16, the opcode (bits 11-14) reads back as given and nothing else changes |
| DnsHeader.SetAA | internal/dns/types.go:164-170 | AA (bit 10) reads back as given; nothing else changes |
| DnsHeader.SetTC | internal/dns/types.go:172-178 | TC (bit 9) reads back as given; nothing else changes |
| DnsHeader.SetRD | internal/dns/types.go:180-186 | RD (bit 8) reads back as given; nothing else changes |
| DnsHeader.SetRA | internal/dns/types.go:188-194 | RA (bit 7) reads back as given; nothing else changes |
| DnsHeader.SetZ | internal/dns/types.go:196-198 | for z below 8, Z (bits 4-6) reads back as given and nothing else changes |
| DnsHeader.SetRCode | internal/dns/types.go:200-206 | for rcode below 16, RCODE() after SetRCODE(r) is r and nothing else changes |
| DnsHeader.SetZSpillsIntoRA | internal/dns/types.go:196-198 | the shifted Z value is not masked: SetZ(8) sets the RA bit |
| DnsHeader.SetRCodeSpillsIntoRA | internal/dns/types.go:200-202 | the RCODE is not masked: SetRCODE(0x80) sets the RA bit |
| DnsHeader.SetOpcodeSpillsIntoQR | internal/dns/types.go:160-162 | the shifted opcode is not masked: SetOpcode(16) sets the QR bit |
| DnsHeader.SettersCommute | internal/dns/types.go:152-202 | setters of different fields commute and never touch the ID |
| DnsName.Normalize | internal/dns/types.go:239-249 | the encoder's label loop yields only labels of 1 to 63 bytes |
| DnsName.DomainLabels | internal/dns/types.go:234-239 | one trailing dot dropped and the rest split on dots gives valid labels |
| DnsName.StringToWire | internal/dns/types.go:229-253 | "" and "." give [0]; otherwise the length-prefixed valid labels followed by 0 |
| DnsName.ParseLoop | internal/dns/types.go:388-458 | the decoding loop terminates on every input; a decoded name has at most 253 bytes; after a jump the returned offset is 2 past the first pointer |
| DnsName.ParseName | internal/dns/types.go:380-459 | a decoded name has at most 253 bytes; the next offset is 2 past a leading pointer, else past the first label |
| DnsName.PointerToItselfFails | internal/dns/types.go:410-416 | a pointer to its own position is refused |
| DnsName.PointerCycleFails | internal/dns/types.go:405-408 | two pointers referring to each other are caught by the visited set |
| DnsName.ReservedLabelTypeFails | internal/dns/types.go:432-434 | a length byte from 64 to 191 is refused as a label longer than 63 |
| DnsName.ParseLoopEncoded | internal/dns/types.go:388-458 | length-prefixed labels ending in 0, anywhere in a message, decode to their dotted text and the offset after the 0 |
| DnsName.NameOfJoin | internal/dns/types.go:440-445 | the decoder's dotted text of a label list is the labels joined by dots |
| DnsName.StringToWireParses | internal/dns/types.go:229-253 | the encoder's output decodes, at any position of a message, to the dotted text of its labels |
| DnsName.StringToWireRoundTrip | internal/dns/types.go:229-253 | a domain of valid labels of at most 253 bytes decodes back to itself after encoding |
| DnsName.ParseNameWithWire | internal/dns/types.go:255-292 | succeeds exactly when parseDNSName does, with its name and offset, and returns as raw bytes exactly the message bytes the name occupies |
| DnsName.WireLoopCopies | internal/dns/types.go:271-289 | after a successful decode, the raw-bytes loop copies the name's bytes up to the terminating 0 or the first pointer |
| DnsName.PlainLabelsEncode | internal/dns/types.go:229-253 | a name written without compression is the encoding of its labels |
| DnsName.EncodedNameParses | internal/dns/types.go:255-292 | length-prefixed labels and a 0 decode to their dotted text and are returned as their own raw bytes |
| DnsName.EncodedNameDecodes | internal/dns/types.go:380-459 | length-prefixed labels and a 0 decode to their dotted text and the offset after the 0 |
| DnsName.PlainNameParses | internal/dns/types.go:255-292 | a name without compression decodes, wherever it sits, to its dotted text, its own bytes and the offset after it |
| DnsMessage.MarshalHeader | internal/dns/types.go:536-543 | the header is 12 bytes |
| DnsMessage.MarshalQuestionsLength | internal/dns/types.go:545-552 | each question adds its raw name and 4 bytes of type and class |
| DnsMessage.MarshalRecordsLength | internal/dns/types.go:582-595 | each record adds its raw name, 10 fixed bytes and its RDATA |
| DnsMessage.MarshalLength | internal/dns/types.go:533-580 | the output length is 12 + the sum of (name + 4) over the questions + the sum of (name + 10 + RDATA) over the records |
| DnsMessage.MarshalCounts | internal/dns/types.go:536-543 | the four header counts equal the section lengths, cut to 16 bits |
| DnsMessage.ParseFixed | internal/dns/types.go:472-531 | needs 10 fixed bytes then RDLENGTH bytes of RDATA, and the bytes consumed re-encode as the record tail |
| DnsMessage.ParseRecord | internal/dns/types.go:461-531 | a parsed record lies within the data; an OPT record gets an empty name, with Class the UDP payload size and TTL the extended flags |
| DnsMessage.RecordSpan | internal/dns/types.go:461-531 | a parsed non-OPT record marshals to exactly the bytes it spans; an OPT record marshals to a strictly shorter suffix of them |
| DnsMessage.ParseRecords | internal/dns/types.go:349-377 | a section parse yields exactly COUNT records within the data |
| DnsMessage.RecordsSpan | internal/dns/types.go:349-377 | a parsed section without OPT records marshals to exactly the bytes it spans |
| DnsMessage.RecordsShrink | internal/dns/types.go:349-377 | a parsed section marshals to at most its span, and to less when it holds an OPT record |
| DnsMessage.ParseQuestion | internal/dns/types.go:332-346 | a question is a name and 4 more bytes, and re-encodes to the bytes consumed |
| DnsMessage.ParseQuestions | internal/dns/types.go:330-347 | the question loop yields QDCOUNT questions that re-encode to the bytes from offset 12 |
| DnsMessage.ParseMessageAt | internal/dns/types.go:294-378 | below 12 bytes ErrDNSPacketTooShort; QDCOUNT above 1 ErrDNSTooManyQuestions; otherwise the header and section sizes as the counts say |
| DnsMessage.ParseMessage | internal/dns/types.go:294-378 | ParseDNSMessage succeeds exactly when the section parse does and returns its message |
| DnsMessage.TruncatedQuestionFails | internal/dns/types.go:337-339 | a question without its 4 type and class bytes fails the parse |
| DnsMessage.HeaderRoundTrip | internal/dns/types.go:307-321 | the header and counts a parse reads marshal back to the first 12 bytes |
| DnsMessage.ParseThenMarshal | internal/dns/types.go:294-378 | marshalling a parsed message without OPT records gives back exactly the bytes parsed |
| DnsMessage.OptMessageShrinks | internal/dns/types.go:478-481 | a parsed message holding an OPT record marshals to fewer bytes than it was parsed from |
| DnsMessage.ParseThenMarshalIff | internal/dns/types.go:294-378 | parse then marshal reproduces the consumed bytes if and only if no record is OPT |
| DnsMessage.RecordParses | internal/dns/types.go:461-531 | a marshalled record with an uncompressed name and a non-OPT type parses back to its name, type, class, TTL and RDATA |
| DnsMessage.RecordsParse | internal/dns/types.go:349-357 | a marshalled section of such records parses back field for field |
| DnsMessage.MarshalHeaderReads | internal/dns/types.go:307-321 | a marshalled header reads back as the ID, flags and counts |
| DnsMessage.QuestionsParse | internal/dns/types.go:330-347 | a marshalled question parses back to its raw name, type and class, with its dotted text |
| DnsMessage.MarshalThenParse | internal/dns/types.go:294-378 | a message with at most one question, uncompressed names and no OPT record round-trips through marshal and parse, consuming every byte |
| DnsResolver.Upstreams | internal/dns/resolver.go:58-67 | each upstream text that parses as IPv4 gives its 4-byte address; the rest are skipped |
| DnsResolver.NewResolver | internal/dns/resolver.go:58-75 | a new resolver has an empty cache and blocklist and keeps the given local domains |
| DnsResolver.UpstreamsAppend | internal/dns/resolver.go:60-67 | the upstream filter maps over concatenation, so it keeps the parsing texts in their order |
| DnsResolver.UpstreamsOne | internal/dns/resolver.go:61-66 | a text that does not parse is dropped; one that parses is kept as its address |
| DnsResolver.UpstreamsOfFormatted | internal/dns/resolver.go:58-67 | addresses printed as dotted quads are all kept, in order (print/parse round trip) |
| DnsResolver.DefaultUpstreams | internal/dns/resolver.go:44-56 | the default upstreams 1.1.1.1 and 9.9.9.9 both survive construction |
| DnsResolver.UnhexHex | internal/dns/resolver.go:105-107 | the `%x` rendering of the key bytes can be read back, so it loses nothing |
| DnsResolver.CacheKey | internal/dns/resolver.go:105-107 | the cache key is two hex digits per byte of the domain plus four for the big-endian type |
| DnsResolver.CacheKeyInjective | internal/dns/resolver.go:105-107 | distinct (domain, type) pairs never share a cache entry |
| DnsResolver.Resolve | internal/dns/resolver.go:77-138 | resolving only touches the cache, and only by removing an entry |
| DnsResolver.BlockedRecordShape | internal/dns/resolver.go:88-101 | the blocklist answer has the queried type, class IN, TTL 300, the 0xC00C name and all-zero RDATA of 4, 16 or 0 bytes |
| DnsResolver.ResolutionOrder | internal/dns/resolver.go:84-138 | the blocklist is consulted first, then an unexpired cache entry, then the local domains (A answers only), then upstream; only an expired entry for this query is dropped |
| DnsResolver.BlockedFirst | internal/dns/resolver.go:84-103 | a blocklisted domain is answered from the blocklist whatever the cache or local domains hold, and nothing changes |
| DnsResolver.AddLocalDomain | internal/dns/resolver.go:221-230 | on success only the local domains change |
| DnsResolver.AddLocalDomainStores | internal/dns/resolver.go:221-230 | succeeds exactly for an IPv4 address other than 0.0.0.0, storing its 4-byte form under the domain |
| DnsResolver.LocalDomainAnswers | internal/dns/resolver.go:123-138 | after AddLocalDomain an A query for the domain (not blocked, not cached) is answered with the stored address |
| DnsResolver.DeleteLocalDomain | internal/dns/resolver.go:232-236 | the domain is gone, every other local domain and all other state are kept |
| DnsResolver.AddBlocklistEntries | internal/dns/resolver.go:238-243 | the new blocklist holds the old entries and the added ones, with multiplicity; nothing else changes |
| DnsResolver.AddBlocklistSorted | internal/dns/resolver.go:238-243 | the blocklist comes out sorted, and it is the only sorted arrangement of those entries |
| DnsResolver.DeleteBlocklistEntry | internal/dns/resolver.go:245-255 | only the blocklist changes |
| DnsResolver.RemoveSorted | internal/dns/resolver.go:248-253 | removing the found element keeps the blocklist sorted |
| DnsResolver.RemoveMultiset | internal/dns/resolver.go:248-253 | removing the element at the index removes exactly one occurrence of it |
| DnsResolver.DeleteBlocklistRemovesOne | internal/dns/resolver.go:245-255 | on a sorted list a present domain loses one occurrence, an absent one changes nothing; the list stays sorted |
| DnsResolver.FlushBlocklist | internal/dns/resolver.go:257-261 | the blocklist becomes empty and nothing else changes |
| DnsResolver.FlushUnblocks | internal/dns/resolver.go:257-261 | after a flush the search finds no domain |
| LeaseCommon.StateNameIdentifies | internal/common/types.go:11-31 | the four states have four distinct names other than "unknown"; every other value prints "unknown" |
| LeaseCommon.Clear | internal/common/types.go:46-51 | clearing empties the client id and host name, zeroes the expiry and makes the lease Available, keeping its Id and IP |
| LeaseCommon.ClearIdempotent | internal/common/types.go:46-51 | clearing twice is clearing once |
| LeaseCommon.ClearForgets | internal/common/types.go:46-51 | two cleared leases are equal exactly when their Id and IP are |
| LeaseTable.FirstWhere | internal/dhcp/lease.go:95-103 | the index found is the first lease the loop's test accepts; None when no lease passes |
| LeaseTable.LookupSpec | internal/dhcp/lease.go:95-104 | the lease returned is the first one the client holds (ignoring case) and it is unexpired; an expired first match is cleared and nil returned; with no match nothing changes |
| LeaseTable.ExpiredLookupKeepsIp | internal/dhcp/lease.go:97-99 | an expired match is returned as nil and cleared, keeping its IP |
| LeaseTable.Accept | internal/dhcp/lease.go:107-120 | the pool keeps its size |
| LeaseTable.AcceptSpec | internal/dhcp/lease.go:107-120 | at most one lease changes: the first with exactly the offered client id, unless the offer is Reserved; it becomes Active until now + ttl |
| LeaseTable.ClearHeldReleases | internal/dhcp/lease.go:325-329 | after the clearing loop the (non-empty) client holds no lease and every lease it did not hold is untouched |
| LeaseTable.OfferTo | internal/dhcp/lease.go:143-166 | an offered lease is Offered to the client for 60 seconds and keeps its Id, IP and host name |
| LeaseTable.NextAvailableSpec | internal/dhcp/lease.go:139-170 | the first offerable lease in pool order is offered and returned, nothing else changes; nil exactly when no lease is offerable |
| LeaseTable.NextAvailableTwice | internal/dhcp/lease.go:139-170 | asking twice at the same instant returns the same lease and leaves the pool as the first call left it |
| LeaseTable.DrainInOrder | internal/dhcp/lease.go:107-170 | on a fresh pool, offering and accepting for distinct clients hands out the leases in pool order, the k-th client getting the k-th lease, Active |
| LeaseTable.LiveLeasesMembers | internal/dhcp/lease.go:281-297 | ActiveLeases lists exactly the Active, unexpired leases |
| LeaseTable.Persist | internal/dhcp/lease.go:192-227 | nothing is written exactly when the byte counter of Active leases wraps to 0; otherwise the first byte is that count mod 256 |
| LeaseTable.Load | internal/dhcp/lease.go:229-279 | an empty file changes nothing; a loaded table keeps the pool size; a first entry whose client-id length byte is 255 fails with LengthWraps |
| LeaseTable.DecodeEntry | internal/dhcp/lease.go:252-264 | an entry whose client-id or hostname length byte is 255 fails with LengthWraps, since the byte sum `1+len` wraps to 0 and the slice panics; otherwise it decodes as the wide-index decoder does |
| LeaseTable.WideEntryDecodes | internal/dhcp/lease.go:209-214 | with the end index computed without wrap-around, every written entry, fields up to 255 bytes included, decodes back to the lease with the load-time expiry |
| LeaseTable.LongFieldPanics | internal/dhcp/lease.go:253-258 | a written entry whose client id or hostname is exactly 255 bytes long fails to load with LengthWraps |
| LeaseTable.EntryDecodes | internal/dhcp/lease.go:209-214 | one persisted entry whose fields are shorter than 255 bytes decodes back to the lease with the load-time expiry, leaving the rest of the data |
| LeaseTable.EntriesDecode | internal/dhcp/lease.go:202-217 | the persisted entries, with fields shorter than 255 bytes, decode back to the Active leases in pool order |
| LeaseTable.PersistThenLoad | internal/dhcp/lease.go:192-279 | persisting 1 to 255 Active leases with distinct 4-byte IPs and client ids and hostnames shorter than 255 bytes, and loading the bytes into the same pool, restores each Active lease with its new expiry and leaves the others untouched |
| LeaseTable.LongClientIdBreaksReload | internal/dhcp/lease.go:192-264 | a pool whose one Active lease has a 255-byte client id is written, but loading what was written fails with LengthWraps |
| LeaseTable.PersistWrapsAt256 | internal/dhcp/lease.go:200-224 | 256 Active leases wrap the counter to 0 and nothing is written |
| LeasePool.RangeLeases | internal/dhcp/lease.go:73-79 | lease i is a fresh Available lease at address start + i, wrapping at 2^32 |
| LeasePool.NewLeasePoolRange | internal/dhcp/lease.go:70-87 | for start <= end the pool holds end - start + 1 Available leases with zero expiry, lease i at start + i, the last at the end address, all addresses distinct |
| LeasePool.MappedAddressesGiveOneLease | internal/dhcp/lease.go:71-72 | two addresses in the 16-byte form both read as 0, so the pool is the single lease 0.0.0.0 |
| LeasePool.GetLease | internal/dhcp/lease.go:89-105 | looking up a lease keeps the reservations and the pool size |
| LeasePool.AcceptLease | internal/dhcp/lease.go:107-120 | accepting keeps the reservations and the pool size |
| LeasePool.NextAvailableLease | internal/dhcp/lease.go:139-170 | offering keeps the reservations and the pool size |
| LeasePool.ReserveLeaseSpec | internal/dhcp/lease.go:172-190 | refused exactly when another client has reserved an equal address, keeping the reservations; otherwise the client's reservation is stored; either way only the client's first non-Available pool lease may be cleared |
| LeasePool.ReserveThenGet | internal/dhcp/lease.go:92-94 | a client that has just reserved an address gets that reservation from GetLease |
| LeasePool.ReleaseThenGet | internal/dhcp/lease.go:316-330 | a released reservation is removed and the pool untouched; without one, the client gets no lease back afterwards |
| LeasePool.ActiveLeasesMembers | internal/dhcp/lease.go:281-297 | a lease is listed exactly when it is the field copy of an Active, unexpired pool lease |
| LeasePool.ReservedLeasesOnePerKey | internal/dhcp/lease.go:299-314 | one copy per reservation, in any iteration order |
| LeasePool.LoadLeases | internal/dhcp/lease.go:229-279 | an empty file leaves the pool as it is; loading never changes the reservations; a first entry whose client-id length byte is 255 fails with LengthWraps |
| LeasePool.PersistThenLoadPool | internal/dhcp/lease.go:192-279 | saving and loading a pool whose Active leases have fields shorter than 255 bytes restores every Active lease with the new expiry and leaves the rest alone |
| LeaseDb.NewLeaseDBRange | dhcp/lease.go:69-86 | for start <= end the database holds end - start Available leases, lease i at start + i, and none has the end address |
| LeaseDb.GetLease | dhcp/lease.go:88-104 | looking up keeps the reservations and the pool size |
| LeaseDb.AcceptLease | dhcp/lease.go:106-119 | accepting keeps the reservations and the pool size |
| LeaseDb.NextAvailableLease | dhcp/lease.go:121-152 | offering keeps the reservations and the pool size |
| LeaseDb.ReserveLease | dhcp/lease.go:154-158 | reserving never touches the pool leases |
| LeaseDb.ReserveThenGet | dhcp/lease.go:88-93 | whatever the pool holds, a reserved client gets its reservation back, Reserved at the reserved address, with nothing changed |
| LeaseDb.ReleaseLease | dhcp/lease.go:272-280 | releasing never touches the reservations |
| LeaseDb.ReleaseThenGet | dhcp/lease.go:272-280 | a released client without a reservation gets nothing back; a reservation survives a release |
| LeaseDb.ReservedLeases | dhcp/lease.go:261-270 | each reservation is listed once and only reservations are listed |
| LeaseDb.LoadLeases | dhcp/lease.go:197-247 | an empty file leaves the pool as it is; loading never changes the reservations; a first entry whose client-id length byte is 255 fails with LengthWraps |
| LeaseDb.FreshDbHandsOutInOrder | dhcp/lease_test.go:49-57 | on a fresh database, offering and accepting for distinct clients gives client i lease i, Active until now + ttl |
| LeaseDb.ExpiredOfferReassigned | dhcp/lease.go:132-141 | an offer that has run out is offered to the next client who asks |
| DhcpPacket.CopyAt | dhcp/packet.go:257-259 | `copy` into a sub-slice writes the first min(room, length) source bytes at the offset and nothing else |
| DhcpPacket.HLen | dhcp/packet.go:235-240 | the hardware length reads as at most 16, and as stored when the byte is at most 16 |
| DhcpPacket.SetHLen | dhcp/packet.go:242-247 | only byte 2 changes; a non-negative size reads back clamped to 16 |
| DhcpPacket.SettersRoundTrip | dhcp/packet.go:253-321 | SetXId, SetYIAddr, SetGIAddr and SetCookie write where XId, YIAddr, GIAddr and Cookie read (offsets 4, 16, 24, 236) and change no other byte |
| DhcpPacket.CHAddr | dhcp/packet.go:297-300 | the hardware address is HLen bytes, at most 16 |
| DhcpPacket.CHAddrRoundTrip | dhcp/packet.go:297-305 | an address of at most 16 bytes set with SetCHAddr is read back with its length |
| DhcpPacket.SetFlagsAsWritten | dhcp/packet.go:261-271 | SetFlags writes into the secs bytes, so Flags still reads the old flags |
| DhcpPacket.BroadcastFlagLost | dhcp/packet.go:265-271 | on a zero message, setting the broadcast flag 0x8000 leaves Flags reading 0 |
| DhcpPacket.SetFlagsCorrectedRoundTrip | dhcp/packet.go:265-271 | a setter writing bytes 10-11 round trips with Flags and leaves secs alone |
| DhcpPacket.CorrectedReplyKeepsFlags | dhcp/packet.go:343-349 | with the corrected setter the reply echoes the request's flags and leaves secs zero |
| DhcpPacket.NewMessage | dhcp/packet.go:203-217 | a new message is 300 bytes with the op code, htype 1 and the cookie 99.130.83.99 at 236-239, every other byte zero |
| DhcpPacket.FillPadding | dhcp/packet.go:337-341 | a message shorter than 272 bytes is zero-extended to 272, a longer one is unchanged |
| DhcpPacket.FillPaddingIdempotent | dhcp/packet.go:337-341 | padding twice is padding once |
| DhcpPacket.Step | dhcp/packet.go:45-55 | one pass of the switch never reads past the end and keeps every value a piece of at most 255 bytes (4 for tags 1 and 2), never keyed by Pad or End |
| DhcpPacket.ParseOptions | dhcp/packet.go:40-62 | the parsed options never hold Pad or End and every value fits its length byte |
| DhcpPacket.Encode | dhcp/packet.go:356-361 | the encoding of a list of options is empty exactly when the list is |
| DhcpPacket.StepReadsItem | dhcp/packet.go:45-58 | one pass of the loop consumes exactly one encoded option and records it |
| DhcpPacket.LoopReads | dhcp/packet.go:44-59 | the loop reads a run of encoded options, Pad skipped and End stopping it, into the map they build |
| DhcpPacket.ParseOptionsReads | dhcp/packet.go:40-62 | options encoded as tag, length, value and ended properly parse back to the map they build (later tags overriding earlier ones) |
| DhcpPacket.LoopTruncates | dhcp/packet.go:52-53 | a last option whose length runs past the data keeps only the bytes that are there |
| DhcpPacket.PaddingReadsNothing | dhcp/packet.go:46 | an all-zero options area is padding and adds nothing |
| DhcpPacket.SetOptions | dhcp/packet.go:327-335 | the message keeps its length and its parsed options |
| DhcpPacket.SetOptionsLost | dhcp/packet.go:327-335 | options set on a new message are lost: it parses as having none |
| DhcpPacket.WithLeaseTime | dhcp/packet.go:350-353 | a positive duration adds option 51 holding the whole seconds as a big-endian uint32; no other option changes |
| DhcpPacket.DHCPReply | dhcp/packet.go:343-365 | the reply is always 300 bytes |
| DhcpPacket.ReplyHeaderFields | dhcp/packet.go:343-349 | the header is a response with htype 1 and the cookie, the request's xid, giaddr and chaddr, the given yiaddr, the request's flags in secs and zero flags |
| DhcpPacket.DHCPReplyFields | dhcp/packet.go:343-365 | the reply carries the same fixed fields once the options are copied in |
| DhcpPacket.ReplyOptionsArea | dhcp/packet.go:354-363 | the options area starts with every option in iteration order followed by End, when it fits |
| DhcpPacket.CollectInOrder | dhcp/packet.go:356-360 | collecting the options listed in any iteration order gives back the map |
| DhcpPacket.ReplyOptionsRoundTrip | dhcp/packet.go:343-365 | the options a reply carries, the lease time included, parse back from it when they fit the 60 bytes after the cookie |
| DhcpServer.BareRequestCrashes | internal/dhcp/server.go:211-252 | a queued datagram of exactly 240 bytes has an empty options area and the worker panics on it |
| DhcpServer.MacText | internal/dhcp/server.go:245 | the client id of a hardware address is two hex digits per byte joined by colons |
| DhcpServer.MacTextInjective | internal/dhcp/server.go:255 | different hardware addresses give different client ids |
| DhcpServer.NameServerBytes | internal/dhcp/server.go:274-277 | four bytes per configured name server |
| DhcpServer.ReplyOptions | internal/dhcp/server.go:267-279 | every answer carries exactly the message type, server identifier, lease time (the TTL as a big-endian uint32), router, subnet mask, name servers and domain name options |
| DhcpServer.SetHostname | internal/dhcp/server.go:295-298 | recording a host name keeps the pool size and the reserved clients |
| DhcpServer.HandleRequest | internal/dhcp/server.go:243-353 | every reply is an OFFER, an ACK or a NAK |
| DhcpServer.DiscoverOffers | internal/dhcp/server.go:253-280 | a DISCOVER is offered the client's current lease, else the next available one; no reply exactly when there is neither |
| DhcpServer.ForeignRequestIgnored | internal/dhcp/server.go:284-287 | a REQUEST naming another server is ignored and changes nothing |
| DhcpServer.RequestAckIff | internal/dhcp/server.go:288-341 | any other REQUEST is answered; ACK exactly when the client's lease has the requested address (option 50, else ciaddr) and is Offered, Reserved or Active, carrying that address; NAK otherwise |
| DhcpServer.ReserveKeepsWellKeyed | internal/dhcp/lease.go:188 | reservations stay stored under their own client id |
| DhcpServer.ReleaseSilent | internal/dhcp/server.go:343-351 | a RELEASE is never answered; a reserved client loses its reservation only; a client whose lease was found holds none afterwards |
| DhcpServer.ReleaseForeign | internal/dhcp/lease.go:316-330 | releasing a lease held under another spelling of the client id still clears every lease the id holds |
| DhcpServer.BroadcastAddr | internal/dhcp/server.go:129-135 | the broadcast address is four bytes |
| DhcpServer.BroadcastInNetwork | internal/dhcp/server.go:131-135 | the broadcast address lies in the interface's network and has every host bit set |
| DhcpServer.ReplyDestination | internal/dhcp/server.go:355-370 | a reply goes to the broadcast address exactly when the source address is 0.0.0.0 (or already the broadcast address), keeping the port; otherwise to the source |
| NetlinkHeader.DecodeMessage | netlink/types.go:20-31 | decoding fails exactly on fewer than 12 bytes, with io.EOF exactly on none; otherwise the payload is everything after the header |
| NetlinkHeader.DecodeEncoded | netlink/types.go:20-31 | a little-endian header followed by any payload decodes to that header and payload |
| NetlinkHeader.EncodeDecoded | netlink/types.go:20-31 | every input that decodes is the encoding of its header followed by its payload |
| NetlinkRoute.NameOrNumber | internal/netlink/types.go:37-51 | a protocol or scope with a table entry prints its name, any other its decimal number |
| NetlinkRoute.Segment | internal/netlink/types.go:29-59 | a set field contributes its label and value, an unset one nothing |
| NetlinkRoute.RouteText | internal/netlink/types.go:20-62 | a route without destination or prefix starts with "default", one with a destination with "dst/len", and one with only a prefix length has no destination part |
| NetlinkRoute.LastSegment | internal/netlink/types.go:53-61 | a non-zero metric ends the line as " metric n"; without it, a source ends the line |
| NetlinkRoute.SegmentOrder | internal/netlink/types.go:20-62 | with every field set the segments come as destination, via, dev, proto, scope, src, metric |
| NetlinkRoute.GatewaySegment | internal/netlink/types.go:29-31 | setting a gateway adds exactly " via gw" right after the destination |
| NetlinkRoute.HeadlessRoute | internal/netlink/types.go:23-27 | a route with a prefix length, no destination and nothing else set prints as the empty string |
| NetlinkRoute.NameOrNumberInjective | internal/netlink/types.go:37-51 | different protocols, and different scopes, print differently |
| NetlinkAttr.Align4 | internal/netlink/netlink.go:449 | rounding up to four gives the least multiple of four at or above the length |
| NetlinkAttr.BuildAttribute | internal/netlink/netlink.go:447-456 | an attribute is its length (4 + data) and type in host order, the data, and zero padding to a multiple of four |
| NetlinkAttr.WalkAsWritten | internal/netlink/netlink.go:461-475 | the loop as written, with the uint16 alignment that can wrap; when it ends it has visited at most one attribute per four bytes |
| NetlinkAttr.AsWrittenHangs | internal/netlink/netlink.go:473-474 | an attribute of length 65533 or more that fits the data makes the uint16 alignment wrap to 0, so the loop never advances |
| NetlinkAttr.LongAttributeHangs | internal/netlink/netlink.go:473-474 | concretely, one attribute of 65529 data bytes sends the loop into an endless cycle |
| NetlinkAttr.Walk | internal/netlink/netlink.go:458-478 | the loop with the alignment computed without wrap-around never hangs and reads nothing from fewer than four bytes |
| NetlinkAttr.WalkAgreesBelow | internal/netlink/netlink.go:461-475 | on data shorter than 65533 bytes the loop as written and the corrected loop agree |
| NetlinkAttr.AsWrittenAgrees | internal/netlink/netlink.go:461-475 | when the corrected loop finishes and every value it visits is shorter than 65529 bytes, the loop as written gives the same attributes |
| NetlinkAttr.AsWrittenOrHangs | internal/netlink/netlink.go:461-475 | on every input the loop as written either agrees with the corrected loop or never ends |
| NetlinkAttr.UnpaddedFinalPanics | internal/netlink/netlink.go:473-474 | a last attribute that fills the data but is not a multiple of four makes the re-slice run past the end |
| NetlinkAttr.WalkBuilt | internal/netlink/netlink.go:447-475 | walking a built attribute visits exactly it, then continues after its padding |
| NetlinkAttr.WalkEncoded | internal/netlink/netlink.go:447-475 | walking built attributes followed by anything visits exactly those attributes, in order, first |
| NetlinkAttr.Collect | internal/netlink/netlink.go:469-471 | the map has a key for every attribute type seen and no other |
| NetlinkAttr.CollectLastWins | internal/netlink/netlink.go:469-471 | the value kept for a type is that of its last attribute |
| NetlinkAttr.ParseRouteAttributes | internal/netlink/netlink.go:458-478 | parsing fails with SliceOutOfRange exactly when the loop as written slices past the end and with LoopsForever exactly when its uint16 step wraps to 0; fewer than four bytes give the empty map |
| NetlinkAttr.ParseBuilt | internal/netlink/netlink.go:447-478 | one built attribute parses back to itself |
| NetlinkAttr.ParseEncoded | internal/netlink/netlink.go:447-478 | built attributes followed by data the loop stops at parse back to the map they build |
| NetlinkAttr.OperstateName | internal/netlink/netlink.go:518-532 | the state name is one of the seven names; "up" exactly for 6; "unknown" exactly for 0 and values above 6 |
| NetlinkAttr.OperstateNameInjective | internal/netlink/netlink.go:518-532 | the seven known states have seven different names |
| NetlinkAttr.TrimNul | internal/netlink/netlink.go:493-495 | one trailing NUL is removed, and only that |
| NetlinkAttr.ApplyLinkAttr | internal/netlink/netlink.go:491-511 | an IFLA_MTU value longer than four bytes fails with WordLength, since nlenc.Uint32 panics on it, and nothing else fails; a success never changes the index, flags, type or state, and an attribute of an unknown type changes nothing |
| NetlinkAttr.ParseInterfaceAttributes | internal/netlink/netlink.go:480-516 | the loop as written, applying each attribute before stepping past it; a success never changes the index or flags, and fewer than four bytes change nothing |
| NetlinkAttr.InterfaceAttrsWalk | internal/netlink/netlink.go:461-516 | when the attribute walk as written finishes, parsing the interface attributes is applying the walked attributes in turn; when it panics or loops, parsing fails |
| NetlinkAttr.ApplyLinkAttrs | internal/netlink/netlink.go:481-515 | applying the attributes in turn fails with WordLength exactly when one of them is an IFLA_MTU longer than four bytes; a success never changes the index, flags, type or state, and attributes of unknown types change nothing |
| NetlinkAttr.ParseOneLinkAttr | internal/netlink/netlink.go:480-516 | parsing one built attribute applies exactly that attribute |
| NetlinkAttr.IfnameRoundTrip | internal/netlink/netlink.go:492-496 | a NUL-terminated IFLA_IFNAME sets the name without its NUL |
| NetlinkAttr.MtuRoundTrip | internal/netlink/netlink.go:497-500 | a four-byte IFLA_MTU sets the MTU; a shorter one is ignored; a longer one fails with WordLength |
| NetlinkAttr.OperstateRoundTrip | internal/netlink/netlink.go:507-510 | IFLA_OPERSTATE sets the name of its first byte |
| NetlinkAttr.DecodeLink | internal/netlink/netlink.go:165-190 | messages that are not RTM_NEWLINK or are shorter than 16 bytes are skipped; a kept one has the type, index and flags of its header and is "up" exactly when IFF_UP is set |
| NetlinkAttr.GetInterfaces | internal/netlink/netlink.go:148-194 | one interface per RTM_NEWLINK message of at least 16 bytes; the dump fails exactly when one of its messages fails to decode |
| NetlinkAttr.SetStateMessage | internal/netlink/netlink.go:346-357 | the request payload is a 16-byte ifinfomsg |
| NetlinkAttr.SetStateDecodes | internal/netlink/netlink.go:340-365 | read back as a link message, the request names the interface, has flags IFF_UP or 0 as asked, and a change mask of IFF_UP |
| NetlinkAttr.DevName | internal/netlink/netlink.go:309-316 | the device is the interface's name when known, else "if" and the index |
| NetlinkAttr.RouteOf | internal/netlink/netlink.go:289-324 | decoding fails with WordLength exactly when the RTA_OIF or RTA_PRIORITY value is longer than four bytes, since nlenc.Uint32 panics on it; otherwise family, prefix length, protocol and scope come from the header bytes, and the device and metric from four-byte attributes, absent otherwise |
| NetlinkAttr.DecodeRoute | internal/netlink/netlink.go:280-287 | messages that are not RTM_NEWROUTE or are shorter than 12 bytes are skipped |
| NetlinkAttr.GetRoutes | internal/netlink/netlink.go:264-330 | one route per RTM_NEWROUTE message of at least 12 bytes; the dump fails exactly when one of its messages fails to decode |
| NetlinkAttr.RouteRoundTrip | internal/netlink/netlink.go:264-330 | a route message carrying only an output interface and a priority decodes to that device and metric, nothing else set |
| Hosts.DropCR | internal/util/hosts.go:10-12 | a scanned line loses exactly one trailing carriage return and is otherwise unchanged |
| Hosts.Lines | internal/util/hosts.go:10-12 | the scanner yields at most one line per newline-separated piece of the content |
| Text.TrimSpace | internal/util/hosts.go:13 | the trimmed text neither starts nor ends with white space, and is empty exactly when the line is all white space |
| Text.Fields | internal/util/hosts.go:26 | splitting on white space yields no more fields than the line has characters |
| Text.FieldsAreWords | internal/util/hosts.go:26 | every field is a non-empty run of non-space characters |
| Hosts.Classify | internal/util/hosts.go:13-29 | a line is skipped exactly when it is blank after trimming or starts with "#" |
| Hosts.HostsOf | internal/util/hosts.go:12-33 | the host list has at most one name per line |
| Hosts.HostsOfAccepts | internal/util/hosts.go:12-33 | the lines are accepted exactly when none of them has fewer than two fields without being blank or a comment |
| Hosts.ValidateHosts | internal/util/hosts.go:8-34 | the host list returned has at most one name per line of the file |
| Hosts.ValidateAccepts | internal/util/hosts.go:8-34 | a file is accepted exactly when every line is blank, a comment or an entry with at least two fields |
| Hosts.OnlySkippedLines | internal/util/hosts.go:12-23 | lines that are all blank or comments are accepted with an empty host list |
| Hosts.EmptyFile | internal/util/hosts.go:8-34 | the empty file is accepted with no hosts |
| Hosts.EntryLines | internal/util/hosts.go:26-30 | rendering entries gives one line per entry, in order |
| Hosts.Names | internal/util/hosts.go:30 | the expected host list is the second field of each entry, in order |
| Hosts.EntryLineHost | internal/util/hosts.go:26-30 | an "address name" line is an entry whose host is the name |
| Hosts.HostsOfEntries | internal/util/hosts.go:12-33 | the lines of well-formed entries give back exactly their names, in order |
| Hosts.RenderRoundTrip | internal/util/hosts.go:8-34 | validating a rendered hosts file gives back exactly the entries' names, in order |
| Duration.Quot | internal/system/system_linux.go:107-110 | Go's integer division agrees with floor division on non-negative operands and is never positive for a negative dividend |
| Duration.Rem | internal/system/system_linux.go:107-110 | Go's remainder agrees with the modulus on non-negative operands and lies in (-b, 0] for a negative dividend |
| Duration.Components | internal/system/system_linux.go:107-110 | for a non-negative duration hours are below 24 and minutes and seconds below 60; for a negative one no component is positive |
| Duration.Piece | internal/system/system_linux.go:112-123 | a component is printed as its decimal digits and unit letter exactly when it is positive |
| Duration.FormatDuration | internal/system/system_linux.go:104-105 | the zero duration is printed as "0s" |
| Duration.ComponentsSum | internal/system/system_linux.go:107-110 | days, hours, minutes and seconds add back up to the duration's whole seconds |
| Duration.NothingBelowOneSecond | internal/system/system_linux.go:103-125 | a non-zero duration below one second, negative ones included, prints as the empty string |
| Duration.PieceValue | internal/system/system_linux.go:112-123 | a printed piece reads back as its number times its unit's seconds |
| Duration.PiecesPlain | internal/system/system_linux.go:111-124 | every printed piece is digits then a unit letter, with no ":" inside |
| Duration.PiecesSum | internal/system/system_linux.go:107-123 | the printed pieces stand for exactly the duration's whole seconds |
| Duration.FormatParse | internal/system/system_linux.go:103-125 | reading the printed uptime back gives the whole seconds of any non-negative duration |
| WebValidate.Finish | internal/web/v1/types.go:93-96 | validation fails exactly when some error was collected, and reports all of them |
| WebValidate.CountFieldAppend | internal/web/v1/types.go:60-97 | errors on a field in two lists add up |
| WebValidate.RegexAddressErrors | internal/web/v1/types.go:74-92 | an address field has no error exactly when it is present and matches the dotted-quad pattern, and at most one error, on that field, otherwise |
| WebValidate.NotV4Unreachable | internal/web/v1/types.go:86-91 | the "must be IPv4" branch cannot fire once the dotted-quad pattern matched |
| WebValidate.ClientIdErrors | internal/web/v1/types.go:62-72 | the client id has no error exactly when it is present and a MAC, and at most one otherwise |
| WebValidate.ValidateLeaseRequest | internal/web/v1/types.go:60-97 | a request that fails always carries at least one error |
| WebValidate.LeaseRequestValid | internal/web/v1/types.go:60-97 | a lease request passes exactly when the client id is a MAC and the address is IPv4 text; each field reports at most one error |
| WebValidate.ValidateLocalDomain | internal/web/v1/types.go:109-140 | a local domain passes exactly when the domain is present and the address is IPv4 text |
| WebValidate.TtlErrors | internal/web/v1/types.go:257-262 | a lease TTL is rejected exactly when it is zero, so a negative TTL passes |
| Text.Split | internal/web/v1/types.go:302 | splitting gives at least one piece, no piece holds the separator, and joining the pieces with it gives the text back |
| WebValidate.NameServerErrors | internal/web/v1/types.go:302-311 | the name server list has no error exactly when every comma-separated piece is IPv4 text |
| WebValidate.ValidateOptions | internal/web/v1/types.go:162-317 | options that fail always carry at least one error |
| WebValidate.RangeValid | internal/web/v1/types.go:170-255 | the start and end blocks pass exactly when both are IPv4, distinct, neither is the gateway, and start is below end |
| WebValidate.RangeOrder | internal/web/v1/types.go:170-255 | with good distinct addresses an empty range is reported once on each field and a proper one not at all |
| WebValidate.BadEndReportedTwice | internal/web/v1/types.go:213-255 | a missing or malformed end address beside a good start is reported twice on the end field |
| WebValidate.OptionsValid | internal/web/v1/types.go:162-317 | the options pass exactly when the interface is named, the range is valid, the TTL is non-zero and the gateway, mask and every name server are IPv4 text |
| WebValidate.EmptyNameServersRejected | internal/web/v1/types.go:302-311 | an empty name server list is rejected, because splitting "" gives one empty piece |
| WebValidate.SpacedPieceRejected | internal/web/v1/types.go:302-311 | a name server piece starting with a space, as in a list written "a, b", does not parse as IPv4 |
| ApiMiddleware.SpaPath | internal/web/v1/middleware.go:11-27 | API, metrics and paths with a dot reach the rest of the chain unchanged |
| ApiMiddleware.SpaPathIff | internal/web/v1/middleware.go:11-27 | a path is left alone exactly when it is under /api/ or /metrics, holds a dot or is "/" already; any other path becomes "/" |
| ApiMiddleware.SpaPathIdempotent | internal/web/v1/middleware.go:11-27 | rewriting a rewritten path changes nothing |
| ApiMiddleware.Authorize | internal/web/v1/middleware.go:29-61 | a missing header, a header without "Bearer " and an empty token are each refused 401 with their own message |
| ApiMiddleware.AuthorizeIff | internal/web/v1/middleware.go:29-61 | the chain continues exactly for "Bearer " followed by a token that parses, with the token's user name |
| ApiMiddleware.BearerToken | internal/web/v1/middleware.go:38-56 | after one "Bearer " prefix the request passes exactly when the rest is a non-empty token that parses |
| WebMiddleware.SanitiseHeaders | internal/web/middleware.go:66-75 | no header name left equals "authorization" up to ASCII case |
| WebMiddleware.SanitiseKeepsOthers | internal/web/middleware.go:66-75 | a header is kept, with its values, exactly when its name is not "authorization" up to case |
| WebMiddleware.SanitiseIdempotent | internal/web/middleware.go:66-75 | sanitising twice is sanitising once |
| WebMiddleware.Gate | internal/web/middleware.go:29-38 | CORS answers exactly the OPTIONS requests, with 200 and an allow-origin of "*", and logging never answers |
| WebMiddleware.SecureIff | internal/web/middleware.go:40-63 | Secure passes a request exactly when its claim is non-empty, parses and has not expired, and otherwise answers 401 "unauthorised" |
| WebMiddleware.Serve | internal/web/middleware.go:14-20 | a request enters the outermost layer first and passes at most every layer |
| WebMiddleware.Decorate | internal/web/middleware.go:14-20 | CORS is the innermost layer, with one layer per decorator around it |
| WebMiddleware.HandledIff | internal/web/middleware.go:14-63 | the wrapped handler runs exactly when no layer answers by itself |
| WebMiddleware.PassThrough | internal/web/middleware.go:14-20 | a request no layer answers enters the layers from outermost to innermost and reaches the handler |
| WebMiddleware.DecorateOrder | internal/web/middleware.go:14-20 | a passing non-OPTIONS request enters the decorators from last to first, then CORS, then the handler |
| WebMiddleware.CorsAnswersOptions | internal/web/middleware.go:29-38 | an OPTIONS request through logging decorators is answered 200 by CORS and never reaches the handler |
| ServiceManager.Register | internal/service/manager.go:30-32 | the key now holds the service and every other key is unchanged |
| ServiceManager.GetService | internal/service/manager.go:51-55 | a service is returned exactly when the key is registered with a service of the asked type |
| ServiceManager.RegisterThenGet | internal/service/manager.go:30-60 | after registering, the key is registered and looks up the new service |
| ServiceManager.RegisterOverwrites | internal/service/manager.go:30-32 | registering a key twice keeps only the second service |
| ServiceManager.DistinctCard | internal/service/manager.go:62-68 | a list of distinct keys has as many keys as entries |
| ServiceManager.OrderCoversKeys | internal/service/manager.go:62-68 | an iteration order over the registry lists as many keys as the registry holds |
| ServiceManager.GetActiveServices | internal/service/manager.go:62-68 | every registered key is listed once and nothing else is |
| ServiceManager.CheckErrors | internal/service/manager.go:70-77 | the error returned is that of the last function called, and all are called when none fails |
| ServiceManager.CheckErrorsFirst | internal/service/manager.go:70-77 | functions are called up to and including the first failure, and the result is nil exactly when none fails |
| ServiceManager.RunAll | internal/service/manager.go:34-49 | Start and Stop call each service at most once |
| ServiceManager.RunAllOnce | internal/service/manager.go:34-49 | Start and Stop invoke distinct services, fail with the first failing service's error, and succeed exactly when every service does |
| PromParse.Span | internal/web/ui/src/lib/prometheus/prom.js:66 | a greedy character class consumes exactly the leading characters in the class |
| PromParse.ToMap | internal/web/ui/src/lib/prometheus/prom.js:95-97 | every scanned label name is a key of the result and every key was scanned |
| PromParse.ToMapLastWins | internal/web/ui/src/lib/prometheus/prom.js:95-97 | a label name repeated in the block keeps the value of its last occurrence |
| PromParse.KindOf | internal/web/ui/src/lib/prometheus/prom.js:29-62 | a line is skipped exactly when it is blank or a comment other than HELP or TYPE, and is a HELP or TYPE directive by its prefix otherwise |
| PromParse.ParseLine | internal/web/ui/src/lib/prometheus/prom.js:27-82 | a skipped line changes nothing and every line adds at most one family and removes none |
| PromParse.ParseLines | internal/web/ui/src/lib/prometheus/prom.js:27-82 | the families only grow as the lines are read |
| PromParse.ParseLinesAppend | internal/web/ui/src/lib/prometheus/prom.js:27-82 | parsing two runs of lines is parsing the second from the result of the first |
| PromParse.HelpSetsOnlyHelp | internal/web/ui/src/lib/prometheus/prom.js:39-49 | a matching HELP line sets its family's help, creating the family if needed, and changes nothing else |
| PromParse.TypeSetsOnlyType | internal/web/ui/src/lib/prometheus/prom.js:52-62 | a matching TYPE line sets its family's type, creating the family if needed, and changes nothing else |
| PromParse.HelpLineRoundTrip | internal/web/ui/src/lib/prometheus/prom.js:40 | a HELP line written for a name and help text matches as that name and text |
| PromParse.TypeLineRoundTrip | internal/web/ui/src/lib/prometheus/prom.js:53 | a TYPE line written for a name and type matches as that name and type |
| PromParse.MatchSample | internal/web/ui/src/lib/prometheus/prom.js:65-67 | a sample match names a non-empty metric that starts the line |
| PromParse.SampleValue | internal/web/ui/src/lib/prometheus/prom.js:79 | the token "NaN" reads as NaN |
| PromParse.TailOf | internal/web/ui/src/lib/prometheus/prom.js:66 | the value is the token after the white space, with or without a trailing timestamp |
| PromParse.SampleLineMatches | internal/web/ui/src/lib/prometheus/prom.js:65-71 | a written sample line matches as its name, its label block and its value |
| PromParse.LabelsRoundTrip | internal/web/ui/src/lib/prometheus/prom.js:90-100 | parsing a written label block gives back its pairs, a repeated name keeping its last value |
| PromParse.SampleLineAppends | internal/web/ui/src/lib/prometheus/prom.js:65-81 | reading a written sample line appends its labels and value to its family and changes nothing else |
| PromParse.ParseMetricsOfLines | internal/web/ui/src/lib/prometheus/prom.js:22-27 | the text is read one newline-separated line after another, from an empty result |
| PromParse.FamilyRoundTrip | internal/web/ui/src/lib/prometheus/prom.js:22-85 | a family written as HELP, TYPE and one sample line is read back as exactly that family |
| PromQuery.LessOrder | internal/web/ui/src/lib/prometheus/prom.js:122 | without NaN the comparator is a strict total order |
| PromQuery.Candidates | internal/web/ui/src/lib/prometheus/prom.js:116-121 | the filter and map never add buckets |
| PromQuery.CandidatesIff | internal/web/ui/src/lib/prometheus/prom.js:116-121 | a bucket is a candidate exactly when it is made from a sample whose le label is not "+Inf" |
| PromQuery.Insert | internal/web/ui/src/lib/prometheus/prom.js:122 | inserting a bucket adds exactly that bucket |
| PromQuery.SortBuckets | internal/web/ui/src/lib/prometheus/prom.js:122 | the sort is a permutation of the buckets |
| PromQuery.InsertSorted | internal/web/ui/src/lib/prometheus/prom.js:122 | inserting a non-NaN bucket into sorted buckets keeps them sorted |
| PromQuery.SortSorted | internal/web/ui/src/lib/prometheus/prom.js:122 | without NaN bounds the buckets come out in ascending order of bound |
| PromQuery.InsertKeep | internal/web/ui/src/lib/prometheus/prom.js:122 | insertion puts a bucket after every bucket with the same bound |
| PromQuery.SortStable | internal/web/ui/src/lib/prometheus/prom.js:122 | buckets sharing a bound keep the order they had |
| PromQuery.SortedUnchanged | internal/web/ui/src/lib/prometheus/prom.js:122 | buckets already in order are left as they are |
| PromQuery.FirstValue | internal/web/ui/src/lib/prometheus/prom.js:112-114 | the first value exists exactly when the family exists and has a sample |
| PromQuery.OrZero | internal/web/ui/src/lib/prometheus/prom.js:112-114 | a falsy or missing value becomes 0 and a truthy value is kept |
| PromQuery.HistogramOf | internal/web/ui/src/lib/prometheus/prom.js:107-132 | the buckets are a permutation of the candidates, sorted when no bound is NaN; sum and count are the first values or 0; the average is sum divided by count when the count is positive and 0 otherwise |
| PromQuery.HistogramStable | internal/web/ui/src/lib/prometheus/prom.js:116-122 | buckets with equal bounds come out in the order the text lists them |
| PromQuery.HistogramBuckets | internal/web/ui/src/lib/prometheus/prom.js:116-122 | the "+Inf" bucket never appears and every other bucket does |
| PromQuery.FirstOrZero | internal/web/ui/src/lib/prometheus/prom.js:143-148 | a missing or empty family reads as 0, and a family with values reads as its first value |
| PromQuery.GetGauge | internal/web/ui/src/lib/prometheus/prom.js:139-149 | the gauge is the first value of the parsed family, or 0 when the family is missing or empty |
| PromQuery.GetCounter | internal/web/ui/src/lib/prometheus/prom.js:156-166 | the counter is the first value of the parsed family, or 0 when the family is missing or empty |
| PromQuery.GetCounterVec | internal/web/ui/src/lib/prometheus/prom.js:173-186 | the answer is the family's samples, none when the family is missing |
| PromQuery.GetMetric | internal/web/ui/src/lib/prometheus/prom.js:193-198 | a family is returned exactly when the text defines it, and it is that family |
| PromQuery.Collect | internal/web/ui/src/lib/prometheus/prom.js:209-212 | the result has an entry for every name asked and no other |
| PromQuery.GetMetrics | internal/web/ui/src/lib/prometheus/prom.js:205-215 | the result has an entry for every name asked and no other |
| PromQuery.CollectLookup | internal/web/ui/src/lib/prometheus/prom.js:209-212 | each name asked maps to its family, or null when there is none |
| PromQuery.GetMetricsAgrees | internal/web/ui/src/lib/prometheus/prom.js:205-215 | every name asked maps to what getMetric answers for it |
| PromQuery.GaugeIsCounter | internal/web/ui/src/lib/prometheus/prom.js:139-166 | getGauge and getCounter give the same answer |
| PromQuery.SumIsCounterUnlessNaN | internal/web/ui/src/lib/prometheus/prom.js:112-114 | the histogram's sum is what getCounter answers for the _sum family, except that NaN becomes 0 |
| PromQuery.GaugeOfFamily | internal/web/ui/src/lib/prometheus/prom.js:139-166 | a gauge or counter written as one family reads back as its sample's value |
| PromQuery.CounterVecOfFamily | internal/web/ui/src/lib/prometheus/prom.js:173-186 | a counter vector written as one family reads back as its labels and value |
| PromQuery.MetricOfFamily | internal/web/ui/src/lib/prometheus/prom.js:193-198 | getMetric finds a written family with its help and type, and no other name |

## Left out

- Sockets, upstream DNS queries, file reads and writes, configuration updates, logging and Prometheus counters: I/O, so the model stops at the bytes or values handed to them.
- Mutexes and goroutines: every operation is modelled as running alone.
- `time.Now()`: the parameter `now`; the instant order is integer order.
- Go map iteration order: the parameter `order`, constrained only to list every key once.
- `net.ParseMAC`, `security.ParseClaim` and `ParseAuthToken`: predicate and function parameters, since their code is not part of this model.
- `net.ParseIP`: modelled for dotted-quad text only; the IPv6 textual forms that `To4` also accepts are not modelled.
- `net.IP.String` for route addresses: a parameter, since only its non-emptiness matters to the printed route.
- Non-ASCII case folding in `strings.EqualFold`: the model folds ASCII letters only.
- nlenc's native byte order: taken as little-endian, the order of the machines the appliance runs on.
- UpdateLease (internal/dhcp/lease.go:122-137): its work is the configuration update, which is I/O.
- MakeReply and the DHCP option helpers outside dhcp/packet.go are not part of this model.
- getInterfaceAddressesByIndex, setAddrForInterface, getInterfaceIndex and the netlink service's Start and Stop: socket I/O around the decoders that are modelled.
- The bufio.Scanner 64 KiB token limit in the hosts-file reader: a line longer than that stops the scan with an error in Go and is read whole here.
- formatDuration's floating-point Hours(), Minutes() and Seconds(): taken as exact, which they are for every duration below 2^53 nanoseconds.
- JavaScript numbers: parseFloat and division are parameters; the comparator is modelled on exact reals, without float rounding.
- JavaScript objects: prototype keys such as `__proto__` and UTF-16 code units are not modelled; metric and label names are plain strings.
- Array.prototype.sort with NaN bounds: the order is implementation-defined, so sortedness is stated only when no bound is NaN.
- parseMetrics on lines ending in a carriage return: the sample pattern's `$` does not match before "\r", so such sample lines are dropped; the model does the same and states no round trip for them.
- Truncated lease files, and entries with a 255 length byte: Go panics on the out-of-range slice; the model returns Err(Truncated) or Err(LengthWraps).
- nlenc is not part of this model: its Uint32 panics unless given exactly four bytes, so the `>= 4` guards at internal/netlink/netlink.go:309, 322 and 498 let a longer value panic; the model returns Err(WordLength) there.
- Go panics in general: an index out of range or a loop that never ends is an `Err` outcome (SliceOutOfRange, LoopsForever, WordLength, Truncated, LengthWraps), not a crash or a hang.
- LeaseTable.PersistThenLoad: restricted to client ids and hostnames shorter than 255 bytes, because at 255 the load as written fails (LeaseTable.LongClientIdBreaksReload); LeasePool.PersistThenLoadPool inherits the restriction.
- Test-versus-code disagreements, where the model follows the code: internal/dhcp/lease_test.go:55 expects end−start leases while NewLeasePool makes end−start+1; dhcp/lease_test.go:116 expects a zeroed lease after expiry while Clear keeps Id and IP.
- LeaseTable.ClearHeldReleases: states nothing for an empty client id, because a cleared lease is itself held by the empty id.
- LeasePool.ReleaseThenGet: states nothing for an empty client id, for the same reason.
- LeaseDb.ReleaseThenGet: states nothing for an empty client id, for the same reason.
- NetlinkAttr.BuildAttribute: data longer than 65528 bytes, whose uint16 length field wraps in Go, is outside its precondition.

## Findings

| source | as written | input that shows it | evidently intended | confidence | as-written member | corrected member |
|---|---|---|---|---|---|---|
| dhcp/packet.go:265-271 | SetFlags copies into bytes 8-9, the secs field, while Flags reads bytes 10-11, so a reply built by DHCPReply carries the request's flags in secs and zero flags | a zero 300-byte message with flags 0x80 0x00 (broadcast): Flags after SetFlags is still 0x00 0x00 | SetFlags writes bytes 10-11, so the reply echoes the broadcast bit | not executed | DhcpPacket.SetFlagsAsWritten | DhcpPacket.CorrectedReplyKeepsFlags |
| internal/netlink/netlink.go:473-474 | the aligned step `(length + 3) & ^uint16(3)` is computed in uint16, so a length of 65533 or more wraps to 0 and the loop never advances | one attribute of length 65533 (type 1, 65529 zero bytes, padded to 65536 bytes) | the step is computed without wrap-around, so the walk moves past the attribute; Walk is that loop; the decoders keep the loop as written, which agrees with Walk whenever it ends | not executed | NetlinkAttr.AsWrittenHangs | NetlinkAttr.Walk |
| internal/dhcp/lease.go:253-258 | the end indices `1+cidLen` and `1+hostLen` are computed in `byte`, so a length byte of 255 wraps them to 0 and the re-slice panics, yet PeristLeases writes such entries | one Active lease with a 255-byte client id: its written bytes fail to load | the end index is computed as an int, so every written entry loads back | not executed | LeaseTable.LongClientIdBreaksReload | LeaseTable.WideEntryDecodes |
