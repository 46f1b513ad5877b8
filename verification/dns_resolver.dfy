/** The resolver's local state (internal/dns/resolver.go): the sorted
    blocklist, the TTL cache keyed by `%x` of the domain and the query type,
    the local domains, and the order `Resolve` consults them in before it
    falls back to the upstream servers. The resolver is a value; every
    operation returns the new one. `now` stands for `time.Now()`. */
module DnsResolver {
  import opened Wrappers
  import opened Bytes
  import opened Text
  import opened Net
  import opened ByteOrder
  import opened DnsMessage

  /** DNSCacheItem: the cached answers and the instant they expire. */
  datatype CacheItem = CacheItem(records: seq<Record>, expiry: int)

  /** DNSResolver without its mutex. Domains are Go strings of raw bytes. */
  datatype Resolver = Resolver(cache: map<string, CacheItem>, upstream: seq<Bytes>,
                               blocklist: seq<Bytes>, localDomains: map<Bytes, Bytes>)

  /** The three ways `Resolve` can end without asking an upstream server,
      and the hand-over to the upstream lookup, which is not modelled. */
  datatype Outcome =
    | Answers(records: seq<Record>)   // (answers, nil, nil)
    | NoRecords                       // (nil, nil, nil)
    | AskUpstream

  datatype Resolved = Resolved(state: Resolver, outcome: Outcome)

  datatype ResolverError = InvalidIPAddress

  /** The compressed name 0xC00C: a pointer to the question's name at offset 12. */
  const CompressedDomain: Bytes := [0xC0, 0x0C]
  const LocalTTL: u32 := 300

  // ---------------------------------------------------------------------
  // Construction
  // ---------------------------------------------------------------------

  /** The upstream loop of NewDNSResolverWithOpts: each address that parses
      as IPv4, in order; the others are logged and skipped. */
  function Upstreams(texts: seq<string>): (r: seq<Bytes>)
    ensures |r| <= |texts|
    ensures forall k | 0 <= k < |r| :: |r[k]| == 4
    decreases |texts|
  {
    if |texts| == 0 then []
    else
      var rest := Upstreams(texts[1..]);
      match ParseIPv4(texts[0])
      case Some(ip) => [ip] + rest
      case None => rest
  }

  /** NewDNSResolverWithOpts */
  function NewResolver(upstreams: seq<string>, localDomains: map<Bytes, Bytes>): (r: Resolver)
    ensures r.cache == map[] && r.blocklist == [] && r.localDomains == localDomains
  {
    Resolver(map[], Upstreams(upstreams), [], localDomains)
  }

  /** The filter keeps exactly the texts that parse, in order: it maps over
      a concatenation piece by piece. */
  lemma {:induction false} UpstreamsAppend(a: seq<string>, b: seq<string>)
    ensures Upstreams(a + b) == Upstreams(a) + Upstreams(b)
    decreases |a|
  {
    if |a| > 0 {
      assert (a + b)[0] == a[0] && (a + b)[1..] == a[1..] + b;
      UpstreamsAppend(a[1..], b);
    } else {
      assert a + b == b;
    }
  }

  /** A text that does not parse is dropped, one that parses is kept. */
  lemma UpstreamsOne(t: string)
    ensures ParseIPv4(t).None? ==> Upstreams([t]) == []
    ensures ParseIPv4(t).Some? ==> Upstreams([t]) == [ParseIPv4(t).value]
  {
    assert [t][1..] == [];
  }

  function FormatAll(ips: seq<Bytes>): seq<string>
    requires forall k | 0 <= k < |ips| :: |ips[k]| == 4
    decreases |ips|
  {
    if |ips| == 0 then [] else [FormatIPv4(ips[0])] + FormatAll(ips[1..])
  }

  /** Upstreams printed as dotted quads are all kept, in the same order. */
  lemma {:induction false} UpstreamsOfFormatted(ips: seq<Bytes>)
    requires forall k | 0 <= k < |ips| :: |ips[k]| == 4
    ensures Upstreams(FormatAll(ips)) == ips
    decreases |ips|
  {
    if |ips| > 0 {
      hide Upstreams, FormatAll, ParseIPv4, FormatIPv4;
      FormatParseIPv4(ips[0]);
      UpstreamsOfFormatted(ips[1..]);
      UpstreamsFormatCons(ips);
      assert ips == [ips[0]] + ips[1..];
    }
  }

  /** The first address is formatted, then parsed, in front of the rest. */
  lemma UpstreamsFormatCons(ips: seq<Bytes>)
    requires |ips| > 0 && forall k | 0 <= k < |ips| :: |ips[k]| == 4
    requires ParseIPv4(FormatIPv4(ips[0])) == Some(ips[0])
    ensures Upstreams(FormatAll(ips)) == [ips[0]] + Upstreams(FormatAll(ips[1..]))
  {
    hide ParseIPv4, FormatIPv4;
    assert FormatAll(ips)[1..] == FormatAll(ips[1..]);
  }

  /** The default options' upstreams 1.1.1.1 and 9.9.9.9 are both kept. */
  lemma DefaultUpstreams()
    ensures Upstreams(["1.1.1.1", "9.9.9.9"]) == [[1, 1, 1, 1], [9, 9, 9, 9]]
  {
    assert FormatIPv4([1, 1, 1, 1]) == "1.1.1.1";
    assert FormatIPv4([9, 9, 9, 9]) == "9.9.9.9";
    UpstreamsOfFormatted([[1, 1, 1, 1], [9, 9, 9, 9]]);
  }

  // ---------------------------------------------------------------------
  // The cache key: fmt.Sprintf("%x", domain ++ big-endian type)
  // ---------------------------------------------------------------------

  const HexDigits: string := "0123456789abcdef"

  /** `%x` of a byte string: two lower-case hex digits per byte. */
  function Hex(bs: Bytes): (r: string)
    ensures |r| == 2 * |bs|
    decreases |bs|
  {
    if |bs| == 0 then [] else [HexDigits[bs[0] / 16], HexDigits[bs[0] % 16]] + Hex(bs[1..])
  }

  /** The value of one lower-case hex digit. */
  function HexValue(c: char): nat {
    if '0' <= c <= '9' then c as int - '0' as int
    else if 'a' <= c <= 'f' then c as int - 'a' as int + 10
    else 0
  }

  /** Reads pairs of hex digits back into bytes. */
  function Unhex(s: string): Bytes
    decreases |s|
  {
    if |s| < 2 then [] else [PairValue(s[0], s[1])] + Unhex(s[2..])
  }

  /** The byte two hex digits stand for. */
  function PairValue(hi: char, lo: char): byte {
    (HexValue(hi) * 16 + HexValue(lo)) % 0x100
  }

  lemma HexDigitValue(n: nat)
    requires n < 16
    ensures HexValue(HexDigits[n]) == n
  {
  }

  lemma {:induction false} UnhexHex(bs: Bytes)
    ensures Unhex(Hex(bs)) == bs
    decreases |bs|
  {
    if |bs| > 0 {
      hide *;
      HexUnhexCons(bs);
      ByteOfDigits(bs[0]);
      UnhexHex(bs[1..]);
      assert bs == [bs[0]] + bs[1..];
    }
  }

  /** Hex writes the first byte as two digits, and Unhex reads them back
      as one value, before going on with the rest. */
  lemma HexUnhexCons(bs: Bytes)
    requires |bs| > 0
    ensures Unhex(Hex(bs)) == [PairValue(HexDigits[bs[0] / 16], HexDigits[bs[0] % 16])] + Unhex(Hex(bs[1..]))
  {
    hide PairValue;
    var h := Hex(bs);
    assert h[0] == HexDigits[bs[0] / 16] && h[1] == HexDigits[bs[0] % 16];
    assert h[2..] == Hex(bs[1..]);
  }

  lemma ByteOfDigits(b: byte)
    ensures PairValue(HexDigits[b / 16], HexDigits[b % 16]) == b
  {
    HexDigitValue(b / 16);
    HexDigitValue(b % 16);
  }

  /** The key under which `Resolve` looks up and stores cached answers. */
  function CacheKey(domain: Bytes, qtype: u16): (k: string)
    ensures |k| == 2 * |domain| + 4
  {
    Hex(domain + BE16(qtype))
  }

  /** Different (domain, type) pairs never share a cache entry. */
  lemma CacheKeyInjective(d1: Bytes, t1: u16, d2: Bytes, t2: u16)
    requires CacheKey(d1, t1) == CacheKey(d2, t2)
    ensures d1 == d2 && t1 == t2
  {
    var b1, b2 := d1 + BE16(t1), d2 + BE16(t2);
    UnhexHex(b1);
    UnhexHex(b2);
    assert |d1| == |d2|;
    assert d1 == b1[..|d1|] == b2[..|d2|] == d2;
    assert BE16(t1) == b1[|d1|..] == b2[|d2|..] == BE16(t2);
  }

  // ---------------------------------------------------------------------
  // Resolve, up to the upstream lookup
  // ---------------------------------------------------------------------

  /** The single answer for a blocklisted domain: A gets 0.0.0.0, AAAA gets
      ::, any other type an empty RDATA. */
  function BlockedRecord(domain: Bytes, qtype: u16): Record {
    var rdata: Bytes := if qtype == TypeA then [0, 0, 0, 0]
                        else if qtype == TypeAAAA then seq(16, _ => 0)
                        else [];
    Record(domain, CompressedDomain, qtype, ClassIN, LocalTTL, rdata, [])
  }

  /** The answer for a local domain queried with type A. */
  function LocalRecord(domain: Bytes, ip: Bytes): Record {
    Record(domain, CompressedDomain, TypeA, ClassIN, LocalTTL, To4(ip).GetOr([]), [])
  }

  /** The cache with the entry under `key` removed when it has expired. */
  function DropExpired(cache: map<string, CacheItem>, key: string, now: int): map<string, CacheItem> {
    if key in cache && !(cache[key].expiry > now) then cache - {key} else cache
  }

  /** DNSResolver.Resolve up to the upstream fan-out. */
  function Resolve(st: Resolver, domain: Bytes, qtype: u16, now: int): (r: Resolved)
    ensures r.state == st.(cache := r.state.cache)
    ensures r.state.cache.Keys <= st.cache.Keys
    ensures forall k | k in r.state.cache :: r.state.cache[k] == st.cache[k]
  {
    if Found(st.blocklist, domain) then Resolved(st, Answers([BlockedRecord(domain, qtype)]))
    else
      var key := CacheKey(domain, qtype);
      if key in st.cache && st.cache[key].expiry > now then Resolved(st, Answers(st.cache[key].records))
      else
        var st' := st.(cache := DropExpired(st.cache, key, now));
        if domain in st.localDomains then
          if qtype != TypeA then Resolved(st', NoRecords)
          else Resolved(st', Answers([LocalRecord(domain, st.localDomains[domain])]))
        else Resolved(st', AskUpstream)
  }

  /** The shape of the blocklist answer: one record of the queried type,
      class IN, TTL 300, the compressed name, and all-zero RDATA of the
      address length for A and AAAA. */
  lemma BlockedRecordShape(domain: Bytes, qtype: u16)
    ensures var r := BlockedRecord(domain, qtype);
            && r.rtype == qtype && r.rclass == ClassIN && r.ttl == 300 && r.name == [0xC0, 0x0C]
            && r.parsedName == domain
            && |r.rdata| == (if qtype == TypeA then 4 else if qtype == TypeAAAA then 16 else 0)
            && forall i | 0 <= i < |r.rdata| :: r.rdata[i] == 0
  {
  }

  /** The order in which `Resolve` consults its sources, stated with plain
      membership: the blocklist first (the binary search finds exactly its
      members while it is sorted), then an unexpired cache entry, then the
      local domains, then the upstream servers. Only an expired cache entry
      for this query is ever removed. */
  lemma ResolutionOrder(st: Resolver, domain: Bytes, qtype: u16, now: int)
    requires Sorted(st.blocklist)
    ensures var r, key := Resolve(st, domain, qtype, now), CacheKey(domain, qtype);
            if domain in st.blocklist then
              r == Resolved(st, Answers([BlockedRecord(domain, qtype)]))
            else if key in st.cache && st.cache[key].expiry > now then
              r == Resolved(st, Answers(st.cache[key].records))
            else
              && r.state == st.(cache := st.cache - {key})
              && r.outcome == (if domain !in st.localDomains then AskUpstream
                               else if qtype != TypeA then NoRecords
                               else Answers([LocalRecord(domain, st.localDomains[domain])]))
  {
    FoundIffMember(st.blocklist, domain);
  }

  /** A blocklisted domain is answered from the blocklist whatever the cache
      or the local domains hold, and nothing changes. */
  lemma BlockedFirst(st: Resolver, domain: Bytes, qtype: u16, now: int)
    requires Sorted(st.blocklist) && domain in st.blocklist
    ensures Resolve(st, domain, qtype, now) == Resolved(st, Answers([BlockedRecord(domain, qtype)]))
  {
    FoundIffMember(st.blocklist, domain);
  }

  // ---------------------------------------------------------------------
  // Local domains
  // ---------------------------------------------------------------------

  /** `ip.String()` as far as re-parsing it matters: the dotted quad of an
      IPv4 address; for anything else a text that is not one. */
  function IpText(ip: Bytes): string {
    match To4(ip)
    case Some(v4) => FormatIPv4(v4)
    case None => "?"
  }

  /** AddLocalDomain: the address, printed and parsed back, must be IPv4
      and not 0.0.0.0. */
  function AddLocalDomain(st: Resolver, domain: Bytes, ip: Bytes): (r: Result<Resolver, ResolverError>)
    ensures r.Ok? ==> r.value == st.(localDomains := r.value.localDomains)
  {
    match ParseIPv4(IpText(ip))
    case None => Err(InvalidIPAddress)
    case Some(local) =>
      if IpEqual(local, Zero4) then Err(InvalidIPAddress)
      else Ok(st.(localDomains := st.localDomains[domain := local]))
  }

  /** AddLocalDomain stores exactly the 4-byte form of an IPv4 address other
      than 0.0.0.0, and refuses everything else. */
  lemma AddLocalDomainStores(st: Resolver, domain: Bytes, ip: Bytes)
    ensures var r := AddLocalDomain(st, domain, ip);
            r.Ok? <==> To4(ip).Some? && To4(ip).value != Zero4
    ensures var r := AddLocalDomain(st, domain, ip);
            r.Ok? ==> r.value.localDomains == st.localDomains[domain := To4(ip).value]
  {
    match To4(ip)
    case Some(v4) => FormatParseIPv4(v4);
    case None =>
      assert Split("?", '.') == ["?"] by { SplitNoSep("?", '.'); }
  }

  /** DeleteLocalDomain */
  function DeleteLocalDomain(st: Resolver, domain: Bytes): (r: Resolver)
    ensures domain !in r.localDomains
    ensures forall d | d in st.localDomains && d != domain :: d in r.localDomains && r.localDomains[d] == st.localDomains[d]
    ensures r == st.(localDomains := r.localDomains)
  {
    st.(localDomains := st.localDomains - {domain})
  }

  /** A stored local domain answers A queries with its address. */
  lemma LocalDomainAnswers(st: Resolver, domain: Bytes, ip: Bytes, now: int)
    requires Sorted(st.blocklist) && domain !in st.blocklist
    requires CacheKey(domain, TypeA) !in st.cache
    requires AddLocalDomain(st, domain, ip).Ok?
    ensures var st' := AddLocalDomain(st, domain, ip).value;
            Resolve(st', domain, TypeA, now).outcome == Answers([LocalRecord(domain, To4(ip).value)])
  {
    AddLocalDomainStores(st, domain, ip);
    var st' := AddLocalDomain(st, domain, ip).value;
    ResolutionOrder(st', domain, TypeA, now);
    assert To4(To4(ip).value) == To4(ip);
  }

  // ---------------------------------------------------------------------
  // The blocklist
  // ---------------------------------------------------------------------

  /** AddBlocklistEntries: append, then `slices.Sort`. */
  function AddBlocklistEntries(st: Resolver, entries: seq<Bytes>): (r: Resolver)
    ensures multiset(r.blocklist) == multiset(st.blocklist) + multiset(entries)
    ensures r == st.(blocklist := r.blocklist)
  {
    st.(blocklist := SortAll(st.blocklist + entries))
  }

  /** The blocklist comes out sorted, and it is the only sorted arrangement
      of the old and new entries together. */
  lemma AddBlocklistSorted(st: Resolver, entries: seq<Bytes>, other: seq<Bytes>)
    ensures Sorted(AddBlocklistEntries(st, entries).blocklist)
    ensures Sorted(other) && multiset(other) == multiset(st.blocklist) + multiset(entries) ==>
              AddBlocklistEntries(st, entries).blocklist == other
  {
    SortAllSorted(st.blocklist + entries);
    if Sorted(other) && multiset(other) == multiset(st.blocklist) + multiset(entries) {
      SortedUnique(AddBlocklistEntries(st, entries).blocklist, other);
    }
  }

  /** DeleteBlocklistEntry: remove the element the binary search lands on
      when it is the domain. */
  function DeleteBlocklistEntry(st: Resolver, domain: Bytes): (r: Resolver)
    ensures r == st.(blocklist := r.blocklist)
  {
    var i := Search(st.blocklist, domain);
    if i < |st.blocklist| && st.blocklist[i] == domain then
      if i == |st.blocklist| - 1 then st.(blocklist := st.blocklist[..i])
      else st.(blocklist := st.blocklist[..i] + st.blocklist[i + 1..])
    else st
  }

  /** Removing one element keeps a sequence sorted. */
  lemma RemoveSorted(s: seq<Bytes>, i: nat)
    requires Sorted(s) && i < |s|
    ensures Sorted(s[..i] + s[i + 1..])
  {
    var t := s[..i] + s[i + 1..];
    forall a, b | 0 <= a < b < |t| ensures !Below(t[b], t[a]) {
      var a' := if a < i then a else a + 1;
      var b' := if b < i then b else b + 1;
      assert t[a] == s[a'] && t[b] == s[b'];
    }
  }

  /** Removing the element at `i` removes one occurrence of it. */
  lemma RemoveMultiset(s: seq<Bytes>, i: nat)
    requires i < |s|
    ensures multiset(s[..i] + s[i + 1..]) == multiset(s) - multiset{s[i]}
  {
    assert s == s[..i] + [s[i]] + s[i + 1..];
  }

  /** On a sorted blocklist, deleting a present domain removes exactly one
      occurrence; deleting an absent one changes nothing. The list stays
      sorted either way. */
  lemma DeleteBlocklistRemovesOne(st: Resolver, domain: Bytes)
    requires Sorted(st.blocklist)
    ensures var r := DeleteBlocklistEntry(st, domain);
            && Sorted(r.blocklist)
            && (domain in st.blocklist ==> multiset(r.blocklist) == multiset(st.blocklist) - multiset{domain})
            && (domain !in st.blocklist ==> r == st)
  {
    hide Below, Sorted, Search;
    var s := st.blocklist;
    FoundIffMember(s, domain);
    var i := Search(s, domain);
    if i < |s| && s[i] == domain {
      RemoveSorted(s, i);
      RemoveMultiset(s, i);
      if i == |s| - 1 {
        assert s[..i] + s[i + 1..] == s[..i];
      }
    }
  }

  /** FlushBlocklist */
  function FlushBlocklist(st: Resolver): (r: Resolver)
    ensures r.blocklist == [] && r == st.(blocklist := [])
  {
    st.(blocklist := [])
  }

  /** After a flush the list is sorted again and the search finds nothing. */
  lemma FlushUnblocks(st: Resolver, domain: Bytes)
    ensures Sorted(FlushBlocklist(st).blocklist)
    ensures !Found(FlushBlocklist(st).blocklist, domain)
  {
  }
}
