/** The decisions of the DHCP server in internal/dhcp/server.go: which
    datagrams are queued, how a DISCOVER, REQUEST or RELEASE changes the
    lease pool and what it is answered with, the broadcast address of the
    interface, and where a reply is sent. The sockets, channels and workers
    around them are left out; the reply message itself is built by
    MakeReply, which is not part of this model, so an answer is its message
    type, its `yiaddr` and its options. */
module DhcpServer {
  import opened Wrappers
  import opened Bytes
  import opened Net
  import opened LeaseCommon
  import opened LeaseTable
  import opened LeasePool
  import opened DhcpPacket

  /** The options of DHCPServerOpts the decisions read. */
  datatype Config = Config(serverAddr: Bytes, router: Bytes, subnetMask: Bytes,
                           nameServers: seq<Bytes>, leaseTtl: int, domainName: Bytes)

  /** What handleRequest returns: no message, a reply, or a panic of the
      worker (an options area the parser cannot start on, or no message
      type option). */
  datatype Answer = NoAnswer | Answer(msgType: byte, yiaddr: Bytes, options: Options) | Crash

  datatype Handled = Handled(pool: Pool, answer: Answer)

  // ---------------------------------------------------------------------
  // The listen filter
  // ---------------------------------------------------------------------

  /** Only datagrams of at least 240 bytes whose op code is BOOTREQUEST
      are queued. */
  predicate Queued(d: Bytes) {
    |d| >= OptionsStart && d[0] == OpRequest
  }

  /** A queued datagram of exactly 240 bytes has an empty options area, and
      the parser panics on it; one byte more is enough to be answered. */
  lemma BareRequestCrashes(cfg: Config, pool: Pool, d: Bytes, now: int)
    requires Queued(d) && |d| == OptionsStart
    ensures HandleRequest(cfg, pool, d, now).answer == Crash
  {
  }

  // ---------------------------------------------------------------------
  // Client ids
  // ---------------------------------------------------------------------

  function HexDigit(n: nat): (r: byte)
    requires n < 16
    ensures (r as char) in "0123456789abcdef"
  {
    var d := "0123456789abcdef"[n];
    d as int
  }

  /** `net.HardwareAddr.String`: two lower-case hex digits per byte,
      separated by colons; the client id the pool is keyed by. */
  function MacText(a: Bytes): (r: Bytes)
    ensures |a| > 0 ==> |r| == 3 * |a| - 1
    ensures |a| == 0 ==> r == []
    decreases |a|
  {
    if |a| == 0 then []
    else
      var pair := [HexDigit(a[0] / 16), HexDigit(a[0] % 16)];
      if |a| == 1 then pair else pair + [':' as int] + MacText(a[1..])
  }

  lemma HexDigitInjective(m: nat, n: nat)
    requires m < 16 && n < 16 && HexDigit(m) == HexDigit(n)
    ensures m == n
  {
  }

  /** Different hardware addresses give different client ids. */
  lemma {:induction false} MacTextInjective(a: Bytes, b: Bytes)
    requires MacText(a) == MacText(b)
    ensures a == b
    decreases |a|
  {
    if |a| > 0 && |b| > 0 {
      var ra, rb := MacText(a), MacText(b);
      assert ra[0] == rb[0] && ra[1] == rb[1];
      HexDigitInjective(a[0] / 16, b[0] / 16);
      HexDigitInjective(a[0] % 16, b[0] % 16);
      assert a[0] == b[0];
      if |a| > 1 {
        assert ra[3..] == MacText(a[1..]) && rb[3..] == MacText(b[1..]);
        MacTextInjective(a[1..], b[1..]);
        assert a == [a[0]] + a[1..] && b == [b[0]] + b[1..];
      }
    }
  }

  // ---------------------------------------------------------------------
  // The reply options
  // ---------------------------------------------------------------------

  /** `ip.To4()` as bytes: nil, so empty, when the address is not IPv4. */
  function V4Bytes(ip: Bytes): (r: Bytes)
    ensures |r| == 0 || |r| == 4
  {
    match To4(ip)
    case Some(v) => v
    case None => []
  }

  /** Four bytes per name server; one that is not IPv4 leaves zeroes. */
  function NameServerBytes(ns: seq<Bytes>): (r: Bytes)
    ensures |r| == 4 * |ns|
    decreases |ns|
  {
    if |ns| == 0 then []
    else
      var v := V4Bytes(ns[0]);
      (if |v| == 4 then v else [0, 0, 0, 0]) + NameServerBytes(ns[1..])
  }

  /** The options every OFFER, ACK and NAK carries. */
  function ReplyOptions(cfg: Config, msgType: byte): (r: Options)
    ensures r.Keys == {OptionDHCPMessageType, OptionServerIdentifier, OptionIPLeaseTime,
                       OptionRouter, OptionSubnetMask, OptionDomainNameServer, 15}
    ensures r[OptionDHCPMessageType] == [msgType]
    ensures |r[OptionIPLeaseTime]| == 4 && ReadBE32(r[OptionIPLeaseTime]) == cfg.leaseTtl % 0x1_0000_0000
  {
    var lt := BE32(cfg.leaseTtl % 0x1_0000_0000);
    var r := map[OptionDHCPMessageType := [msgType],
        OptionServerIdentifier := V4Bytes(cfg.serverAddr),
        OptionIPLeaseTime := lt,
        OptionRouter := V4Bytes(cfg.router),
        OptionSubnetMask := V4Bytes(cfg.subnetMask),
        OptionDomainNameServer := NameServerBytes(cfg.nameServers),
        15 := cfg.domainName];
    assert r[OptionIPLeaseTime] == lt;
    r
  }

  // ---------------------------------------------------------------------
  // handleRequest
  // ---------------------------------------------------------------------

  /** The address a REQUEST asks for: option 50 when present, else ciaddr. */
  function RequestedAddress(opts: Options, m: Message): Bytes
    requires |m| >= 16
  {
    if OptionRequestedIPAddress in opts then opts[OptionRequestedIPAddress] else CIAddr(m)
  }

  /** `lease.Hostname = ...` on the lease GetLease handed out: the
      reservation, or the first pool lease the client holds. */
  function SetHostname(p: Pool, clientId: Bytes, host: Bytes): (r: Pool)
    ensures |r.leases| == |p.leases| && r.reserved.Keys == p.reserved.Keys
  {
    if clientId in p.reserved then p.(reserved := p.reserved[clientId := p.reserved[clientId].(hostname := host)])
    else
      match FirstWhere(p.leases, (l: Lease) => HeldBy(l, clientId))
      case None => p
      case Some(i) => p.(leases := p.leases[i := p.leases[i].(hostname := host)])
  }

  /** The states a REQUEST for the lease's own address is acknowledged in. */
  predicate Acknowledgeable(state: LeaseState) {
    state == Offered || state == Reserved || state == Active
  }

  function OnDiscover(cfg: Config, p: Pool, clientId: Bytes, now: int): Handled {
    var g := GetLease(p, clientId, now);
    match g.found
    case Some(l) => Handled(g.pool, Answer(Offer, l.ip, ReplyOptions(cfg, Offer)))
    case None =>
      var n := NextAvailableLease(g.pool, clientId, now);
      match n.found
      case None => Handled(n.pool, NoAnswer)
      case Some(l) => Handled(n.pool, Answer(Offer, l.ip, ReplyOptions(cfg, Offer)))
  }

  function OnRequest(cfg: Config, p: Pool, m: Message, opts: Options, clientId: Bytes, now: int): Handled
    requires |m| >= 16
  {
    if OptionServerIdentifier in opts && !IpEqual(cfg.serverAddr, opts[OptionServerIdentifier]) then Handled(p, NoAnswer)
    else
      var requested := RequestedAddress(opts, m);
      var g := GetLease(p, clientId, now);
      match g.found
      case None => Handled(g.pool, Answer(Nak, [], ReplyOptions(cfg, Nak)))
      case Some(l0) =>
        var named := OptionHostname in opts;
        var p1 := if named then SetHostname(g.pool, clientId, opts[OptionHostname]) else g.pool;
        var l := if named then l0.(hostname := opts[OptionHostname]) else l0;
        if !IpEqual(l.ip, requested) then Handled(p1, Answer(Nak, [], ReplyOptions(cfg, Nak)))
        else if Acknowledgeable(l.state) then
          Handled(AcceptLease(p1, l, cfg.leaseTtl * LeaseCommon.Second, now), Answer(Ack, requested, ReplyOptions(cfg, Ack)))
        else Handled(ReleaseLease(p1, l), Answer(Nak, requested, ReplyOptions(cfg, Nak)))
  }

  function OnRelease(p: Pool, clientId: Bytes, now: int): Handled {
    var g := GetLease(p, clientId, now);
    match g.found
    case None => Handled(g.pool, NoAnswer)
    case Some(l) => Handled(ReleaseLease(g.pool, l), NoAnswer)
  }

  const OptionHostname: byte := 12

  /** handleRequest on a queued datagram. */
  function HandleRequest(cfg: Config, p: Pool, m: Message, now: int): (r: Handled)
    requires |m| >= OptionsStart
    ensures r.answer.Answer? ==> r.answer.msgType in {Offer, Ack, Nak}
  {
    if |m| == OptionsStart then Handled(p, Crash)
    else
      var opts := ParseOptions(m);
      if OptionDHCPMessageType !in opts || |opts[OptionDHCPMessageType]| == 0 then Handled(p, Crash)
      else
        var clientId := MacText(CHAddr(m));
        var t := opts[OptionDHCPMessageType][0];
        if t == Discover then OnDiscover(cfg, p, clientId, now)
        else if t == Request then OnRequest(cfg, p, m, opts, clientId, now)
        else if t == Release then OnRelease(p, clientId, now)
        else Handled(p, NoAnswer)
  }

  /** The message type, when the request has one. */
  predicate TypeIs(m: Message, t: byte)
    requires |m| > OptionsStart
  {
    var opts := ParseOptions(m);
    OptionDHCPMessageType in opts && |opts[OptionDHCPMessageType]| > 0 && opts[OptionDHCPMessageType][0] == t
  }

  /** A DISCOVER is offered the client's current lease, else the next
      available one; with neither there is no reply. */
  lemma DiscoverOffers(cfg: Config, p: Pool, m: Message, now: int)
    requires |m| > OptionsStart && TypeIs(m, Discover)
    ensures var id := MacText(CHAddr(m));
            var g := GetLease(p, id, now);
            var n := NextAvailableLease(g.pool, id, now);
            var r := HandleRequest(cfg, p, m, now);
            && (g.found.Some? ==> r == Handled(g.pool, Answer(Offer, g.found.value.ip, ReplyOptions(cfg, Offer))))
            && (g.found.None? && n.found.Some? ==> r == Handled(n.pool, Answer(Offer, n.found.value.ip, ReplyOptions(cfg, Offer))))
            && (r.answer == NoAnswer <==> g.found.None? && n.found.None?)
  {
  }

  /** A REQUEST naming another server is ignored and changes nothing. */
  lemma ForeignRequestIgnored(cfg: Config, p: Pool, m: Message, now: int)
    requires |m| > OptionsStart && TypeIs(m, Request)
    requires var opts := ParseOptions(m);
             OptionServerIdentifier in opts && !IpEqual(cfg.serverAddr, opts[OptionServerIdentifier])
    ensures HandleRequest(cfg, p, m, now) == Handled(p, NoAnswer)
  {
  }

  /** Every other REQUEST is answered, and acknowledged exactly when the
      client's lease has the requested address (option 50, else ciaddr)
      and is Offered, Reserved or Active; the ACK carries that address. */
  lemma RequestAckIff(cfg: Config, p: Pool, m: Message, now: int)
    requires |m| > OptionsStart && TypeIs(m, Request)
    requires var opts := ParseOptions(m);
             !(OptionServerIdentifier in opts && !IpEqual(cfg.serverAddr, opts[OptionServerIdentifier]))
    ensures var opts := ParseOptions(m);
            var g := GetLease(p, MacText(CHAddr(m)), now);
            var a := HandleRequest(cfg, p, m, now).answer;
            && a.Answer?
            && (a.msgType == Ack <==> (g.found.Some? && IpEqual(g.found.value.ip, RequestedAddress(opts, m))
                                      && Acknowledgeable(g.found.value.state)))
            && (a.msgType == Ack ==> a.yiaddr == RequestedAddress(opts, m))
            && (a.msgType != Ack ==> a.msgType == Nak)
  {
    hide HandleRequest, OnRequest, ParseOptions, GetLease, MacText, CHAddr, TypeIs;
    HandlesRequest(cfg, p, m, now);
    OnRequestAckIff(cfg, p, m, ParseOptions(m), MacText(CHAddr(m)), now);
  }

  /** A REQUEST goes to the REQUEST handler. */
  lemma HandlesRequest(cfg: Config, p: Pool, m: Message, now: int)
    requires |m| > OptionsStart && TypeIs(m, Request)
    ensures HandleRequest(cfg, p, m, now) == OnRequest(cfg, p, m, ParseOptions(m), MacText(CHAddr(m)), now)
  {
  }

  /** The REQUEST handler, for a request not naming another server. */
  lemma OnRequestAckIff(cfg: Config, p: Pool, m: Message, opts: Options, clientId: Bytes, now: int)
    requires |m| >= 16
    requires !(OptionServerIdentifier in opts && !IpEqual(cfg.serverAddr, opts[OptionServerIdentifier]))
    ensures var g := GetLease(p, clientId, now);
            var a := OnRequest(cfg, p, m, opts, clientId, now).answer;
            && a.Answer?
            && (a.msgType == Ack <==> (g.found.Some? && IpEqual(g.found.value.ip, RequestedAddress(opts, m))
                                      && Acknowledgeable(g.found.value.state)))
            && (a.msgType == Ack ==> a.yiaddr == RequestedAddress(opts, m))
            && (a.msgType != Ack ==> a.msgType == Nak)
  {
    hide GetLease, SetHostname, AcceptLease, ReleaseLease, ReplyOptions, IpEqual, RequestedAddress;
  }

  /** Every reservation is stored under its own client id, as ReserveLease
      stores it. */
  predicate WellKeyed(p: Pool) {
    forall k | k in p.reserved :: p.reserved[k].clientId == k
  }

  lemma ReserveKeepsWellKeyed(p: Pool, clientId: Bytes, ip: Bytes)
    requires WellKeyed(p)
    ensures WellKeyed(ReserveLease(p, clientId, ip).pool)
  {
  }

  /** A RELEASE is never answered. A reserved client loses its reservation
      and nothing else changes; a client whose first matching lease was live
      holds no lease afterwards; when GetLease found nothing, all that
      happened is GetLease's clearing of an expired lease. */
  lemma ReleaseSilent(cfg: Config, p: Pool, m: Message, now: int)
    requires |m| > OptionsStart && TypeIs(m, Release)
    ensures var id := MacText(CHAddr(m));
            var r := HandleRequest(cfg, p, m, now);
            && r.answer == NoAnswer
            && (WellKeyed(p) && id in p.reserved ==> r.pool == p.(reserved := p.reserved - {id}))
            && (GetLease(p, id, now).found.None? ==> r.pool == GetLease(p, id, now).pool)
            && (((forall k | k in p.reserved :: !EqualFold(id, k)) && id != [] && GetLease(p, id, now).found.Some?)
                  ==> GetLease(r.pool, id, now).found.None?)
  {
    var id := MacText(CHAddr(m));
    var g := GetLease(p, id, now);
    if (forall k | k in p.reserved :: !EqualFold(id, k)) && id != [] && g.found.Some? {
      EqualFoldRefl(id);
      assert id !in p.reserved;
      LookupSpec(p.leases, id, now);
      var l := g.found.value;
      assert HeldBy(l, id);
      assert l.clientId !in p.reserved;
      ReleaseForeign(g.pool, l, id, now);
    }
  }

  /** Releasing the lease found for `id` under a different spelling of the
      id still clears every lease `id` holds. */
  lemma ReleaseForeign(p: Pool, l: Lease, id: Bytes, now: int)
    requires id !in p.reserved && l.clientId !in p.reserved && id != [] && EqualFold(id, l.clientId)
    ensures GetLease(ReleaseLease(p, l), id, now).found.None?
  {
    var q := ReleaseLease(p, l);
    forall j | 0 <= j < |q.leases| ensures !HeldBy(q.leases[j], id) {
      if HeldBy(p.leases[j], l.clientId) {
        EqualFoldRefl(id);
      } else if HeldBy(p.leases[j], id) {
        EqualFoldSym(id, l.clientId);
        EqualFoldTrans(l.clientId, id, p.leases[j].clientId);
      }
    }
    LookupSpec(q.leases, id, now);
  }

  // ---------------------------------------------------------------------
  // Broadcast address and reply destination
  // ---------------------------------------------------------------------

  function Word(b: Bytes): bv32
    requires |b| == 4
  {
    ReadBE32(b) as bv32
  }

  /** The interface address OR the complement of the mask. */
  function BroadcastAddr(ip: Bytes, mask: Bytes): (r: Bytes)
    requires To4(ip).Some? && To4(mask).Some?
    ensures |r| == 4
  {
    BE32(BroadcastWord(ip, mask) as int)
  }

  function BroadcastWord(ip: Bytes, mask: Bytes): bv32
    requires To4(ip).Some? && To4(mask).Some?
  {
    Word(To4(ip).value) | !Word(To4(mask).value)
  }

  lemma WordOfBE32(x: bv32)
    ensures Word(BE32(x as int)) == x
  {
    assert ReadBE32(BE32(x as int)) == x as int;
  }

  /** The broadcast address is in the interface's network and has every
      host bit set. */
  lemma BroadcastInNetwork(ip: Bytes, mask: Bytes)
    requires To4(ip).Some? && To4(mask).Some?
    ensures var b, a, m := Word(BroadcastAddr(ip, mask)), Word(To4(ip).value), Word(To4(mask).value);
            b & m == a & m && b | m == 0xFFFF_FFFF
  {
    hide Word, BE32, ReadBE32, To4;
    WordOfBE32(BroadcastWord(ip, mask));
    HostBitsSet(Word(To4(ip).value), Word(To4(mask).value));
  }

  lemma HostBitsSet(a: bv32, m: bv32)
    ensures (a | !m) & m == a & m && (a | !m) | m == 0xFFFF_FFFF
  {
  }

  /** Where responsePacketWorker sends a reply: a source of 0.0.0.0 is
      redirected to the broadcast address, on the same port. */
  datatype Destination = Destination(ip: Bytes, port: int)

  function ReplyDestination(source: Destination, broadcast: Bytes): (r: Destination)
    ensures r.port == source.port
    ensures r.ip == broadcast <==> IpEqual(source.ip, [0, 0, 0, 0]) || source.ip == broadcast
    ensures r.ip != broadcast ==> r == source
  {
    if IpEqual(source.ip, [0, 0, 0, 0]) then Destination(broadcast, source.port) else source
  }
}
