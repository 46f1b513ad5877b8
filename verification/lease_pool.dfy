/** LeasePool (internal/dhcp/lease.go): the lease array over an address
    range plus the reservations, keyed by client id. Every operation takes
    the pool and returns the new one; the mutex is left out. */
module LeasePool {
  import opened Wrappers
  import opened Bytes
  import opened Net
  import opened LeaseCommon
  import opened LeaseTable

  datatype Pool = Pool(start: Bytes, end: Bytes, leases: seq<Lease>, reserved: map<Bytes, Lease>)

  /** The pool after an operation and the lease it returned (nil is None). */
  datatype PoolStep = PoolStep(pool: Pool, found: Option<Lease>)

  datatype PoolError = IpAlreadyReserved

  /** The pool after ReserveLease and its error, since the pool changes
      even when the reservation is refused. */
  datatype Reserving = Reserving(pool: Pool, err: Option<PoolError>)

  /** `binary.BigEndian.Uint32(ip)`: the first four bytes, whatever the
      length of the address. */
  function Addr(ip: Bytes): u32
    requires |ip| >= 4
  {
    ReadBE32(ip[..4])
  }

  /** A fresh Available lease at the given address. */
  function FreshLease(a: u32): Lease {
    Lease(0, [], [], BE32(a), ZeroTime, Available)
  }

  /** The leases of a range of `n` addresses from `start`, with uint32
      wrap-around of `start + uint32(i)`. */
  function RangeLeases(start: u32, n: nat): (r: seq<Lease>)
    ensures |r| == n
    ensures forall i | 0 <= i < n :: r[i] == FreshLease((start + i) % 0x1_0000_0000)
  {
    seq(n, i requires 0 <= i < n => FreshLease((start + i) % 0x1_0000_0000))
  }

  /** NewLeasePool: `uint32(end - start) + 1` leases (the subtraction wraps). */
  function NewLeasePool(startAddr: Bytes, endAddr: Bytes): (r: Pool)
    requires |startAddr| >= 4 && |endAddr| >= 4
    ensures r.reserved == map[]
  {
    var s, e := Addr(startAddr), Addr(endAddr);
    var n := (e - s) % 0x1_0000_0000 + 1;
    Pool(startAddr, endAddr, RangeLeases(s, n), map[])
  }

  /** Addresses in a range that does not wrap are consecutive, distinct and
      ready to be persisted. */
  lemma RangeLeasesFacts(start: u32, n: nat)
    requires start + n <= 0x1_0000_0000
    ensures var ls := RangeLeases(start, n);
            && (forall i | 0 <= i < n :: ReadBE32(ls[i].ip) == start + i)
            && AllAvailable(ls) && DistinctIps(ls) && Persistable(ls) && ActiveCount(ls) == 0
  {
    var ls := RangeLeases(start, n);
    forall i | 0 <= i < n ensures ReadBE32(ls[i].ip) == start + i {
      RangeAddress(start, n, i);
    }
    forall i, j | 0 <= i < j < n ensures ls[i].ip != ls[j].ip {
      assert ReadBE32(ls[i].ip) != ReadBE32(ls[j].ip);
    }
    NoActive(ls);
  }

  lemma RangeAddress(start: u32, n: nat, i: nat)
    requires start + n <= 0x1_0000_0000 && i < n
    ensures ReadBE32(RangeLeases(start, n)[i].ip) == start + i
  {
    var a := start + i;
    assert a % 0x1_0000_0000 == a;
    assert RangeLeases(start, n)[i] == FreshLease(a);
  }

  lemma {:induction false} NoActive(ls: seq<Lease>)
    requires AllAvailable(ls)
    ensures ActiveCount(ls) == 0
    decreases |ls|
  {
    if |ls| > 0 {
      NoActive(ls[1..]);
    }
  }

  lemma PoolIsRange(startAddr: Bytes, endAddr: Bytes)
    requires |startAddr| >= 4 && |endAddr| >= 4 && Addr(startAddr) <= Addr(endAddr)
    ensures NewLeasePool(startAddr, endAddr).leases == RangeLeases(Addr(startAddr), Addr(endAddr) - Addr(startAddr) + 1)
  {
    var s, e := Addr(startAddr), Addr(endAddr);
    assert (e - s) % 0x1_0000_0000 == e - s;
  }

  /** For start <= end the pool holds end - start + 1 leases: lease i has
      address start + i, so the last one has the end address; every lease
      is Available with the zero expiry. */
  lemma NewLeasePoolRange(startAddr: Bytes, endAddr: Bytes)
    requires |startAddr| >= 4 && |endAddr| >= 4 && Addr(startAddr) <= Addr(endAddr)
    ensures var p, s, e := NewLeasePool(startAddr, endAddr), Addr(startAddr), Addr(endAddr);
            && |p.leases| == e - s + 1
            && (forall i | 0 <= i < |p.leases| :: ReadBE32(p.leases[i].ip) == s + i
                  && p.leases[i].state == Available && p.leases[i].expiry == ZeroTime)
            && p.leases[e - s].ip == BE32(e)
            && DistinctIps(p.leases)
  {
    hide NewLeasePool, RangeLeases, Addr;
    var s: int, e: int := Addr(startAddr), Addr(endAddr);
    var n: nat := e - s + 1;
    PoolIsRange(startAddr, endAddr);
    RangeLeasesFacts(s, n);
    RangeAddress(s, n, e - s);
    var ls := RangeLeases(s, n);
    assert BE32(ReadBE32(ls[e - s].ip)) == ls[e - s].ip by {
      BE32OfRead(ls[e - s].ip);
    }
  }

  /** The range is read from the first four bytes, so two addresses in
      the 16-byte form `net.ParseIP` returns both read as 0: the pool is
      the single lease 0.0.0.0, whatever the IPv4 addresses were. */
  lemma MappedAddressesGiveOneLease(a: Bytes, b: Bytes)
    requires |a| == 4 && |b| == 4
    ensures NewLeasePool(V4InV6Prefix + a, V4InV6Prefix + b).leases == [FreshLease(0)]
    ensures FreshLease(0).ip == [0, 0, 0, 0]
  {
    var x, y := V4InV6Prefix + a, V4InV6Prefix + b;
    assert x[..4] == [0, 0, 0, 0] && y[..4] == [0, 0, 0, 0];
    var z: Bytes := [0, 0, 0, 0];
    assert z[0..2] == [0, 0] && z[2..4] == [0, 0];
    assert ReadBE16([0, 0]) == 0;
    assert ReadBE32(z) == 0;
    assert Addr(x) == 0 && Addr(y) == 0;
    BE32OfRead([0, 0, 0, 0]);
  }

  // ---------------------------------------------------------------------
  // Client operations
  // ---------------------------------------------------------------------

  /** GetLease: the reservation first, then the pool lookup. */
  function GetLease(p: Pool, clientId: Bytes, now: int): (r: PoolStep)
    ensures r.pool.reserved == p.reserved && |r.pool.leases| == |p.leases|
  {
    if clientId in p.reserved then PoolStep(p, Some(p.reserved[clientId]))
    else
      var s := Lookup(p.leases, clientId, now);
      PoolStep(p.(leases := s.leases), s.found)
  }

  /** AcceptLease */
  function AcceptLease(p: Pool, offered: Lease, ttl: int, now: int): (r: Pool)
    ensures r.reserved == p.reserved && |r.leases| == |p.leases|
  {
    p.(leases := Accept(p.leases, offered, ttl, now))
  }

  /** NextAvailableLease */
  function NextAvailableLease(p: Pool, clientId: Bytes, now: int): (r: PoolStep)
    ensures r.pool.reserved == p.reserved && |r.pool.leases| == |p.leases|
  {
    var s := NextAvailable(p.leases, clientId, now);
    PoolStep(p.(leases := s.leases), s.found)
  }

  /** Another client's reservation holds an address equal to `ip`. */
  predicate ReservedByOther(reserved: map<Bytes, Lease>, clientId: Bytes, ip: Bytes) {
    exists k | k in reserved :: reserved[k].clientId != clientId && IpEqual(reserved[k].ip, ip)
  }

  /** The reservation ReserveLease stores. */
  function Reservation(clientId: Bytes, ip: Bytes): Lease {
    Lease(0, clientId, [], ip, ZeroTime, Reserved)
  }

  /** ReserveLease: first the client's first non-Available pool lease is
      cleared, then the address is checked against the other reservations. */
  function ReserveLease(p: Pool, clientId: Bytes, ip: Bytes): (r: Reserving)
    ensures |r.pool.leases| == |p.leases|
  {
    var ls := match FirstWhere(p.leases, (l: Lease) => l.clientId == clientId && l.state != Available)
              case None => p.leases
              case Some(i) => p.leases[i := Clear(p.leases[i])];
    var p' := p.(leases := ls);
    if ReservedByOther(p.reserved, clientId, ip) then Reserving(p', Some(IpAlreadyReserved))
    else Reserving(p'.(reserved := p.reserved[clientId := Reservation(clientId, ip)]), None)
  }

  /** The reservation is refused exactly when another client has reserved
      an equal address; the clearing of the client's pool lease happens
      either way. */
  lemma ReserveLeaseSpec(p: Pool, clientId: Bytes, ip: Bytes)
    ensures var r := ReserveLease(p, clientId, ip);
            r.err.Some? <==> ReservedByOther(p.reserved, clientId, ip)
    ensures var r := ReserveLease(p, clientId, ip);
            r.err.Some? ==> r.pool.reserved == p.reserved
    ensures var r := ReserveLease(p, clientId, ip);
            r.err.None? ==> r.pool.reserved == p.reserved[clientId := Reservation(clientId, ip)]
    ensures var r := ReserveLease(p, clientId, ip);
            forall j | 0 <= j < |p.leases| && r.pool.leases[j] != p.leases[j] ::
              r.pool.leases[j] == Clear(p.leases[j]) && p.leases[j].clientId == clientId
              && p.leases[j].state != Available
  {
  }

  /** A client that has just reserved an address gets that reservation back
      from GetLease, whatever the pool holds. */
  lemma ReserveThenGet(p: Pool, clientId: Bytes, ip: Bytes, now: int)
    requires ReserveLease(p, clientId, ip).err.None?
    ensures GetLease(ReserveLease(p, clientId, ip).pool, clientId, now).found == Some(Reservation(clientId, ip))
  {
  }

  /** ReleaseLease: a reservation is removed and nothing else happens;
      otherwise every pool lease the client holds is cleared. */
  function ReleaseLease(p: Pool, released: Lease): (r: Pool)
    ensures |r.leases| == |p.leases|
  {
    if released.clientId in p.reserved then p.(reserved := p.reserved - {released.clientId})
    else p.(leases := ClearHeld(p.leases, released.clientId))
  }

  /** After releasing a lease with no reservation the client no longer
      gets a lease back, and a released reservation is gone. */
  lemma ReleaseThenGet(p: Pool, released: Lease, now: int)
    requires released.clientId != []
    ensures var c := released.clientId;
            var q := ReleaseLease(p, released);
            c !in q.reserved
            && (c !in p.reserved ==> GetLease(q, c, now).found.None? && q.reserved == p.reserved)
            && (c in p.reserved ==> q.leases == p.leases)
  {
    var c := released.clientId;
    if c !in p.reserved {
      ClearHeldReleases(p.leases, c);
    }
  }

  // ---------------------------------------------------------------------
  // Listings
  // ---------------------------------------------------------------------

  /** The copy ActiveLeases and ReservedLeases make: every field but `Id`. */
  function Copy(l: Lease): Lease {
    l.(id := 0)
  }

  function CopyAll(ls: seq<Lease>): (r: seq<Lease>)
    ensures |r| == |ls|
  {
    seq(|ls|, i requires 0 <= i < |ls| => Copy(ls[i]))
  }

  /** ActiveLeases */
  function ActiveLeases(p: Pool, now: int): seq<Lease> {
    CopyAll(LiveLeases(p.leases, now))
  }

  /** A lease is listed exactly when a live pool lease has its fields. */
  lemma ActiveLeasesMembers(p: Pool, now: int, x: Lease)
    ensures x in ActiveLeases(p, now) <==> exists l | l in p.leases :: Live(l, now) && x == Copy(l)
  {
    var live := LiveLeases(p.leases, now);
    if x in ActiveLeases(p, now) {
      var i :| 0 <= i < |live| && ActiveLeases(p, now)[i] == x;
      LiveLeasesMembers(p.leases, now, live[i]);
    }
    if exists l | l in p.leases :: Live(l, now) && x == Copy(l) {
      var l :| l in p.leases && Live(l, now) && x == Copy(l);
      LiveLeasesMembers(p.leases, now, l);
      var i :| 0 <= i < |live| && live[i] == l;
      assert ActiveLeases(p, now)[i] == x;
    }
  }

  /** `order` lists each key of the map once: Go's map iteration order,
      which the model takes as a parameter. */
  predicate KeyOrder(m: map<Bytes, Lease>, order: seq<Bytes>) {
    && (forall i, j | 0 <= i < j < |order| :: order[i] != order[j])
    && (forall k | k in m :: k in order)
    && (forall i | 0 <= i < |order| :: order[i] in m)
  }

  /** ReservedLeases, in the given iteration order. */
  function ReservedLeases(p: Pool, order: seq<Bytes>): (r: seq<Lease>)
    requires KeyOrder(p.reserved, order)
    ensures |r| == |order|
  {
    seq(|order|, i requires 0 <= i < |order| => Copy(p.reserved[order[i]]))
  }

  /** One copy per reservation, whatever the order. */
  lemma ReservedLeasesOnePerKey(p: Pool, order: seq<Bytes>)
    requires KeyOrder(p.reserved, order)
    ensures |ReservedLeases(p, order)| == |p.reserved|
    ensures forall k | k in p.reserved :: Copy(p.reserved[k]) in ReservedLeases(p, order)
  {
    var keys := set i | 0 <= i < |order| :: order[i];
    assert keys == p.reserved.Keys;
    OrderSize(order);
    forall k | k in p.reserved ensures Copy(p.reserved[k]) in ReservedLeases(p, order) {
      var i :| 0 <= i < |order| && order[i] == k;
      assert ReservedLeases(p, order)[i] == Copy(p.reserved[k]);
    }
  }

  /** A duplicate-free sequence has as many elements as its set. */
  lemma {:induction false} OrderSize(order: seq<Bytes>)
    requires forall i, j | 0 <= i < j < |order| :: order[i] != order[j]
    ensures |set i | 0 <= i < |order| :: order[i]| == |order|
    decreases |order|
  {
    if |order| > 0 {
      var rest := order[1..];
      OrderSize(rest);
      var s := set i | 0 <= i < |order| :: order[i];
      var t := set i | 0 <= i < |rest| :: rest[i];
      assert s == t + {order[0]} by {
        forall x | x in s ensures x in t + {order[0]} {
          var i :| 0 <= i < |order| && order[i] == x;
          if i > 0 {
            assert rest[i - 1] == x;
          }
        }
      }
      assert order[0] !in t;
    }
  }

  // ---------------------------------------------------------------------
  // Persistence
  // ---------------------------------------------------------------------

  /** PeristLeases: the bytes written, or None when nothing is written. */
  function PersistLeases(p: Pool): Option<Bytes> {
    Persist(p.leases)
  }

  /** LoadLeases on the file contents. */
  function LoadLeases(p: Pool, data: Bytes, ttl: int, now: int): (r: Result<Pool, LoadError>)
    ensures r.Ok? ==> r.value.reserved == p.reserved
    ensures |data| == 0 ==> r == Ok(p)
    ensures 2 <= |data| && data[0] >= 1 && data[1] == 255 ==> r == Err(LengthWraps)
  {
    var ls :- Load(p.leases, data, ttl, now);
    Ok(p.(leases := ls))
  }

  /** Saving and loading a pool over a range that does not wrap restores
      every Active lease with the new expiry and leaves the rest alone. */
  lemma PersistThenLoadPool(p: Pool, ttl: int, now: int)
    requires Persistable(p.leases) && DistinctIps(p.leases)
    requires 1 <= ActiveCount(p.leases) <= 255
    ensures PersistLeases(p).Some?
    ensures var r := LoadLeases(p, PersistLeases(p).value, ttl, now);
            r.Ok? && |r.value.leases| == |p.leases|
            && forall j | 0 <= j < |p.leases| :: r.value.leases[j] == Reloaded(p.leases[j], now + ttl)
  {
    PersistThenLoad(p.leases, ttl, now);
  }
}
