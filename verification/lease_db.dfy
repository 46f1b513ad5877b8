/** LeaseDB (dhcp/lease.go), the older lease store: the same lease array
    loops as LeasePool, but a range that stops before the end address,
    unconditional reservations, and a release that never touches them. */
module LeaseDb {
  import opened Wrappers
  import opened Bytes
  import opened Net
  import opened LeaseCommon
  import opened LeaseTable
  import LeasePool

  datatype Db = Db(start: Bytes, end: Bytes, leases: seq<Lease>, reserved: map<Bytes, Lease>)

  /** The database after an operation and the lease it returned (nil is None). */
  datatype DbStep = DbStep(db: Db, found: Option<Lease>)

  /** NewLeaseDB: `uint32(end - start)` leases from the start address. */
  function NewLeaseDB(startAddr: Bytes, endAddr: Bytes): (r: Db)
    requires |startAddr| >= 4 && |endAddr| >= 4
    ensures r.reserved == map[]
  {
    var s, e := LeasePool.Addr(startAddr), LeasePool.Addr(endAddr);
    Db(startAddr, endAddr, LeasePool.RangeLeases(s, (e - s) % 0x1_0000_0000), map[])
  }

  /** For start <= end the database holds end - start leases: lease i has
      address start + i, and no lease has the end address. */
  lemma NewLeaseDBRange(startAddr: Bytes, endAddr: Bytes)
    requires |startAddr| >= 4 && |endAddr| >= 4 && LeasePool.Addr(startAddr) <= LeasePool.Addr(endAddr)
    ensures var d, s, e := NewLeaseDB(startAddr, endAddr), LeasePool.Addr(startAddr), LeasePool.Addr(endAddr);
            && |d.leases| == e - s
            && (forall i | 0 <= i < |d.leases| :: ReadBE32(d.leases[i].ip) == s + i
                  && d.leases[i].state == Available && d.leases[i].expiry == ZeroTime)
            && (forall i | 0 <= i < |d.leases| :: d.leases[i].ip != BE32(e))
            && DistinctIps(d.leases)
  {
    var s: int, e: int := LeasePool.Addr(startAddr), LeasePool.Addr(endAddr);
    var n: nat := e - s;
    assert (e - s) % 0x1_0000_0000 == n;
    assert NewLeaseDB(startAddr, endAddr).leases == LeasePool.RangeLeases(s, n);
    hide NewLeaseDB, LeasePool.RangeLeases;
    LeasePool.RangeLeasesFacts(s, n);
    var ls := LeasePool.RangeLeases(s, n);
    forall i | 0 <= i < n ensures ls[i].ip != BE32(e) {
      assert ReadBE32(ls[i].ip) == s + i;
    }
  }

  /** GetLease: the reservation first, then the pool lookup. */
  function GetLease(d: Db, clientId: Bytes, now: int): (r: DbStep)
    ensures r.db.reserved == d.reserved && |r.db.leases| == |d.leases|
  {
    if clientId in d.reserved then DbStep(d, Some(d.reserved[clientId]))
    else
      var s := Lookup(d.leases, clientId, now);
      DbStep(d.(leases := s.leases), s.found)
  }

  /** AcceptLease */
  function AcceptLease(d: Db, offered: Lease, ttl: int, now: int): (r: Db)
    ensures r.reserved == d.reserved && |r.leases| == |d.leases|
  {
    d.(leases := Accept(d.leases, offered, ttl, now))
  }

  /** NextAvailableLease */
  function NextAvailableLease(d: Db, clientId: Bytes, now: int): (r: DbStep)
    ensures r.db.reserved == d.reserved && |r.db.leases| == |d.leases|
  {
    var s := NextAvailable(d.leases, clientId, now);
    DbStep(d.(leases := s.leases), s.found)
  }

  /** ReserveLease: stored without any check, replacing an earlier one. */
  function ReserveLease(d: Db, clientId: Bytes, ip: Bytes): (r: Db)
    ensures r.leases == d.leases
  {
    d.(reserved := d.reserved[clientId := LeasePool.Reservation(clientId, ip)])
  }

  /** Whatever the pool holds, a reserved client gets its reservation back,
      Reserved with the reserved address. */
  lemma ReserveThenGet(d: Db, clientId: Bytes, ip: Bytes, now: int)
    ensures var r := GetLease(ReserveLease(d, clientId, ip), clientId, now);
            && r.found == Some(LeasePool.Reservation(clientId, ip))
            && r.found.value.state == Reserved && r.found.value.ip == ip && r.found.value.clientId == clientId
            && r.db == ReserveLease(d, clientId, ip)
  {
  }

  /** ReleaseLease: only the pool leases the client holds are cleared. */
  function ReleaseLease(d: Db, released: Lease): (r: Db)
    ensures r.reserved == d.reserved
  {
    d.(leases := ClearHeld(d.leases, released.clientId))
  }

  /** A released client without a reservation gets nothing back; a
      reservation survives a release. */
  lemma ReleaseThenGet(d: Db, released: Lease, now: int)
    requires released.clientId != []
    ensures var c := released.clientId;
            var q := ReleaseLease(d, released);
            && (c !in d.reserved ==> GetLease(q, c, now).found.None?)
            && (c in d.reserved ==> GetLease(q, c, now).found == Some(d.reserved[c]))
  {
    if released.clientId !in d.reserved {
      ClearHeldReleases(d.leases, released.clientId);
    }
  }

  /** ActiveLeases: full copies of the live leases. */
  function ActiveLeases(d: Db, now: int): seq<Lease> {
    LiveLeases(d.leases, now)
  }

  /** ReservedLeases, in the given iteration order: each reservation once. */
  function ReservedLeases(d: Db, order: seq<Bytes>): (r: seq<Lease>)
    requires LeasePool.KeyOrder(d.reserved, order)
    ensures |r| == |d.reserved|
    ensures forall k | k in d.reserved :: d.reserved[k] in r
    ensures forall x | x in r :: exists k | k in d.reserved :: d.reserved[k] == x
  {
    var keys := set i | 0 <= i < |order| :: order[i];
    assert keys == d.reserved.Keys;
    LeasePool.OrderSize(order);
    var r := seq(|order|, i requires 0 <= i < |order| => d.reserved[order[i]]);
    assert forall k | k in d.reserved :: d.reserved[k] in r by {
      forall k | k in d.reserved ensures d.reserved[k] in r {
        var i :| 0 <= i < |order| && order[i] == k;
        assert r[i] == d.reserved[k];
      }
    }
    r
  }

  /** PeristLeases: the bytes written, or None when nothing is written. */
  function PersistLeases(d: Db): Option<Bytes> {
    Persist(d.leases)
  }

  /** LoadLeases on the file contents. */
  function LoadLeases(d: Db, data: Bytes, ttl: int, now: int): (r: Result<Db, LoadError>)
    ensures r.Ok? ==> r.value.reserved == d.reserved
    ensures |data| == 0 ==> r == Ok(d)
    ensures 2 <= |data| && data[0] >= 1 && data[1] == 255 ==> r == Err(LengthWraps)
  {
    var ls :- Load(d.leases, data, ttl, now);
    Ok(d.(leases := ls))
  }

  // ---------------------------------------------------------------------
  // The scenarios of the package's own tests, on a fresh database
  // ---------------------------------------------------------------------

  /** One client per lease, each offered and accepted in turn, ends with
      client i holding lease i, Active. */
  lemma FreshDbHandsOutInOrder(startAddr: Bytes, endAddr: Bytes, clients: seq<Bytes>, ttl: int, now: int)
    requires |startAddr| >= 4 && |endAddr| >= 4
    requires Distinct(clients) && |clients| <= |NewLeaseDB(startAddr, endAddr).leases| && ttl >= 0
    ensures var ls := NewLeaseDB(startAddr, endAddr).leases;
            var r := Drain(ls, clients, ttl, now);
            forall i | 0 <= i < |clients| :: r[i].clientId == clients[i] && r[i].state == Active
              && r[i].ip == ls[i].ip && r[i].expiry == now + ttl
  {
    var ls := NewLeaseDB(startAddr, endAddr).leases;
    assert AllAvailable(ls);
    DrainInOrder(ls, clients, ttl, now);
  }

  /** An offer that has run out goes to the next client who asks: on a
      fresh database the first lease, offered to one client, is offered to
      another once the first offer has expired. */
  lemma ExpiredOfferReassigned(ls: seq<Lease>, first: Bytes, second: Bytes, t0: int, t1: int)
    requires |ls| > 0 && AllAvailable(ls) && t1 > t0 + OfferTime
    ensures var s1 := NextAvailable(ls, first, t0);
            var s2 := NextAvailable(s1.leases, second, t1);
            && s1.found.Some? && s1.found.value.ip == ls[0].ip
            && s2.found.Some? && s2.found.value.ip == ls[0].ip
            && HeldBy(s2.found.value, second) && s2.found.value.expiry == t1 + OfferTime
  {
    var p := (l: Lease) => Offerable(l, first, t0);
    assert p(ls[0]);
    FirstWhereIs(ls, p, 0);
    var l := OfferTo(ls[0], first, t0);
    var ls1 := ls[0 := l];
    var q := (x: Lease) => Offerable(x, second, t1);
    assert Expired(l, t1);
    assert q(ls1[0]);
    FirstWhereIs(ls1, q, 0);
  }
}
