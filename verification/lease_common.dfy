/** The lease record shared by the DHCP code (internal/common/types.go, and
    the identical declarations in internal/dhcp/lease.go and dhcp/lease.go):
    the four lease states, their names, and `Lease.Clear`. Instants are
    nanoseconds on one clock; the zero `time.Time` is `ZeroTime`. */
module LeaseCommon {
  import opened Bytes

  /** LeaseState is a Go `int`; a loaded lease may hold any byte value. */
  type LeaseState = nat

  const Available: LeaseState := 0
  const Offered: LeaseState := 1
  const Reserved: LeaseState := 2
  const Active: LeaseState := 3

  const ZeroTime: int := 0
  const Second: int := 1_000_000_000

  /** Lease. The older revision has no `Id`; its leases carry 0 there. */
  datatype Lease = Lease(id: int, clientId: Bytes, hostname: Bytes, ip: Bytes, expiry: int, state: LeaseState)

  /** LeaseState.String */
  function StateName(s: LeaseState): string {
    if s == Available then "Available"
    else if s == Offered then "Offered"
    else if s == Reserved then "Reserved"
    else if s == Active then "Active"
    else "unknown"
  }

  /** The four states have four different names, none of them "unknown",
      so a name other than "unknown" identifies its state. */
  lemma StateNameIdentifies(s: LeaseState, t: LeaseState)
    ensures s <= Active ==> StateName(s) != "unknown"
    ensures s > Active ==> StateName(s) == "unknown"
    ensures s <= Active && StateName(s) == StateName(t) ==> s == t
  {
    assert |"Available"| == 9 && |"Reserved"| == 8 && |"Active"| == 6 && |"Offered"| == |"unknown"| == 7;
    assert "Offered"[0] != "unknown"[0];
  }

  /** Lease.Clear: the client, host name and expiry are reset and the lease
      is Available again; its Id and IP stay. */
  function Clear(l: Lease): (r: Lease)
    ensures r.id == l.id && r.ip == l.ip
    ensures r.state == Available && r.expiry == ZeroTime && r.clientId == [] && r.hostname == []
  {
    l.(clientId := [], hostname := [], expiry := ZeroTime, state := Available)
  }

  /** Clearing twice is clearing once. */
  lemma ClearIdempotent(l: Lease)
    ensures Clear(Clear(l)) == Clear(l)
  {
  }

  /** A cleared lease is determined by its Id and IP alone. */
  lemma ClearForgets(a: Lease, b: Lease)
    ensures Clear(a) == Clear(b) <==> a.id == b.id && a.ip == b.ip
  {
  }
}
