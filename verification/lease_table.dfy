/** The loops over the lease array that internal/dhcp/lease.go (LeasePool)
    and dhcp/lease.go (LeaseDB) share word for word: the client lookup of
    GetLease, AcceptLease, NextAvailableLease, the clearing loop of
    ReleaseLease, the filter of ActiveLeases, and the persist/load byte
    layout. Each takes the array and returns the new one; `now` stands for
    `time.Now()`. */
module LeaseTable {
  import opened Wrappers
  import opened Bytes
  import opened Net
  import opened LeaseCommon

  /** How long an offer is held: `time.Second * 60`. */
  const OfferTime: int := 60 * Second

  /** `time.Now().After(l.Expiry)` */
  predicate Expired(l: Lease, now: int) {
    now > l.expiry
  }

  /** The lease array after a step, and the lease the step returned (nil
      is None). */
  datatype Step = Step(leases: seq<Lease>, found: Option<Lease>)

  // ---------------------------------------------------------------------
  // The first lease a loop stops at
  // ---------------------------------------------------------------------

  /** Index of the first lease satisfying `p`. */
  function FirstWhere(ls: seq<Lease>, p: Lease -> bool): (r: Option<nat>)
    ensures r.Some? ==> r.value < |ls| && p(ls[r.value])
    ensures r.Some? ==> forall j | 0 <= j < r.value :: !p(ls[j])
    ensures r.None? ==> forall j | 0 <= j < |ls| :: !p(ls[j])
    decreases |ls|
  {
    if |ls| == 0 then None
    else if p(ls[0]) then Some(0)
    else
      match FirstWhere(ls[1..], p)
      case None => None
      case Some(i) => Some(i + 1)
  }

  /** The first lease satisfying `p` is the one the loop stops at. */
  lemma FirstWhereIs(ls: seq<Lease>, p: Lease -> bool, i: nat)
    requires i < |ls| && p(ls[i])
    requires forall j | 0 <= j < i :: !p(ls[j])
    ensures FirstWhere(ls, p) == Some(i)
  {
  }

  /** The lease is held by the client, ignoring ASCII case (strings.EqualFold). */
  predicate HeldBy(l: Lease, clientId: Bytes) {
    EqualFold(clientId, l.clientId)
  }

  // ---------------------------------------------------------------------
  // GetLease (the pool loop), AcceptLease, ReleaseLease
  // ---------------------------------------------------------------------

  /** The pool loop of GetLease: the first lease held by the client; an
      expired one is cleared and nil is returned. */
  function Lookup(ls: seq<Lease>, clientId: Bytes, now: int): (r: Step)
    ensures |r.leases| == |ls|
  {
    match FirstWhere(ls, (l: Lease) => HeldBy(l, clientId))
    case None => Step(ls, None)
    case Some(i) =>
      if Expired(ls[i], now) then Step(ls[i := Clear(ls[i])], None)
      else Step(ls, Some(ls[i]))
  }

  /** What the lookup promises: the lease returned is the first one the
      client holds and it has not expired; an expired one is cleared and
      nothing else changes; with no lease held nothing changes. */
  lemma LookupSpec(ls: seq<Lease>, clientId: Bytes, now: int)
    ensures var r := Lookup(ls, clientId, now);
            r.found.Some? ==> r.leases == ls && exists i | 0 <= i < |ls| ::
              (ls[i] == r.found.value && HeldBy(ls[i], clientId) && !Expired(ls[i], now)
               && forall j | 0 <= j < i :: !HeldBy(ls[j], clientId))
    ensures var r := Lookup(ls, clientId, now);
            r.found.None? && r.leases != ls ==> exists i | 0 <= i < |ls| ::
              (r.leases == ls[i := Clear(ls[i])] && HeldBy(ls[i], clientId) && Expired(ls[i], now))
    ensures var r := Lookup(ls, clientId, now);
            (forall j | 0 <= j < |ls| :: !HeldBy(ls[j], clientId)) ==> r == Step(ls, None)
  {
  }

  /** An expired lease is handed back as nil and cleared; the cleared
      lease keeps its IP, so it is not a zero Lease. */
  lemma ExpiredLookupKeepsIp(ls: seq<Lease>, clientId: Bytes, now: int, i: nat)
    requires i < |ls| && HeldBy(ls[i], clientId) && Expired(ls[i], now)
    requires forall j | 0 <= j < i :: !HeldBy(ls[j], clientId)
    ensures var r := Lookup(ls, clientId, now);
            r.found.None? && r.leases[i] == Clear(ls[i]) && r.leases[i].ip == ls[i].ip
  {
    FirstWhereIs(ls, (l: Lease) => HeldBy(l, clientId), i);
  }

  /** AcceptLease: a Reserved lease is left alone; otherwise the first
      lease with exactly the same client id becomes Active until now + ttl. */
  function Accept(ls: seq<Lease>, offered: Lease, ttl: int, now: int): (r: seq<Lease>)
    ensures |r| == |ls|
  {
    if offered.state == Reserved then ls
    else
      match FirstWhere(ls, (l: Lease) => l.clientId == offered.clientId)
      case None => ls
      case Some(i) => ls[i := ls[i].(state := Active, expiry := now + ttl)]
  }

  /** Accepting changes at most one lease: the first one with the offered
      client id, which becomes Active with the new expiry and keeps its
      client, host name and IP. */
  lemma AcceptSpec(ls: seq<Lease>, offered: Lease, ttl: int, now: int)
    ensures var r := Accept(ls, offered, ttl, now);
            forall j | 0 <= j < |ls| && r[j] != ls[j] ::
              && ls[j].clientId == offered.clientId && offered.state != Reserved
              && r[j] == ls[j].(state := Active, expiry := now + ttl)
              && forall k | 0 <= k < j :: ls[k].clientId != offered.clientId
    ensures offered.state != Reserved && (exists j | 0 <= j < |ls| :: ls[j].clientId == offered.clientId) ==>
              exists j | 0 <= j < |ls| :: Accept(ls, offered, ttl, now)[j].state == Active
                && Accept(ls, offered, ttl, now)[j].clientId == offered.clientId
  {
  }

  /** The clearing loop of ReleaseLease: every lease the client holds. */
  function ClearHeld(ls: seq<Lease>, clientId: Bytes): (r: seq<Lease>)
    ensures |r| == |ls|
  {
    seq(|ls|, j requires 0 <= j < |ls| => if HeldBy(ls[j], clientId) then Clear(ls[j]) else ls[j])
  }

  /** After a release the client holds no lease, and every lease it did
      not hold is untouched. */
  lemma ClearHeldReleases(ls: seq<Lease>, clientId: Bytes)
    requires clientId != []
    ensures var r := ClearHeld(ls, clientId);
            (forall j | 0 <= j < |r| :: !HeldBy(r[j], clientId))
            && (forall j | 0 <= j < |r| && !HeldBy(ls[j], clientId) :: r[j] == ls[j])
  {
  }

  // ---------------------------------------------------------------------
  // NextAvailableLease
  // ---------------------------------------------------------------------

  /** The switch of NextAvailableLease: the lease may be offered to the
      client. Reserved leases and unexpired leases of other clients are
      skipped. */
  predicate Offerable(l: Lease, clientId: Bytes, now: int) {
    || l.state == Available
    || (l.state == Offered && (HeldBy(l, clientId) || Expired(l, now)))
    || (l.state == Active && Expired(l, now))
  }

  /** The update the switch makes: offered to the client for 60 seconds.
      An offer renewed for the same client keeps the stored spelling of
      its id. */
  function OfferTo(l: Lease, clientId: Bytes, now: int): (r: Lease)
    ensures r.state == Offered && r.expiry == now + OfferTime && HeldBy(r, clientId)
    ensures r.id == l.id && r.ip == l.ip && r.hostname == l.hostname
  {
    EqualFoldRefl(clientId);
    if l.state == Offered && HeldBy(l, clientId) then l.(expiry := now + OfferTime)
    else l.(clientId := clientId, state := Offered, expiry := now + OfferTime)
  }

  /** NextAvailableLease */
  function NextAvailable(ls: seq<Lease>, clientId: Bytes, now: int): (r: Step)
    ensures |r.leases| == |ls|
  {
    match FirstWhere(ls, (l: Lease) => Offerable(l, clientId, now))
    case None => Step(ls, None)
    case Some(i) =>
      var l := OfferTo(ls[i], clientId, now);
      Step(ls[i := l], Some(l))
  }

  /** The first offerable lease in pool order is offered to the client and
      returned; every other lease is unchanged; nil exactly when no lease
      is offerable. */
  lemma NextAvailableSpec(ls: seq<Lease>, clientId: Bytes, now: int)
    ensures var r := NextAvailable(ls, clientId, now);
            r.found.None? <==> forall j | 0 <= j < |ls| :: !Offerable(ls[j], clientId, now)
    ensures var r := NextAvailable(ls, clientId, now);
            r.found.None? ==> r.leases == ls
    ensures var r := NextAvailable(ls, clientId, now);
            r.found.Some? ==> exists i | 0 <= i < |ls| ::
              && Offerable(ls[i], clientId, now)
              && (forall j | 0 <= j < i :: !Offerable(ls[j], clientId, now))
              && r.leases == ls[i := r.found.value]
              && r.found.value.state == Offered && HeldBy(r.found.value, clientId)
              && r.found.value.expiry == now + OfferTime && r.found.value.ip == ls[i].ip
  {
  }

  /** Asking twice at the same instant gets the same lease back and leaves
      the array as the first request left it. */
  lemma NextAvailableTwice(ls: seq<Lease>, clientId: Bytes, now: int)
    ensures var r := NextAvailable(ls, clientId, now);
            NextAvailable(r.leases, clientId, now) == r
  {
    var p := (l: Lease) => Offerable(l, clientId, now);
    match FirstWhere(ls, p)
    case None =>
    case Some(i) =>
      var l := OfferTo(ls[i], clientId, now);
      var ls' := ls[i := l];
      assert p(ls'[i]);
      FirstWhereIs(ls', p, i);
      assert OfferTo(l, clientId, now) == l;
  }

  // ---------------------------------------------------------------------
  // Handing out a whole pool
  // ---------------------------------------------------------------------

  /** NextAvailableLease then AcceptLease for one client, as a DISCOVER and
      REQUEST pair does. */
  function OfferAndAccept(ls: seq<Lease>, clientId: Bytes, ttl: int, now: int): (r: seq<Lease>)
    ensures |r| == |ls|
  {
    var s := NextAvailable(ls, clientId, now);
    match s.found
    case None => s.leases
    case Some(l) => Accept(s.leases, l, ttl, now)
  }

  /** OfferAndAccept for each client in turn. */
  function Drain(ls: seq<Lease>, clients: seq<Bytes>, ttl: int, now: int): (r: seq<Lease>)
    ensures |r| == |ls|
    decreases |clients|
  {
    if |clients| == 0 then ls
    else Drain(OfferAndAccept(ls, clients[0], ttl, now), clients[1..], ttl, now)
  }

  /** The first `k` leases handed to the first `k` clients, the rest untouched. */
  function HandedOut(ls: seq<Lease>, clients: seq<Bytes>, k: nat, ttl: int, now: int): (r: seq<Lease>)
    requires k <= |clients| && k <= |ls|
    ensures |r| == |ls|
  {
    seq(|ls|, i requires 0 <= i < |ls| =>
      if i < k then ls[i].(clientId := clients[i], state := Active, expiry := now + ttl) else ls[i])
  }

  predicate AllAvailable(ls: seq<Lease>) {
    forall i | 0 <= i < |ls| :: ls[i].state == Available
  }

  predicate Distinct(clients: seq<Bytes>) {
    forall i, j | 0 <= i < j < |clients| :: clients[i] != clients[j]
  }

  lemma {:induction false} DrainStep(ls: seq<Lease>, clients: seq<Bytes>, k: nat, ttl: int, now: int)
    requires AllAvailable(ls) && Distinct(clients) && k < |clients| && k < |ls| && ttl >= 0
    ensures OfferAndAccept(HandedOut(ls, clients, k, ttl, now), clients[k], ttl, now)
            == HandedOut(ls, clients, k + 1, ttl, now)
  {
    var t := HandedOut(ls, clients, k, ttl, now);
    var c := clients[k];
    var p := (l: Lease) => Offerable(l, c, now);
    assert p(t[k]);
    FirstWhereIs(t, p, k);
    var l := OfferTo(t[k], c, now);
    assert l.clientId == c;
    var t' := t[k := l];
    var q := (x: Lease) => x.clientId == l.clientId;
    assert q(t'[k]);
    FirstWhereIs(t', q, k);
  }

  lemma {:induction false} DrainFrom(ls: seq<Lease>, clients: seq<Bytes>, k: nat, ttl: int, now: int)
    requires AllAvailable(ls) && Distinct(clients) && k <= |clients| <= |ls| && ttl >= 0
    ensures Drain(HandedOut(ls, clients, k, ttl, now), clients[k..], ttl, now)
            == HandedOut(ls, clients, |clients|, ttl, now)
    decreases |clients| - k
  {
    if k < |clients| {
      DrainStep(ls, clients, k, ttl, now);
      assert clients[k..][1..] == clients[k + 1..];
      DrainFrom(ls, clients, k + 1, ttl, now);
    } else {
      assert clients[k..] == [];
    }
  }

  /** Offering and accepting for distinct clients on a fresh pool hands the
      leases out in pool order: client k holds lease k, Active, and the
      leases after the last client are untouched. */
  lemma DrainInOrder(ls: seq<Lease>, clients: seq<Bytes>, ttl: int, now: int)
    requires AllAvailable(ls) && Distinct(clients) && |clients| <= |ls| && ttl >= 0
    ensures Drain(ls, clients, ttl, now) == HandedOut(ls, clients, |clients|, ttl, now)
  {
    assert HandedOut(ls, clients, 0, ttl, now) == ls;
    assert clients[0..] == clients;
    DrainFrom(ls, clients, 0, ttl, now);
  }

  // ---------------------------------------------------------------------
  // ActiveLeases
  // ---------------------------------------------------------------------

  /** `State == LeaseActive && time.Now().Before(Expiry)` */
  predicate Live(l: Lease, now: int) {
    l.state == Active && now < l.expiry
  }

  /** The leases ActiveLeases copies, in pool order. */
  function LiveLeases(ls: seq<Lease>, now: int): (r: seq<Lease>)
    ensures |r| <= |ls|
    decreases |ls|
  {
    if |ls| == 0 then []
    else (if Live(ls[0], now) then [ls[0]] else []) + LiveLeases(ls[1..], now)
  }

  /** Exactly the live leases are listed. */
  lemma {:induction false} LiveLeasesMembers(ls: seq<Lease>, now: int, x: Lease)
    ensures x in LiveLeases(ls, now) <==> x in ls && Live(x, now)
    decreases |ls|
  {
    if |ls| > 0 {
      LiveLeasesMembers(ls[1..], now, x);
      assert ls == [ls[0]] + ls[1..];
    }
  }

  // ---------------------------------------------------------------------
  // Persist and load
  // ---------------------------------------------------------------------

  /** One persisted lease: client id and host name each behind a length
      byte, the IP bytes, and the state byte. */
  function Entry(l: Lease): Bytes {
    [ToByte(|l.clientId|)] + l.clientId + [ToByte(|l.hostname|)] + l.hostname + l.ip + [ToByte(l.state)]
  }

  function ActiveCount(ls: seq<Lease>): nat
    decreases |ls|
  {
    if |ls| == 0 then 0 else (if ls[0].state == Active then 1 else 0) + ActiveCount(ls[1..])
  }

  /** The entries of the Active leases, in pool order. */
  function Entries(ls: seq<Lease>): Bytes
    decreases |ls|
  {
    if |ls| == 0 then [] else (if ls[0].state == Active then Entry(ls[0]) else []) + Entries(ls[1..])
  }

  /** PeristLeases: the count byte (a Go `byte`, so it wraps at 256) and the
      entries; nothing is written when the count byte is 0. */
  function Persist(ls: seq<Lease>): (r: Option<Bytes>)
    ensures r.None? <==> ActiveCount(ls) % 256 == 0
    ensures r.Some? ==> |r.value| >= 1 && r.value[0] == ActiveCount(ls) % 256
  {
    var c := ToByte(ActiveCount(ls));
    if c > 0 then Some([c] + Entries(ls)) else None
  }

  /** The two ways the Go loop panics: a slice past the end of the data,
      and the length byte 255, whose end index `1+cidLen` (or `1+hostLen`)
      is computed in `byte` and wraps to 0, below the start index 1. */
  datatype LoadError = Truncated | LengthWraps

  datatype Decoded = Decoded(lease: Lease, rest: Bytes)

  /** One iteration of the LoadLeases decoding loop, as written: a length
      byte of 255 panics. */
  function DecodeEntry(data: Bytes, expiry: int): (r: Result<Decoded, LoadError>)
    ensures |data| >= 1 && data[0] == 255 ==> r == Err(LengthWraps)
    ensures r.Ok? ==> r == DecodeEntryWide(data, expiry)
    ensures DecodeEntryWide(data, expiry).Err? ==> r.Err?
  {
    if |data| < 1 then Err(Truncated)
    else if data[0] == 255 then Err(LengthWraps)
    else if 1 + data[0] < |data| && data[1 + data[0]] == 255 then Err(LengthWraps)
    else DecodeEntryWide(data, expiry)
  }

  /** The decoding step with the end indices computed in `int`, so that a
      length byte of 255 reads 255 bytes. */
  function DecodeEntryWide(data: Bytes, expiry: int): (r: Result<Decoded, LoadError>)
    ensures r.Ok? ==> |r.value.rest| < |data|
    ensures r.Err? ==> r == Err(Truncated)
  {
    if |data| < 1 || 1 + data[0] > |data| then Err(Truncated)
    else
      var cid := data[1..1 + data[0]];
      var d1 := data[1 + data[0]..];
      if |d1| < 1 || 1 + d1[0] > |d1| then Err(Truncated)
      else
        var host := d1[1..1 + d1[0]];
        var d2 := d1[1 + d1[0]..];
        if |d2| < 4 then Err(Truncated)
        else
          var d3 := d2[4..];
          if |d3| < 1 then Err(Truncated)
          else Ok(Decoded(Lease(0, cid, host, d2[..4], expiry, d3[0]), d3[1..]))
  }

  function DecodeEntries(data: Bytes, count: nat, expiry: int): Result<seq<Lease>, LoadError>
    decreases count
  {
    if count == 0 then Ok([])
    else
      var d :- DecodeEntry(data, expiry);
      var rest :- DecodeEntries(d.rest, count - 1, expiry);
      Ok([d.lease] + rest)
  }

  /** The restore loop for one loaded lease: it overwrites every pool lease
      with an equal IP. */
  function Restore(ls: seq<Lease>, x: Lease): (r: seq<Lease>)
    ensures |r| == |ls|
  {
    seq(|ls|, j requires 0 <= j < |ls| => if IpEqual(x.ip, ls[j].ip) then x else ls[j])
  }

  function RestoreAll(ls: seq<Lease>, xs: seq<Lease>): (r: seq<Lease>)
    ensures |r| == |ls|
    decreases |xs|
  {
    if |xs| == 0 then ls else RestoreAll(Restore(ls, xs[0]), xs[1..])
  }

  /** LoadLeases on the file contents: an empty file changes nothing. */
  function Load(ls: seq<Lease>, data: Bytes, ttl: int, now: int): (r: Result<seq<Lease>, LoadError>)
    ensures r.Ok? ==> |r.value| == |ls|
    ensures |data| == 0 ==> r == Ok(ls)
    ensures 2 <= |data| && data[0] >= 1 && data[1] == 255 ==> r == Err(LengthWraps)
  {
    if |data| == 0 then Ok(ls)
    else
      var xs :- DecodeEntries(data[1..], data[0], now + ttl);
      Ok(RestoreAll(ls, xs))
  }

  // ---------------------------------------------------------------------
  // Round trip
  // ---------------------------------------------------------------------

  /** What a lease looks like after it has been persisted and loaded: the
      Id is lost (it is not persisted) and the expiry is the new one. */
  function Reloaded(l: Lease, expiry: int): Lease {
    if l.state == Active then l.(id := 0, expiry := expiry) else l
  }

  /** The leases the loader decodes from Entries(ls). */
  function LoadedLeases(ls: seq<Lease>, expiry: int): seq<Lease>
    decreases |ls|
  {
    if |ls| == 0 then []
    else (if ls[0].state == Active then [Reloaded(ls[0], expiry)] else []) + LoadedLeases(ls[1..], expiry)
  }

  /** Every lease has a 4-byte IP, and every Active one has a client id and
      a host name shorter than 255 bytes, so that its length bytes neither
      wrap when written nor when read. */
  predicate Persistable(ls: seq<Lease>) {
    forall j | 0 <= j < |ls| :: |ls[j].ip| == 4
      && (ls[j].state == Active ==> |ls[j].clientId| < 255 && |ls[j].hostname| < 255)
  }

  predicate DistinctIps(ls: seq<Lease>) {
    forall i, j | 0 <= i < j < |ls| :: ls[i].ip != ls[j].ip
  }

  /** A persisted entry whose client id and host name are shorter than 255
      bytes decodes back to the lease with the load-time expiry. */
  lemma EntryDecodes(l: Lease, rest: Bytes, expiry: int)
    requires |l.clientId| < 255 && |l.hostname| < 255 && |l.ip| == 4 && l.state == Active
    ensures DecodeEntry(Entry(l) + rest, expiry) == Ok(Decoded(Reloaded(l, expiry), rest))
  {
    hide DecodeEntryWide;
    WideEntryDecodes(l, rest, expiry);
    var c := |l.clientId|;
    var data := Entry(l) + rest;
    assert data[0] == c && data[1 + c] == |l.hostname|;
  }

  /** With the end indices in `int`, every entry PeristLeases can write
      without wrapping its length bytes decodes back, 255-byte fields
      included. */
  lemma WideEntryDecodes(l: Lease, rest: Bytes, expiry: int)
    requires |l.clientId| < 256 && |l.hostname| < 256 && |l.ip| == 4 && l.state == Active
    ensures DecodeEntryWide(Entry(l) + rest, expiry) == Ok(Decoded(Reloaded(l, expiry), rest))
  {
    hide DecodeEntryWide;
    var c, h := |l.clientId|, |l.hostname|;
    var d2 := l.ip + ([l.state as byte] + rest);
    assert Entry(l) + rest == [c as byte] + l.clientId + ([h as byte] + l.hostname + d2);
    FieldsDecode(Entry(l) + rest, expiry, l.clientId, l.hostname, l.ip, l.state as byte, rest);
  }

  /** As written, an entry with a 255-byte client id, or a shorter one and
      a 255-byte host name, makes the loader panic. */
  lemma LongFieldPanics(l: Lease, rest: Bytes, expiry: int)
    requires |l.clientId| <= 255 && |l.hostname| <= 255 && |l.ip| == 4 && l.state == Active
    requires |l.clientId| == 255 || |l.hostname| == 255
    ensures DecodeEntry(Entry(l) + rest, expiry) == Err(LengthWraps)
  {
    var c := |l.clientId|;
    var data := Entry(l) + rest;
    assert data[0] == c && data[1 + c] == |l.hostname|;
  }

  /** The bytes of a length-prefixed field, and what follows it. */
  lemma Prefixed(data: Bytes, x: Bytes, rest: Bytes)
    requires |x| < 256 && data == [|x| as byte] + x + rest
    ensures |data| >= 1 + |x| && data[0] == |x|
    ensures data[1..1 + |x|] == x && data[1 + |x|..] == rest
  {
  }

  /** The loader's view of one entry: client id and hostname with their
      length bytes, the four address bytes, the state byte. */
  lemma FieldsDecode(data: Bytes, expiry: int, cid: Bytes, host: Bytes, ip: Bytes, st: byte, rest: Bytes)
    requires |cid| < 256 && |host| < 256 && |ip| == 4
    requires data == [|cid| as byte] + cid + ([|host| as byte] + host + (ip + ([st] + rest)))
    ensures DecodeEntryWide(data, expiry) == Ok(Decoded(Lease(0, cid, host, ip, expiry, st), rest))
  {
    var d1 := [|host| as byte] + host + (ip + ([st] + rest));
    var d2 := ip + ([st] + rest);
    Prefixed(data, cid, d1);
    Prefixed(d1, host, d2);
    assert d2[..4] == ip && d2[4..] == [st] + rest;
  }

  lemma {:induction false} EntriesDecode(ls: seq<Lease>, rest: Bytes, expiry: int)
    requires Persistable(ls)
    ensures DecodeEntries(Entries(ls) + rest, ActiveCount(ls), expiry) == Ok(LoadedLeases(ls, expiry))
    decreases |ls|
  {
    hide *;
    EntriesCons(ls, expiry);
    if |ls| == 0 {
      NoEntries(rest, expiry);
    } else {
      var tail := ls[1..];
      PersistableTail(ls);
      EntriesDecode(tail, rest, expiry);
      var more := Entries(tail) + rest;
      if ls[0].state == Active {
        assert Entries(ls) + rest == Entry(ls[0]) + more;
        EntryDecodes(ls[0], more, expiry);
        DecodeEntriesStep(Entry(ls[0]) + more, ActiveCount(tail), expiry, Decoded(Reloaded(ls[0], expiry), more),
                          LoadedLeases(tail, expiry));
      }
    }
  }

  /** Entries, ActiveCount and LoadedLeases unfolded once. */
  lemma EntriesCons(ls: seq<Lease>, expiry: int)
    ensures |ls| == 0 ==> Entries(ls) == [] && ActiveCount(ls) == 0 && LoadedLeases(ls, expiry) == []
    ensures |ls| > 0 && ls[0].state == Active ==>
              && Entries(ls) == Entry(ls[0]) + Entries(ls[1..])
              && ActiveCount(ls) == ActiveCount(ls[1..]) + 1
              && LoadedLeases(ls, expiry) == [Reloaded(ls[0], expiry)] + LoadedLeases(ls[1..], expiry)
    ensures |ls| > 0 && ls[0].state != Active ==>
              && Entries(ls) == Entries(ls[1..])
              && ActiveCount(ls) == ActiveCount(ls[1..])
              && LoadedLeases(ls, expiry) == LoadedLeases(ls[1..], expiry)
  {
  }

  lemma NoEntries(rest: Bytes, expiry: int)
    ensures DecodeEntries([] + rest, 0, expiry) == Ok([])
  {
  }

  lemma PersistableTail(ls: seq<Lease>)
    requires Persistable(ls) && |ls| > 0
    ensures Persistable(ls[1..])
    ensures |ls[0].ip| == 4 && (ls[0].state == Active ==> |ls[0].clientId| < 255 && |ls[0].hostname| < 255)
  {
    var tail := ls[1..];
    forall j | 0 <= j < |tail| ensures tail[j] == ls[j + 1] {
    }
  }

  lemma DecodeEntriesStep(data: Bytes, n: nat, expiry: int, d: Decoded, xs: seq<Lease>)
    requires DecodeEntry(data, expiry) == Ok(d) && DecodeEntries(d.rest, n, expiry) == Ok(xs)
    ensures DecodeEntries(data, n + 1, expiry) == Ok([d.lease] + xs)
  {
  }

  /** The array with the first `i` leases already restored. */
  function RestoredUpTo(ls: seq<Lease>, i: nat, expiry: int): (r: seq<Lease>)
    ensures |r| == |ls|
  {
    seq(|ls|, j requires 0 <= j < |ls| => if j < i then Reloaded(ls[j], expiry) else ls[j])
  }

  lemma RestoreOne(ls: seq<Lease>, i: nat, expiry: int)
    requires Persistable(ls) && DistinctIps(ls) && i < |ls| && ls[i].state == Active
    ensures Restore(RestoredUpTo(ls, i, expiry), Reloaded(ls[i], expiry)) == RestoredUpTo(ls, i + 1, expiry)
  {
    var q := RestoredUpTo(ls, i, expiry);
    var x := Reloaded(ls[i], expiry);
    forall j | 0 <= j < |ls| ensures IpEqual(x.ip, q[j].ip) <==> j == i {
      assert q[j].ip == ls[j].ip;
      if j < i {
        assert ls[j].ip != ls[i].ip;
      } else if j > i {
        assert ls[i].ip != ls[j].ip;
      }
    }
  }

  lemma {:induction false} RestoreFrom(ls: seq<Lease>, i: nat, expiry: int)
    requires Persistable(ls) && DistinctIps(ls) && i <= |ls|
    ensures RestoreAll(RestoredUpTo(ls, i, expiry), LoadedLeases(ls[i..], expiry)) == RestoredUpTo(ls, |ls|, expiry)
    decreases |ls| - i
  {
    if i < |ls| {
      var tail := ls[i..];
      assert tail[0] == ls[i] && tail[1..] == ls[i + 1..];
      RestoreFrom(ls, i + 1, expiry);
      var later := LoadedLeases(ls[i + 1..], expiry);
      if ls[i].state == Active {
        var x := Reloaded(ls[i], expiry);
        var xs := [x] + later;
        assert LoadedLeases(tail, expiry) == xs;
        assert xs[0] == x && xs[1..] == later;
        RestoreOne(ls, i, expiry);
      } else {
        assert LoadedLeases(tail, expiry) == later;
        assert RestoredUpTo(ls, i, expiry) == RestoredUpTo(ls, i + 1, expiry);
      }
    }
  }

  /** Persisting leases with distinct 4-byte IPs, between 1 and 255 of them
      Active, and loading the bytes into the same array gives back every
      Active lease with its client, host name, IP and state and the new
      expiry; the other leases are untouched. */
  lemma PersistThenLoad(ls: seq<Lease>, ttl: int, now: int)
    requires Persistable(ls) && DistinctIps(ls)
    requires 1 <= ActiveCount(ls) <= 255
    ensures Persist(ls).Some?
    ensures Load(ls, Persist(ls).value, ttl, now)
            == Ok(seq(|ls|, j requires 0 <= j < |ls| => Reloaded(ls[j], now + ttl)))
  {
    hide Entries, DecodeEntries, RestoreAll, LoadedLeases, ActiveCount, Persistable, DistinctIps, Reloaded;
    var e := now + ttl;
    var c := ActiveCount(ls);
    var data := [c] + Entries(ls);
    assert Persist(ls) == Some(data);
    assert data[0] == c && data[1..] == Entries(ls) + [];
    EntriesDecode(ls, [], e);
    assert RestoredUpTo(ls, 0, e) == ls;
    assert ls[0..] == ls;
    RestoreFrom(ls, 0, e);
    assert Load(ls, data, ttl, now) == Ok(RestoreAll(ls, LoadedLeases(ls, e)));
    assert RestoredUpTo(ls, |ls|, e) == seq(|ls|, j requires 0 <= j < |ls| => Reloaded(ls[j], e));
  }

  /** One Active lease with a 255-byte client id is written by PeristLeases,
      and reading the file back panics. */
  lemma LongClientIdBreaksReload(l: Lease, ttl: int, now: int)
    requires |l.clientId| == 255 && |l.hostname| <= 255 && |l.ip| == 4 && l.state == Active
    ensures Persist([l]).Some?
    ensures Load([l], Persist([l]).value, ttl, now) == Err(LengthWraps)
  {
    var data := [1] + Entry(l);
    EntriesCons([l], now + ttl);
    EntriesCons([l][1..], now + ttl);
    assert Entries([l]) == Entry(l) + [] == Entry(l);
    assert ToByte(ActiveCount([l])) == 1;
    assert Persist([l]) == Some(data);
    assert data[1..] == Entry(l) + [];
    LongFieldPanics(l, [], now + ttl);
  }

  /** 256 Active leases wrap the count byte to 0, and nothing is written. */
  lemma PersistWrapsAt256(ls: seq<Lease>)
    requires ActiveCount(ls) == 256
    ensures Persist(ls) == None
  {
  }
}
