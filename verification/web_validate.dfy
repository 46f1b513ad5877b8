/** The request validators of internal/web/v1/types.go. Each collects
    field errors in order and answers nil when there are none. MAC
    parsing (net.ParseMAC) is a predicate parameter; net.ParseIP(s).To4()
    is Net.ParseIPv4. */
module WebValidate {
  import opened Wrappers
  import opened Bytes
  import opened Text
  import opened Net

  datatype ValidationError = ValidationError(field: string, message: string)

  /** `nil` when nothing was collected, the collected errors otherwise. */
  function Finish(errs: seq<ValidationError>): (r: Option<seq<ValidationError>>)
    ensures r.None? <==> errs == []
    ensures r.Some? ==> r.value == errs && |r.value| > 0
  {
    if |errs| > 0 then Some(errs) else None
  }

  /** How many errors name `field`. */
  function CountField(errs: seq<ValidationError>, field: string): nat {
    if |errs| == 0 then 0
    else (if errs[0].field == field then 1 else 0) + CountField(errs[1..], field)
  }

  lemma {:induction false} CountFieldAppend(a: seq<ValidationError>, b: seq<ValidationError>, field: string)
    ensures CountField(a + b, field) == CountField(a, field) + CountField(b, field)
  {
    if |a| > 0 {
      assert (a + b)[0] == a[0] && (a + b)[1..] == a[1..] + b;
      CountFieldAppend(a[1..], b, field);
    } else {
      assert a + b == b;
    }
  }

  /** The check of an address field against the dotted-quad expression and
      then the IPv4 parser: at most one error, naming that field. */
  function RegexAddressErrors(field: string, value: string, required: string, invalid: string, notV4: string)
    : (r: seq<ValidationError>)
    ensures r == [] <==> value != "" && IsDottedQuad(value)
    ensures |r| <= 1 && forall i | 0 <= i < |r| :: r[i].field == field
  {
    DottedQuadIffParses(value);
    if value == "" then [ValidationError(field, required)]
    else if !IsDottedQuad(value) then [ValidationError(field, invalid)]
    else if ParseIPv4(value).None? then [ValidationError(field, notV4)]
    else []
  }

  /** The "must be a valid IPv4 address" branch after the expression is
      never taken: what the expression accepts, the parser accepts. */
  lemma NotV4Unreachable(field: string, value: string, required: string, invalid: string, notV4: string)
    requires notV4 != required && notV4 != invalid
    ensures ValidationError(field, notV4) !in RegexAddressErrors(field, value, required, invalid, notV4)
  {
    DottedQuadIffParses(value);
  }

  // ---------------------------------------------------------------------
  // DhcpLeaseRequest
  // ---------------------------------------------------------------------

  datatype DhcpLeaseRequest = DhcpLeaseRequest(clientId: string, ip: string)

  function ClientIdErrors(clientId: string, isMac: string -> bool): (r: seq<ValidationError>)
    ensures r == [] <==> clientId != "" && isMac(clientId)
    ensures |r| <= 1 && forall i | 0 <= i < |r| :: r[i].field == "clientId"
  {
    if clientId == "" then [ValidationError("clientId", "Client ID is required")]
    else if !isMac(clientId) then [ValidationError("clientId", "Client ID must be a valid MAC address")]
    else []
  }

  function IpErrors(ip: string): seq<ValidationError> {
    RegexAddressErrors("ip", ip, "IP address is required", "IP address must be a valid IP address",
                       "IP address must be a valid IPv4 address")
  }

  /** DhcpLeaseRequest.Validate */
  function ValidateLeaseRequest(z: DhcpLeaseRequest, isMac: string -> bool): (r: Option<seq<ValidationError>>)
    ensures r.Some? ==> |r.value| > 0
  {
    Finish(ClientIdErrors(z.clientId, isMac) + IpErrors(z.ip))
  }

  /** A lease request passes exactly when the client id is a MAC and the
      address is IPv4 text; otherwise each field has at most one error. */
  lemma LeaseRequestValid(z: DhcpLeaseRequest, isMac: string -> bool)
    ensures ValidateLeaseRequest(z, isMac).None?
            <==> z.clientId != "" && isMac(z.clientId) && ParseIPv4(z.ip).Some?
    ensures var errs := ClientIdErrors(z.clientId, isMac) + IpErrors(z.ip);
            CountField(errs, "clientId") <= 1 && CountField(errs, "ip") <= 1
  {
    DottedQuadIffParses(z.ip);
    var a, b := ClientIdErrors(z.clientId, isMac), IpErrors(z.ip);
    CountFieldAppend(a, b, "clientId");
    CountFieldAppend(a, b, "ip");
  }

  // ---------------------------------------------------------------------
  // LocalDomainRequest
  // ---------------------------------------------------------------------

  datatype LocalDomainRequest = LocalDomainRequest(domain: string, ip: string)

  /** LocalDomainRequest.Validate: the domain text itself is not checked. */
  function ValidateLocalDomain(z: LocalDomainRequest): (r: Option<seq<ValidationError>>)
    ensures r.None? <==> z.domain != "" && ParseIPv4(z.ip).Some?
  {
    DottedQuadIffParses(z.ip);
    var d := if z.domain == "" then [ValidationError("domain", "Domain is required")] else [];
    Finish(d + IpErrors(z.ip))
  }

  // ---------------------------------------------------------------------
  // DhcpOptions
  // ---------------------------------------------------------------------

  datatype DhcpOptions = DhcpOptions(iface: string, startAddr: string, endAddr: string, leaseTtl: int,
                                     gateway: string, subnetMask: string, domainName: string,
                                     leaseFile: string, nameServers: string)

  const StartInvalid := ValidationError("startAddr", "Start address must be a valid IPv4 address")
  const StartNotLess := ValidationError("startAddr", "Start address must be less than end address")
  const EndInvalid := ValidationError("endAddr", "End address must be a valid IPv4 address")
  const EndRequired := ValidationError("endAddr", "End address is required")
  const EndNotGreater := ValidationError("endAddr", "End address must be greater than start address")

  /** The address as binary.BigEndian.Uint32 reads it. */
  function Addr(ip: Bytes): nat
    requires |ip| == 4
  {
    ReadBE32(ip)
  }

  /** The errors of the StartAddr block, which also looks at EndAddr. */
  function StartErrors(o: DhcpOptions): seq<ValidationError> {
    if o.startAddr == "" then [ValidationError("startAddr", "Start address is required")]
    else
      match ParseIPv4(o.startAddr)
      case None => [StartInvalid]
      case Some(s) =>
        if o.startAddr == o.endAddr then
          [ValidationError("startAddr", "Start address must not be the same as the end address")]
        else if o.startAddr == o.gateway then
          [ValidationError("startAddr", "Start address must not be the same as the gateway address")]
        else
          match ParseIPv4(o.endAddr)
          case None => [EndInvalid]
          case Some(e) => if Addr(s) >= Addr(e) then [StartNotLess] else []
  }

  /** The errors of the EndAddr block, which also looks at StartAddr. */
  function EndErrors(o: DhcpOptions): seq<ValidationError> {
    if o.endAddr == "" then [EndRequired]
    else
      match ParseIPv4(o.endAddr)
      case None => [EndInvalid]
      case Some(e) =>
        if o.endAddr == o.startAddr then
          [ValidationError("endAddr", "End address must not be the same as the start address")]
        else if o.endAddr == o.gateway then
          [ValidationError("endAddr", "End address must not be the same as the gateway address")]
        else
          match ParseIPv4(o.startAddr)
          case None => [StartInvalid]
          case Some(s) => if Addr(e) <= Addr(s) then [EndNotGreater] else []
  }

  /** Only a zero TTL is refused; a negative one passes. */
  function TtlErrors(ttl: int): (r: seq<ValidationError>)
    ensures r == [] <==> ttl != 0
  {
    if ttl == 0 then [ValidationError("leaseTTL", "Lease TTL is required")] else []
  }

  function NameServerMessage(n: nat): string {
    "Name server " + Decimal(n) + " must be a valid IPv4 address"
  }

  /** One error per piece that is not IPv4 text, numbered from `n + 1`. */
  function NameServerErrors(pieces: seq<string>, n: nat): (r: seq<ValidationError>)
    ensures r == [] <==> forall k | 0 <= k < |pieces| :: ParseIPv4(pieces[k]).Some?
    ensures |r| <= |pieces| && forall j | 0 <= j < |r| :: r[j].field == "nameServers"
  {
    if |pieces| == 0 then []
    else
      var rest := NameServerErrors(pieces[1..], n + 1);
      if ParseIPv4(pieces[0]).None? then [ValidationError("nameServers", NameServerMessage(n + 1))] + rest
      else rest
  }

  function OptionErrors(o: DhcpOptions): seq<ValidationError> {
    (if o.iface == "" then [ValidationError("interface", "Interface is required")] else [])
    + StartErrors(o)
    + EndErrors(o)
    + TtlErrors(o.leaseTtl)
    + RegexAddressErrors("gateway", o.gateway, "Gateway is required", "Gateway must be a valid IP address",
                         "Gateway must be a valid IPv4 address")
    + RegexAddressErrors("subnetMask", o.subnetMask, "Subnet mask is required",
                         "Subnet mask must be a valid IP address", "Subnet mask must be a valid IPv4 address")
    + NameServerErrors(Split(o.nameServers, ','), 0)
  }

  /** DhcpOptions.Validate */
  function ValidateOptions(o: DhcpOptions): (r: Option<seq<ValidationError>>)
    ensures r.Some? ==> |r.value| > 0
  {
    Finish(OptionErrors(o))
  }

  /** Both address blocks pass exactly when the two addresses are IPv4
      text, differ from each other and from the gateway, and start is
      below end. */
  lemma RangeValid(o: DhcpOptions)
    ensures StartErrors(o) + EndErrors(o) == []
            <==> ParseIPv4(o.startAddr).Some? && ParseIPv4(o.endAddr).Some?
                 && o.startAddr != o.endAddr && o.startAddr != o.gateway && o.endAddr != o.gateway
                 && Addr(ParseIPv4(o.startAddr).value) < Addr(ParseIPv4(o.endAddr).value)
  {
  }

  /** With two good, distinct, non-gateway addresses, an empty range
      (start >= end) is reported once on each field; a proper one not at
      all. */
  lemma RangeOrder(o: DhcpOptions)
    requires ParseIPv4(o.startAddr).Some? && ParseIPv4(o.endAddr).Some?
    requires o.startAddr != o.endAddr && o.startAddr != o.gateway && o.endAddr != o.gateway
    ensures var s, e := Addr(ParseIPv4(o.startAddr).value), Addr(ParseIPv4(o.endAddr).value);
            StartErrors(o) + EndErrors(o) == if s >= e then [StartNotLess, EndNotGreater] else []
  {
  }

  /** A missing or malformed end address next to a good start address is
      reported twice on the endAddr field. */
  lemma BadEndReportedTwice(o: DhcpOptions)
    requires ParseIPv4(o.startAddr).Some? && o.startAddr != o.endAddr && o.startAddr != o.gateway
    requires ParseIPv4(o.endAddr).None?
    ensures StartErrors(o) + EndErrors(o) == [EndInvalid, if o.endAddr == "" then EndRequired else EndInvalid]
  {
  }

  /** The whole form passes exactly when every field is acceptable. */
  lemma OptionsValid(o: DhcpOptions)
    ensures ValidateOptions(o).None?
            <==> && o.iface != ""
                 && StartErrors(o) + EndErrors(o) == []
                 && o.leaseTtl != 0
                 && ParseIPv4(o.gateway).Some? && ParseIPv4(o.subnetMask).Some?
                 && forall k | 0 <= k < |Split(o.nameServers, ',')| :: ParseIPv4(Split(o.nameServers, ',')[k]).Some?
  {
    DottedQuadIffParses(o.gateway);
    DottedQuadIffParses(o.subnetMask);
    var i := if o.iface == "" then [ValidationError("interface", "Interface is required")] else [];
    assert OptionErrors(o) == [] <==> (i == [] && StartErrors(o) == [] && EndErrors(o) == []
      && TtlErrors(o.leaseTtl) == []
      && RegexAddressErrors("gateway", o.gateway, "Gateway is required", "Gateway must be a valid IP address",
                            "Gateway must be a valid IPv4 address") == []
      && RegexAddressErrors("subnetMask", o.subnetMask, "Subnet mask is required",
                            "Subnet mask must be a valid IP address", "Subnet mask must be a valid IPv4 address") == []
      && NameServerErrors(Split(o.nameServers, ','), 0) == []);
  }

  /** An empty NameServers string is one empty piece, which does not parse. */
  lemma EmptyNameServersRejected()
    ensures NameServerErrors(Split("", ','), 0) == [ValidationError("nameServers", NameServerMessage(1))]
  {
    assert Split("", ',') == [""];
    assert Split("", ',')[1..] == [];
    assert ParseIPv4("").None? by {
      assert Split("", '.') == [""];
    }
  }

  /** A piece with a leading space (a list written "a, b") does not parse. */
  lemma SpacedPieceRejected(s: string)
    requires |s| > 0 && s[0] == ' '
    ensures ParseIPv4(s).None?
  {
    var f := Split(s, '.');
    if |f| == 4 {
      assert JoinWith(f, '.') == s;
      SpaceStartsFirstPiece(f, s);
    }
  }

  lemma SpaceStartsFirstPiece(f: seq<string>, s: string)
    requires |f| == 4 && JoinWith(f, '.') == s && |s| > 0 && s[0] == ' '
    ensures OctetValue(f[0]).None?
  {
    if |f[0]| > 0 {
      assert JoinWith(f, '.') == f[0] + ['.'] + JoinWith(f[1..], '.');
      assert f[0][0] == ' ';
      assert !IsDigit(f[0][0]);
    }
  }
}
