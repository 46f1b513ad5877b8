/** Route and its one-line rendering (internal/netlink/types.go), with the
    protocol and scope name tables of internal/netlink/netlink.go. */
module NetlinkRoute {
  import opened Bytes
  import opened Text

  datatype Route = Route(family: byte, dstLen: byte, protocol: byte, scope: byte,
                         dst: string, gateway: string, dev: string, src: string, metric: u32)

  const ScopeUniverse: byte := 0

  const ScopeNames: map<byte, string> := map[0 := "global", 200 := "site", 253 := "link", 254 := "host"]

  const ProtoNames: map<byte, string> := map[0 := "unspec", 2 := "kernel", 3 := "boot", 4 := "static", 16 := "dhcp"]

  /** A table entry, or the decimal number when the table has none (the
      tables hold no empty names, so `== ""` means "absent"). */
  function NameOrNumber(names: map<byte, string>, x: byte): (r: string)
    ensures x in names ==> r == names[x]
    ensures x !in names ==> r == Decimal(x)
  {
    if x in names then names[x] else Decimal(x)
  }

  /** The start of the line: "default", "dst/len", or nothing for a route
      with a prefix length but no destination. */
  function DstSegment(r: Route): string {
    if r.dst == "" && r.dstLen == 0 then "default"
    else if r.dst != "" then r.dst + "/" + Decimal(r.dstLen)
    else ""
  }

  /** The segment of a field that is set: its label (" via ", " dev ",
      ...) followed by its value; nothing for a field that is not. */
  function Segment(present: bool, lead: string, value: string): (s: string)
    ensures present ==> s == lead + value
    ensures !present ==> s == ""
  {
    if present then lead + value else ""
  }

  /** Everything after the destination, one optional segment per field. */
  function Segments(gateway: string, dev: string, protocol: byte, scope: byte, src: string, metric: u32): string {
    Segment(gateway != "", " via ", gateway)
    + (Segment(dev != "", " dev ", dev)
    + (Segment(protocol != 0, " proto ", NameOrNumber(ProtoNames, protocol))
    + (Segment(scope != ScopeUniverse, " scope ", NameOrNumber(ScopeNames, scope))
    + (Segment(src != "", " src ", src)
    + Segment(metric != 0, " metric ", Decimal(metric))))))
  }

  function Tail(r: Route): string {
    Segments(r.gateway, r.dev, r.protocol, r.scope, r.src, r.metric)
  }

  /** Route.String */
  function RouteText(r: Route): (s: string)
    ensures r.dst == "" && r.dstLen == 0 ==> HasPrefix(s, "default")
    ensures r.dst != "" ==> HasPrefix(s, r.dst + "/" + Decimal(r.dstLen))
    ensures r.dst == "" && r.dstLen != 0 ==> s == Tail(r)
  {
    var head := DstSegment(r);
    var s := head + Tail(r);
    assert s[..|head|] == head;
    s
  }

  lemma SuffixOfAppend<T>(a: seq<T>, b: seq<T>, c: seq<T>)
    requires HasSuffix(b, c)
    ensures HasSuffix(a + b, c)
  {
    assert (a + b)[|a + b| - |c|..] == b[|b| - |c|..];
  }

  lemma SuffixOfSelf<T>(a: seq<T>)
    ensures HasSuffix(a, a)
  {
  }

  /** The metric segment, when present, ends the line; without it the src
      segment does. */
  lemma LastSegment(r: Route)
    ensures r.metric != 0 ==> HasSuffix(RouteText(r), " metric " + Decimal(r.metric))
    ensures r.metric == 0 && r.src != "" ==> HasSuffix(RouteText(r), " src " + r.src)
  {
    hide *;
    var m := Segment(r.metric != 0, " metric ", Decimal(r.metric));
    var sr := Segment(r.src != "", " src ", r.src);
    var sc := Segment(r.scope != ScopeUniverse, " scope ", NameOrNumber(ScopeNames, r.scope));
    var pr := Segment(r.protocol != 0, " proto ", NameOrNumber(ProtoNames, r.protocol));
    var dv := Segment(r.dev != "", " dev ", r.dev);
    var gw := Segment(r.gateway != "", " via ", r.gateway);
    RouteTextIs(r);
    TailIs(r);
    var last := if r.metric != 0 then m else sr + m;
    if r.metric != 0 {
      SuffixOfSelf(m);
      SuffixOfAppend(sr, m, last);
    } else {
      assert sr + m == sr;
      SuffixOfSelf(sr + m);
    }
    SuffixNested(DstSegment(r), gw, dv, pr, sc, sr + m, last);
  }

  lemma TailIs(r: Route)
    ensures Tail(r) == Segment(r.gateway != "", " via ", r.gateway)
      + (Segment(r.dev != "", " dev ", r.dev)
      + (Segment(r.protocol != 0, " proto ", NameOrNumber(ProtoNames, r.protocol))
      + (Segment(r.scope != ScopeUniverse, " scope ", NameOrNumber(ScopeNames, r.scope))
      + (Segment(r.src != "", " src ", r.src)
      + Segment(r.metric != 0, " metric ", Decimal(r.metric))))))
  {
  }

  lemma SuffixNested<T>(a: seq<T>, b: seq<T>, c: seq<T>, d: seq<T>, e: seq<T>, x: seq<T>, last: seq<T>)
    requires HasSuffix(x, last)
    ensures HasSuffix(a + (b + (c + (d + (e + x)))), last)
  {
    SuffixOfAppend(e, x, last);
    SuffixOfAppend(d, e + x, last);
    SuffixOfAppend(c, d + (e + x), last);
    SuffixOfAppend(b, c + (d + (e + x)), last);
    SuffixOfAppend(a, b + (c + (d + (e + x))), last);
  }

  /** With every field set, the segments come in the order destination,
      via, dev, proto, scope, src, metric. */
  lemma SegmentOrder(r: Route)
    requires r.dst != "" && r.gateway != "" && r.dev != "" && r.protocol != 0
    requires r.scope != ScopeUniverse && r.src != "" && r.metric != 0
    ensures RouteText(r) == (r.dst + "/" + Decimal(r.dstLen))
                            + ((" via " + r.gateway) + ((" dev " + r.dev)
                            + ((" proto " + NameOrNumber(ProtoNames, r.protocol))
                            + ((" scope " + NameOrNumber(ScopeNames, r.scope))
                            + ((" src " + r.src) + (" metric " + Decimal(r.metric)))))))
  {
  }

  /** Setting a gateway adds exactly its segment, right after the
      destination, and changes nothing else on the line. */
  lemma GatewaySegment(r: Route, gateway: string)
    requires gateway != ""
    ensures RouteText(r.(gateway := gateway)) == DstSegment(r) + ((" via " + gateway) + Tail(r.(gateway := "")))
  {
    hide *;
    RouteTextIs(r.(gateway := gateway));
    TailWithGateway(r, gateway);
    SameDst(r, r.(gateway := gateway));
  }

  /** A route's text is its destination, then its other segments. */
  lemma RouteTextIs(r: Route)
    ensures RouteText(r) == DstSegment(r) + Tail(r)
  {
  }

  lemma SameDst(r: Route, r': Route)
    requires r.dst == r'.dst && r.dstLen == r'.dstLen
    ensures DstSegment(r) == DstSegment(r')
  {
  }

  /** The gateway's segment comes first among the segments. */
  lemma TailWithGateway(r: Route, gateway: string)
    requires gateway != ""
    ensures Tail(r.(gateway := gateway)) == (" via " + gateway) + Tail(r.(gateway := ""))
  {
    var rest := Segment(r.dev != "", " dev ", r.dev)
      + (Segment(r.protocol != 0, " proto ", NameOrNumber(ProtoNames, r.protocol))
      + (Segment(r.scope != ScopeUniverse, " scope ", NameOrNumber(ScopeNames, r.scope))
      + (Segment(r.src != "", " src ", r.src)
      + Segment(r.metric != 0, " metric ", Decimal(r.metric)))));
    hide Segment, NameOrNumber, Decimal;
    assert Tail(r.(gateway := "")) == Segment(false, " via ", "") + rest;
    assert Segment(false, " via ", "") + rest == rest;
  }

  /** A route with a prefix length but no destination and nothing else set
      renders as the empty string. */
  lemma HeadlessRoute(r: Route)
    requires r.dst == "" && r.dstLen != 0 && r.gateway == "" && r.dev == "" && r.protocol == 0
    requires r.scope == ScopeUniverse && r.src == "" && r.metric == 0
    ensures RouteText(r) == ""
  {
  }

  lemma NamesAreNotNumbers(names: map<byte, string>, x: byte, y: byte)
    requires names == ProtoNames || names == ScopeNames
    requires x in names && y !in names
    ensures NameOrNumber(names, x) != NameOrNumber(names, y)
  {
    var a, b := NameOrNumber(names, x), NameOrNumber(names, y);
    assert IsDigit(b[0]);
    assert !IsDigit(a[0]);
  }

  /** Different protocols (or scopes) are named differently. */
  lemma {:induction false} NameOrNumberInjective(names: map<byte, string>, x: byte, y: byte)
    requires names == ProtoNames || names == ScopeNames
    requires NameOrNumber(names, x) == NameOrNumber(names, y)
    ensures x == y
  {
    if x in names && y !in names {
      NamesAreNotNumbers(names, x, y);
    } else if y in names && x !in names {
      NamesAreNotNumbers(names, y, x);
    } else if x !in names && y !in names {
      assert DigitsValue(Decimal(x)) == x && DigitsValue(Decimal(y)) == y;
    }
  }
}
