/** The route-netlink attribute codec and message decoders of
    internal/netlink/netlink.go: buildAttribute, the attribute walk shared
    by parseRouteAttributes and parseInterfaceAttributes, the per-message
    decoding of getInterfaces and getRoutes, and the request built by
    setInterfaceState. nlenc's native byte order is taken to be
    little-endian. */
module NetlinkAttr {
  import opened Wrappers
  import opened Bytes
  import opened NetlinkHeader
  import opened NetlinkRoute

  const RtmNewLink: u16 := 16
  const RtmNewRoute: u16 := 24
  const IffUp: u32 := 1

  const IflaAddress: u16 := 1
  const IflaBroadcast: u16 := 2
  const IflaIfname: u16 := 3
  const IflaMtu: u16 := 4
  const IflaOperstate: u16 := 16

  const RtaDst: u16 := 1
  const RtaOif: u16 := 4
  const RtaGateway: u16 := 5
  const RtaPriority: u16 := 6
  const RtaPrefsrc: u16 := 7

  /** Sizes of the fixed structs in front of the attributes. */
  const IfInfoSize: nat := 16
  const RtMsgSize: nat := 12

  datatype Attr = Attr(attrType: u16, value: Bytes)

  // ---------------------------------------------------------------------
  // buildAttribute
  // ---------------------------------------------------------------------

  /** Rounded up to a multiple of four. */
  function Align4(n: nat): (r: nat)
    ensures r % 4 == 0 && n <= r < n + 4
  {
    (n + 3) / 4 * 4
  }

  /** The largest payload whose attribute length, rounded up, still fits
      the 16-bit length arithmetic of buildAttribute. */
  const MaxAttrData: nat := 0xFFF8

  /** buildAttribute: length and type, the data, zero padding to a
      multiple of four. */
  function BuildAttribute(t: u16, data: Bytes): (r: Bytes)
    requires |data| <= MaxAttrData
    ensures |r| == Align4(4 + |data|)
    ensures ReadLE16(r[0..2]) == 4 + |data| && ReadLE16(r[2..4]) == t
    ensures r[4..4 + |data|] == data
    ensures forall i | 4 + |data| <= i < |r| :: r[i] == 0
  {
    var r := LE16(4 + |data|) + LE16(t) + data + Zeros(Align4(4 + |data|) - 4 - |data|);
    assert r[0..2] == LE16(4 + |data|) && r[2..4] == LE16(t) && r[4..4 + |data|] == data;
    r
  }

  predicate Buildable(attrs: seq<Attr>) {
    forall i | 0 <= i < |attrs| :: |attrs[i].value| <= MaxAttrData
  }

  /** Attributes built one after the other. */
  function Encode(attrs: seq<Attr>): (r: Bytes)
    requires Buildable(attrs)
    ensures |r| % 4 == 0
  {
    if |attrs| == 0 then []
    else BuildAttribute(attrs[0].attrType, attrs[0].value) + Encode(attrs[1..])
  }

  // ---------------------------------------------------------------------
  // The attribute walk
  // ---------------------------------------------------------------------

  /** The attributes the loop visits, in order; or a panic, when the
      rounded-up length of an attribute runs past the data (the last
      attribute is not padded); or a loop that never ends. */
  datatype Walked = Walked(attrs: seq<Attr>) | Panics | Hangs

  /** The loop as written: `aligned` is computed in uint16, so an attribute
      of length 65533 or more gets `aligned == 0` and the loop never moves
      on. */
  function WalkAsWritten(data: Bytes): (r: Walked)
    ensures r.Walked? ==> 4 * |r.attrs| <= |data|
    decreases |data|
  {
    if |data| < 4 then Walked([])
    else
      var length := ReadLE16(data[0..2]);
      if length < 4 || length > |data| then Walked([])
      else
        var aligned := ((length + 3) % 0x1_0000) / 4 * 4;
        if aligned > |data| then Panics
        else if aligned == 0 then Hangs
        else
          match WalkAsWritten(data[aligned..])
          case Walked(rest) => Walked([Attr(ReadLE16(data[2..4]), data[4..length])] + rest)
          case other => other
  }

  /** The loop with `aligned` computed without wrap-around. It stops at an
      attribute whose length is below 4 or past the data, and never hangs. */
  function Walk(data: Bytes): (r: Walked)
    ensures !r.Hangs?
    ensures |data| < 4 ==> r == Walked([])
    decreases |data|
  {
    if |data| < 4 then Walked([])
    else
      var length := ReadLE16(data[0..2]);
      if length < 4 || length > |data| then Walked([])
      else
        var aligned := Align4(length);
        if aligned > |data| then Panics
        else
          match Walk(data[aligned..])
          case Walked(rest) => Walked([Attr(ReadLE16(data[2..4]), data[4..length])] + rest)
          case _ => Panics
  }

  /** Both walks agree on data shorter than 65533 bytes, the only sizes at
      which the uint16 sum cannot wrap. */
  lemma {:induction false} WalkAgreesBelow(data: Bytes)
    requires |data| < 65533
    ensures WalkAsWritten(data) == Walk(data)
    decreases |data|
  {
    if |data| >= 4 {
      var length := ReadLE16(data[0..2]);
      if 4 <= length <= |data| {
        AlignNoWrap(length);
        if Align4(length) <= |data| {
          WalkAgreesBelow(data[Align4(length)..]);
          StepsAgree(data);
        }
      }
    }
  }

  /** Below 65533 the uint16 sum does not wrap. */
  lemma AlignNoWrap(length: nat)
    requires length < 65533
    ensures ((length + 3) % 0x1_0000) / 4 * 4 == Align4(length)
  {
  }

  /** One attribute: the walks agree when they agree on what follows it. */
  lemma StepsAgree(data: Bytes)
    requires |data| >= 4 && 4 <= ReadLE16(data[0..2]) <= |data|
    requires ((ReadLE16(data[0..2]) + 3) % 0x1_0000) / 4 * 4 == Align4(ReadLE16(data[0..2])) <= |data|
    requires WalkAsWritten(data[Align4(ReadLE16(data[0..2]))..]) == Walk(data[Align4(ReadLE16(data[0..2]))..])
    ensures WalkAsWritten(data) == Walk(data)
  {
  }

  /** Any attribute of length 65533 or more that fits the data sends the
      loop as written round forever. */
  lemma AsWrittenHangs(data: Bytes)
    requires |data| >= 4 && 65533 <= ReadLE16(data[0..2]) <= |data|
    ensures WalkAsWritten(data) == Hangs
  {
  }

  /** The witness: one attribute of 65529 zero bytes, padded to 65536. */
  lemma LongAttributeHangs()
    ensures var data := LE16(65533) + LE16(1) + Zeros(65532);
            && WalkAsWritten(data) == Hangs
            && Walk(data) == Walked([Attr(1, Zeros(65529))])
  {
    var data := LE16(65533) + LE16(1) + Zeros(65532);
    assert data[0..2] == LE16(65533) && data[2..4] == LE16(1);
    AsWrittenHangs(data);
    assert data[65536..] == [];
    assert data[4..65533] == Zeros(65529);
  }

  /** An attribute whose length runs to the end of the data but is not a
      multiple of four makes the loop panic. */
  lemma UnpaddedFinalPanics(data: Bytes)
    requires |data| >= 4 && ReadLE16(data[0..2]) == |data| && |data| % 4 != 0
    ensures Walk(data) == Panics
  {
  }

  /** Attributes visited before a walk. */
  function Prepend(attrs: seq<Attr>, w: Walked): (r: Walked)
    ensures w.Walked? ==> r.Walked? && r.attrs == attrs + w.attrs
    ensures !w.Walked? ==> r == w
  {
    match w
    case Walked(a) => Walked(attrs + a)
    case other => other
  }

  lemma WalkBuilt(t: u16, d: Bytes, rest: Bytes)
    requires |d| <= MaxAttrData
    ensures Walk(BuildAttribute(t, d) + rest) == Prepend([Attr(t, d)], Walk(rest))
  {
    var b := BuildAttribute(t, d);
    var data := b + rest;
    assert data[0..2] == b[0..2] && data[2..4] == b[2..4];
    assert data[4..4 + |d|] == d;
    assert data[|b|..] == rest;
  }

  /** Walking built attributes followed by anything visits exactly those
      attributes, then whatever the rest holds. */
  lemma {:induction false} WalkEncoded(attrs: seq<Attr>, rest: Bytes)
    requires Buildable(attrs)
    ensures Walk(Encode(attrs) + rest) == Prepend(attrs, Walk(rest))
  {
    if |attrs| == 0 {
      assert Encode(attrs) + rest == rest;
      assert Prepend(attrs, Walk(rest)) == Walk(rest);
    } else {
      WalkEncoded(attrs[1..], rest);
      WalkEncodedStep(attrs, rest);
    }
  }

  lemma WalkEncodedStep(attrs: seq<Attr>, rest: Bytes)
    requires Buildable(attrs) && |attrs| > 0
    requires Walk(Encode(attrs[1..]) + rest) == Prepend(attrs[1..], Walk(rest))
    ensures Walk(Encode(attrs) + rest) == Prepend(attrs, Walk(rest))
  {
    hide Walk, Prepend, BuildAttribute;
    var tail := Encode(attrs[1..]) + rest;
    var b := BuildAttribute(attrs[0].attrType, attrs[0].value);
    EncodeCons(attrs);
    assert Encode(attrs) + rest == b + tail;
    WalkBuilt(attrs[0].attrType, attrs[0].value, tail);
    assert [attrs[0]] + attrs[1..] == attrs;
    PrependTwice([attrs[0]], attrs[1..], Walk(rest));
  }

  lemma EncodeCons(attrs: seq<Attr>)
    requires Buildable(attrs) && |attrs| > 0
    ensures Encode(attrs) == BuildAttribute(attrs[0].attrType, attrs[0].value) + Encode(attrs[1..])
  {
  }

  lemma PrependTwice(a: seq<Attr>, b: seq<Attr>, w: Walked)
    ensures Prepend(a, Prepend(b, w)) == Prepend(a + b, w)
  {
    if w.Walked? {
      assert a + (b + w.attrs) == (a + b) + w.attrs;
    }
  }

  // ---------------------------------------------------------------------
  // parseRouteAttributes
  // ---------------------------------------------------------------------

  /** How the decoders end without a result, since the Go functions never
      return an error: the panic of `data[aligned:]`, the panic of
      nlenc.Uint32 on a value that is not exactly four bytes long, and the
      walk that stops advancing on an attribute of length 65533 or more. */
  datatype Fault = SliceOutOfRange | WordLength | LoopsForever

  /** The attributes as a map: a later attribute of a type replaces an
      earlier one. */
  function Collect(attrs: seq<Attr>): (r: map<u16, Bytes>)
    ensures forall i | 0 <= i < |attrs| :: attrs[i].attrType in r
    ensures forall k | k in r :: exists i | 0 <= i < |attrs| :: attrs[i].attrType == k
  {
    if |attrs| == 0 then map[]
    else
      var last := attrs[|attrs| - 1];
      var r := Collect(attrs[..|attrs| - 1])[last.attrType := last.value];
      assert forall i | 0 <= i < |attrs| - 1 :: attrs[..|attrs| - 1][i] == attrs[i];
      r
  }

  /** The value kept for a type is that of its last attribute. */
  lemma {:induction false} CollectLastWins(attrs: seq<Attr>, i: nat)
    requires i < |attrs| && forall j | i < j < |attrs| :: attrs[j].attrType != attrs[i].attrType
    ensures Collect(attrs)[attrs[i].attrType] == attrs[i].value
  {
    if i < |attrs| - 1 {
      var front := attrs[..|attrs| - 1];
      assert front[i] == attrs[i];
      CollectLastWins(front, i);
    }
  }

  /** parseRouteAttributes: the walk as written, collected into a map. */
  function ParseRouteAttributes(data: Bytes): (r: Result<map<u16, Bytes>, Fault>)
    ensures r == Err(SliceOutOfRange) <==> WalkAsWritten(data).Panics?
    ensures r == Err(LoopsForever) <==> WalkAsWritten(data).Hangs?
    ensures |data| < 4 ==> r == Ok(map[])
  {
    match WalkAsWritten(data)
    case Walked(attrs) => Ok(Collect(attrs))
    case Panics => Err(SliceOutOfRange)
    case Hangs => Err(LoopsForever)
  }

  /** The walk as written gives the corrected walk's attributes whenever
      every attribute it visits is shorter than 65533 bytes. */
  lemma {:induction false} AsWrittenAgrees(data: Bytes)
    requires Walk(data).Walked?
    requires forall i | 0 <= i < |Walk(data).attrs| :: |Walk(data).attrs[i].value| < 65529
    ensures WalkAsWritten(data) == Walk(data)
    decreases |data|
  {
    if |data| >= 4 {
      var length := ReadLE16(data[0..2]);
      if 4 <= length <= |data| {
        var rest := data[Align4(length)..];
        AgreesStep(data);
        var w := Walk(rest);
        assert Walk(data).attrs[0].value == data[4..length];
        forall i | 0 <= i < |w.attrs| ensures |w.attrs[i].value| < 65529 {
          assert w.attrs[i] == Walk(data).attrs[i + 1];
        }
        AlignNoWrap(length);
        AsWrittenAgrees(rest);
        StepsAgree(data);
      }
    }
  }

  /** One step of the corrected walk: the visited attribute comes first
      and the rest of the walk follows. */
  lemma AgreesStep(data: Bytes)
    requires |data| >= 4 && 4 <= ReadLE16(data[0..2]) <= |data| && Walk(data).Walked?
    ensures var length := ReadLE16(data[0..2]);
            var rest := Walk(data[Align4(length)..]);
            && Align4(length) <= |data| && rest.Walked?
            && Walk(data).attrs == [Attr(ReadLE16(data[2..4]), data[4..length])] + rest.attrs
  {
  }

  /** Wherever the walk as written does not hang, it is the corrected walk. */
  lemma {:induction false} AsWrittenOrHangs(data: Bytes)
    ensures WalkAsWritten(data) == Walk(data) || WalkAsWritten(data) == Hangs
    decreases |data|
  {
    hide WalkAsWritten, Walk;
    if |data| >= 4 && 4 <= ReadLE16(data[0..2]) <= |data| && ReadLE16(data[0..2]) < 65533
       && Align4(ReadLE16(data[0..2])) <= |data| {
      AsWrittenOrHangs(data[Align4(ReadLE16(data[0..2]))..]);
      OrHangsStep(data);
    } else {
      OrHangsEnds(data);
    }
  }

  lemma OrHangsStep(data: Bytes)
    requires |data| >= 4 && 4 <= ReadLE16(data[0..2]) < 65533 && ReadLE16(data[0..2]) <= |data|
    requires Align4(ReadLE16(data[0..2])) <= |data|
    requires var rest := data[Align4(ReadLE16(data[0..2]))..];
             WalkAsWritten(rest) == Walk(rest) || WalkAsWritten(rest) == Hangs
    ensures WalkAsWritten(data) == Walk(data) || WalkAsWritten(data) == Hangs
  {
    AlignNoWrap(ReadLE16(data[0..2]));
  }

  lemma OrHangsEnds(data: Bytes)
    requires !(|data| >= 4 && 4 <= ReadLE16(data[0..2]) <= |data| && ReadLE16(data[0..2]) < 65533
               && Align4(ReadLE16(data[0..2])) <= |data|)
    ensures WalkAsWritten(data) == Walk(data) || WalkAsWritten(data) == Hangs
  {
    hide WalkAsWritten, Walk;
    if !(|data| >= 4 && 4 <= ReadLE16(data[0..2]) <= |data|) {
      BothStop(data);
    } else if ReadLE16(data[0..2]) >= 65533 {
      AsWrittenHangs(data);
    } else {
      BothPanic(data);
    }
  }

  /** Too little data for an attribute: both walks visit nothing. */
  lemma BothStop(data: Bytes)
    requires !(|data| >= 4 && 4 <= ReadLE16(data[0..2]) <= |data|)
    ensures WalkAsWritten(data) == Walked([]) && Walk(data) == Walked([])
  {
  }

  /** An attribute padded past the end of the data: both walks panic. */
  lemma BothPanic(data: Bytes)
    requires |data| >= 4 && 4 <= ReadLE16(data[0..2]) < 65533 && ReadLE16(data[0..2]) <= |data|
    requires Align4(ReadLE16(data[0..2])) > |data|
    ensures WalkAsWritten(data) == Panics && Walk(data) == Panics
  {
    AlignNoWrap(ReadLE16(data[0..2]));
  }

  /** One built attribute parses back to itself. */
  lemma ParseBuilt(t: u16, d: Bytes)
    requires |d| <= MaxAttrData
    ensures ParseRouteAttributes(BuildAttribute(t, d)) == Ok(map[t := d])
  {
    WalkBuilt(t, d, []);
    assert BuildAttribute(t, d) + [] == BuildAttribute(t, d);
    assert [Attr(t, d)] + [] == [Attr(t, d)];
    AsWrittenAgrees(BuildAttribute(t, d));
  }

  /** Built attributes followed by data the loop stops at (too short, or a
      length below 4 or past the end) parse to their map, later duplicates
      winning. */
  lemma ParseEncoded(attrs: seq<Attr>, junk: Bytes)
    requires Buildable(attrs)
    requires |junk| < 4 || ReadLE16(junk[0..2]) < 4 || ReadLE16(junk[0..2]) > |junk|
    ensures ParseRouteAttributes(Encode(attrs) + junk) == Ok(Collect(attrs))
  {
    WalkEncoded(attrs, junk);
    assert Walk(junk) == Walked([]);
    assert Walk(Encode(attrs) + junk) == Walked(attrs + []);
    assert attrs + [] == attrs;
    AsWrittenAgrees(Encode(attrs) + junk);
  }

  // ---------------------------------------------------------------------
  // parseInterfaceAttributes and operstateToString
  // ---------------------------------------------------------------------

  const OperstateNames: seq<string> := ["unknown", "notpresent", "down", "lowerlayerdown", "testing", "dormant", "up"]

  /** operstateToString */
  function OperstateName(s: byte): (r: string)
    ensures r in OperstateNames
    ensures r == "up" <==> s == 6
    ensures r == "unknown" <==> s == 0 || s > 6
  {
    if s < |OperstateNames| then OperstateNames[s] else "unknown"
  }

  /** The seven known states have seven different names. */
  lemma OperstateNameInjective(a: byte, b: byte)
    requires a < 7 && b < 7 && OperstateName(a) == OperstateName(b)
    ensures a == b
  {
  }

  datatype InterfaceInfo = InterfaceInfo(index: u32, name: Bytes, flags: u32, linkType: u16, mtu: u32,
                                         address: Bytes, broadcast: Bytes, state: string, operstate: string)

  /** The name without one trailing NUL. */
  function TrimNul(v: Bytes): (r: Bytes)
    ensures |v| > 0 && v[|v| - 1] == 0 ==> r + [0] == v
    ensures !(|v| > 0 && v[|v| - 1] == 0) ==> r == v
  {
    if |v| > 0 && v[|v| - 1] == 0 then v[..|v| - 1] else v
  }

  /** The fields an attribute never touches are those of `info`. */
  predicate SameFixed(r: InterfaceInfo, info: InterfaceInfo) {
    r.index == info.index && r.flags == info.flags && r.linkType == info.linkType && r.state == info.state
  }

  /** The attribute types parseInterfaceAttributes acts on. */
  const LinkAttrTypes: set<u16> := {IflaAddress, IflaBroadcast, IflaIfname, IflaMtu, IflaOperstate}

  /** An IFLA_MTU value longer than four bytes, on which nlenc.Uint32
      panics. */
  predicate LongMtu(a: Attr) {
    a.attrType == IflaMtu && |a.value| > 4
  }

  /** One attribute applied to the interface. */
  function ApplyLinkAttr(info: InterfaceInfo, a: Attr): (r: Result<InterfaceInfo, Fault>)
    ensures r.Err? <==> LongMtu(a)
    ensures r.Err? ==> r == Err(WordLength)
    ensures r.Ok? ==> SameFixed(r.value, info)
    ensures a.attrType !in LinkAttrTypes ==> r == Ok(info)
  {
    var v := a.value;
    if a.attrType == IflaIfname then Ok(info.(name := TrimNul(v)))
    else if a.attrType == IflaMtu then
      (if |v| < 4 then Ok(info) else if |v| == 4 then Ok(info.(mtu := ReadLE32(v))) else Err(WordLength))
    else if a.attrType == IflaAddress then Ok(info.(address := v))
    else if a.attrType == IflaBroadcast then Ok(info.(broadcast := v))
    else if a.attrType == IflaOperstate then Ok(if |v| >= 1 then info.(operstate := OperstateName(v[0])) else info)
    else Ok(info)
  }

  /** The attributes applied in turn, stopping at the first panic. */
  function ApplyLinkAttrs(info: InterfaceInfo, attrs: seq<Attr>): (r: Result<InterfaceInfo, Fault>)
    ensures r.Ok? ==> SameFixed(r.value, info)
    ensures (forall i | 0 <= i < |attrs| :: attrs[i].attrType !in LinkAttrTypes) ==> r == Ok(info)
    ensures r.Err? <==> exists i | 0 <= i < |attrs| :: LongMtu(attrs[i])
    ensures r.Err? ==> r == Err(WordLength)
    decreases |attrs|
  {
    if |attrs| == 0 then Ok(info)
    else
      assert forall i | 1 <= i < |attrs| :: attrs[1..][i - 1] == attrs[i];
      match ApplyLinkAttr(info, attrs[0])
      case Err(e) => Err(e)
      case Ok(next) => ApplyLinkAttrs(next, attrs[1..])
  }

  /** parseInterfaceAttributes: the loop as written, applying each
      attribute as it is visited, so that a panic on an IFLA_MTU value
      comes before anything later in the data. */
  function ParseInterfaceAttributes(data: Bytes, info: InterfaceInfo): (r: Result<InterfaceInfo, Fault>)
    ensures r.Ok? ==> SameFixed(r.value, info)
    ensures |data| < 4 ==> r == Ok(info)
    decreases |data|
  {
    if |data| < 4 then Ok(info)
    else
      var length := ReadLE16(data[0..2]);
      if length < 4 || length > |data| then Ok(info)
      else
        match ApplyLinkAttr(info, Attr(ReadLE16(data[2..4]), data[4..length]))
        case Err(e) => Err(e)
        case Ok(next) =>
          var aligned := ((length + 3) % 0x1_0000) / 4 * 4;
          if aligned > |data| then Err(SliceOutOfRange)
          else if aligned == 0 then Err(LoopsForever)
          else ParseInterfaceAttributes(data[aligned..], next)
  }

  /** The loop is the walk followed by the attributes applied in turn: it
      fails wherever the walk does, and otherwise applies the attributes
      the walk visits. */
  lemma {:induction false} InterfaceAttrsWalk(data: Bytes, info: InterfaceInfo)
    ensures WalkAsWritten(data).Walked? ==> ParseInterfaceAttributes(data, info) == ApplyLinkAttrs(info, WalkAsWritten(data).attrs)
    ensures !WalkAsWritten(data).Walked? ==> ParseInterfaceAttributes(data, info).Err?
    decreases |data|
  {
    hide ParseInterfaceAttributes, WalkAsWritten, ApplyLinkAttrs, ApplyLinkAttr;
    if Continues(data, info) {
      var length := ReadLE16(data[0..2]);
      var a := Attr(ReadLE16(data[2..4]), data[4..length]);
      var aligned := ((length + 3) % 0x1_0000) / 4 * 4;
      InterfaceAttrsWalk(data[aligned..], ApplyLinkAttr(info, a).value);
      InterfaceStep(data, info);
    } else {
      InterfaceEnds(data, info);
    }
  }

  /** The loop goes on past the first attribute: it is applied without a
      panic and the step moves forward within the data. */
  predicate Continues(data: Bytes, info: InterfaceInfo) {
    && |data| >= 4 && 4 <= ReadLE16(data[0..2]) <= |data|
    && var length := ReadLE16(data[0..2]);
       var aligned := ((length + 3) % 0x1_0000) / 4 * 4;
       0 < aligned <= |data| && ApplyLinkAttr(info, Attr(ReadLE16(data[2..4]), data[4..length])).Ok?
  }

  /** Where the loop stops at the first attribute, the walk agrees. */
  lemma InterfaceEnds(data: Bytes, info: InterfaceInfo)
    requires !Continues(data, info)
    ensures WalkAsWritten(data).Walked? ==> ParseInterfaceAttributes(data, info) == ApplyLinkAttrs(info, WalkAsWritten(data).attrs)
    ensures !WalkAsWritten(data).Walked? ==> ParseInterfaceAttributes(data, info).Err?
  {
    hide ParseInterfaceAttributes, WalkAsWritten, ApplyLinkAttrs, ApplyLinkAttr;
    if !(|data| >= 4 && 4 <= ReadLE16(data[0..2]) <= |data|) {
      EndsShort(data, info);
    } else {
      var length := ReadLE16(data[0..2]);
      var a := Attr(ReadLE16(data[2..4]), data[4..length]);
      if ApplyLinkAttr(info, a).Err? {
        EndsOnPanic(data, info);
      } else {
        EndsOnStep(data, info);
      }
    }
  }

  /** Too little data for an attribute: nothing is visited or applied. */
  lemma EndsShort(data: Bytes, info: InterfaceInfo)
    requires !(|data| >= 4 && 4 <= ReadLE16(data[0..2]) <= |data|)
    ensures ParseInterfaceAttributes(data, info) == Ok(info)
    ensures WalkAsWritten(data) == Walked([]) && ApplyLinkAttrs(info, []) == Ok(info)
  {
  }

  /** The first attribute panics, in the loop and in the list alike. */
  lemma EndsOnPanic(data: Bytes, info: InterfaceInfo)
    requires |data| >= 4 && 4 <= ReadLE16(data[0..2]) <= |data|
    requires ApplyLinkAttr(info, Attr(ReadLE16(data[2..4]), data[4..ReadLE16(data[0..2])])).Err?
    ensures ParseInterfaceAttributes(data, info) == Err(WordLength)
    ensures WalkAsWritten(data).Walked? ==> ApplyLinkAttrs(info, WalkAsWritten(data).attrs) == Err(WordLength)
  {
    var length := ReadLE16(data[0..2]);
    var a := Attr(ReadLE16(data[2..4]), data[4..length]);
    var w := WalkAsWritten(data);
    if w.Walked? {
      assert w.attrs[0] == a && LongMtu(w.attrs[0]);
    }
  }

  /** The first attribute applies but the step panics or does not move. */
  lemma EndsOnStep(data: Bytes, info: InterfaceInfo)
    requires |data| >= 4 && 4 <= ReadLE16(data[0..2]) <= |data|
    requires ApplyLinkAttr(info, Attr(ReadLE16(data[2..4]), data[4..ReadLE16(data[0..2])])).Ok?
    requires !Continues(data, info)
    ensures ParseInterfaceAttributes(data, info).Err? && !WalkAsWritten(data).Walked?
  {
  }

  /** One visited attribute: the walk as written lists it first, and
      applying the list applies it first. */
  lemma InterfaceStep(data: Bytes, info: InterfaceInfo)
    requires Continues(data, info)
    ensures var length := ReadLE16(data[0..2]);
            var a := Attr(ReadLE16(data[2..4]), data[4..length]);
            var aligned := ((length + 3) % 0x1_0000) / 4 * 4;
            var w := WalkAsWritten(data[aligned..]);
            && ParseInterfaceAttributes(data, info) == ParseInterfaceAttributes(data[aligned..], ApplyLinkAttr(info, a).value)
            && (w.Walked? ==>
                  && WalkAsWritten(data) == Walked([a] + w.attrs)
                  && ApplyLinkAttrs(info, [a] + w.attrs) == ApplyLinkAttrs(ApplyLinkAttr(info, a).value, w.attrs))
            && (!w.Walked? ==> !WalkAsWritten(data).Walked?)
  {
    var length := ReadLE16(data[0..2]);
    var a := Attr(ReadLE16(data[2..4]), data[4..length]);
    var aligned := ((length + 3) % 0x1_0000) / 4 * 4;
    var w := WalkAsWritten(data[aligned..]);
    if w.Walked? {
      assert ([a] + w.attrs)[0] == a && ([a] + w.attrs)[1..] == w.attrs;
    }
  }

  lemma ParseOneLinkAttr(info: InterfaceInfo, t: u16, d: Bytes)
    requires |d| <= MaxAttrData
    ensures ParseInterfaceAttributes(BuildAttribute(t, d), info) == ApplyLinkAttr(info, Attr(t, d))
  {
    WalkBuilt(t, d, []);
    assert BuildAttribute(t, d) + [] == BuildAttribute(t, d);
    assert [Attr(t, d)] + [] == [Attr(t, d)];
    AsWrittenAgrees(BuildAttribute(t, d));
    InterfaceAttrsWalk(BuildAttribute(t, d), info);
    assert [Attr(t, d)][1..] == [];
  }

  /** A NUL-terminated IFLA_IFNAME sets the name without its NUL. */
  lemma IfnameRoundTrip(info: InterfaceInfo, name: Bytes)
    requires |name| < MaxAttrData
    ensures ParseInterfaceAttributes(BuildAttribute(IflaIfname, name + [0]), info) == Ok(info.(name := name))
  {
    ParseOneLinkAttr(info, IflaIfname, name + [0]);
    assert (name + [0])[..|name|] == name;
  }

  /** A four-byte IFLA_MTU sets the MTU; a shorter one is ignored; a
      longer one panics. */
  lemma MtuRoundTrip(info: InterfaceInfo, mtu: u32, short: Bytes, long: Bytes)
    requires |short| < 4 && 4 < |long| <= MaxAttrData
    ensures ParseInterfaceAttributes(BuildAttribute(IflaMtu, LE32(mtu)), info) == Ok(info.(mtu := mtu))
    ensures ParseInterfaceAttributes(BuildAttribute(IflaMtu, short), info) == Ok(info)
    ensures ParseInterfaceAttributes(BuildAttribute(IflaMtu, long), info) == Err(WordLength)
  {
    ParseOneLinkAttr(info, IflaMtu, LE32(mtu));
    ParseOneLinkAttr(info, IflaMtu, short);
    ParseOneLinkAttr(info, IflaMtu, long);
  }

  /** IFLA_OPERSTATE sets the name of its first byte. */
  lemma OperstateRoundTrip(info: InterfaceInfo, s: byte)
    ensures ParseInterfaceAttributes(BuildAttribute(IflaOperstate, [s]), info) == Ok(info.(operstate := OperstateName(s)))
  {
    ParseOneLinkAttr(info, IflaOperstate, [s]);
  }

  // ---------------------------------------------------------------------
  // getInterfaces
  // ---------------------------------------------------------------------

  /** The flags word has IFF_UP set. */
  predicate IsUp(flags: u32) {
    flags % 2 == 1
  }

  /** One message of the RTM_GETLINK dump: None when it is skipped. */
  function DecodeLink(m: Message): (r: Result<Option<InterfaceInfo>, Fault>)
    ensures m.header.msgType != RtmNewLink || |m.data| < IfInfoSize ==> r == Ok(None)
    ensures r.Ok? && r.value.Some? ==>
              var info := r.value.value;
              && info.linkType == ReadLE16(m.data[0..2])
              && info.index == ReadLE32(m.data[4..8])
              && info.flags == ReadLE32(m.data[8..12])
              && info.state in {"up", "down"}
              && (info.state == "up" <==> IsUp(info.flags))
  {
    if m.header.msgType != RtmNewLink || |m.data| < IfInfoSize then Ok(None)
    else
      var flags := ReadLE32(m.data[8..12]);
      var info := InterfaceInfo(ReadLE32(m.data[4..8]), [], flags, ReadLE16(m.data[0..2]), 0, [], [],
                                if IsUp(flags) then "up" else "down", "");
      match ParseInterfaceAttributes(m.data[IfInfoSize..], info)
      case Ok(v) => Ok(Some(v))
      case Err(e) => Err(e)
  }

  /** The number of messages getInterfaces keeps. */
  function LinkCount(msgs: seq<Message>): nat {
    if |msgs| == 0 then 0
    else (if msgs[0].header.msgType == RtmNewLink && |msgs[0].data| >= IfInfoSize then 1 else 0) + LinkCount(msgs[1..])
  }

  /** getInterfaces after the dump: one interface per RTM_NEWLINK message of
      at least 16 bytes, in message order. */
  function GetInterfaces(msgs: seq<Message>): (r: Result<seq<InterfaceInfo>, Fault>)
    ensures r.Ok? ==> |r.value| == LinkCount(msgs)
    ensures r.Err? <==> exists i | 0 <= i < |msgs| :: DecodeLink(msgs[i]).Err?
  {
    if |msgs| == 0 then Ok([])
    else
      match DecodeLink(msgs[0])
      case Err(e) => Err(e)
      case Ok(one) =>
        match GetInterfaces(msgs[1..])
        case Err(e) => Err(e)
        case Ok(rest) => Ok((if one.Some? then [one.value] else []) + rest)
  }

  // ---------------------------------------------------------------------
  // setInterfaceState
  // ---------------------------------------------------------------------

  /** The 16-byte ifinfomsg of setInterfaceState: family 0, the index, the
      flags (IFF_UP or nothing) and the change mask IFF_UP. */
  function SetStateMessage(index: u32, up: bool): (r: Bytes)
    ensures |r| == IfInfoSize
  {
    [0, 0, 0, 0] + LE32(index) + LE32(if up then IffUp else 0) + LE32(IffUp)
  }

  /** Read back as a link message, the request names the interface and the
      state it asks for, with no attributes. */
  lemma SetStateDecodes(h: Header, index: u32, up: bool)
    requires h.msgType == RtmNewLink
    ensures var r := DecodeLink(Message(h, SetStateMessage(index, up)));
            && r.Ok? && r.value.Some?
            && r.value.value.index == index
            && r.value.value.flags == (if up then IffUp else 0)
            && (r.value.value.state == "up" <==> up)
            && ReadLE32(SetStateMessage(index, up)[12..16]) == IffUp
  {
    var b := SetStateMessage(index, up);
    assert b[4..8] == LE32(index) && b[8..12] == LE32(if up then IffUp else 0) && b[12..16] == LE32(IffUp);
    assert b[IfInfoSize..] == [];
  }

  // ---------------------------------------------------------------------
  // getRoutes
  // ---------------------------------------------------------------------

  /** The device of a route: the interface's name, else "if<n>". */
  function DevName(ifaces: map<u32, string>, oif: u32): (r: string)
    ensures oif in ifaces ==> r == ifaces[oif]
    ensures oif !in ifaces ==> r == "if" + Decimal(oif)
  {
    if oif in ifaces then ifaces[oif] else "if" + Decimal(oif)
  }

  /** `if v, ok := attrs[t]; ok && len(v) >= 4 { nlenc.Uint32(v) }`:
      nothing when the attribute is missing or short, the word when it is
      exactly four bytes, and nlenc's panic when it is longer. */
  function Word32(attrs: map<u16, Bytes>, t: u16): Result<Option<u32>, Fault> {
    if t !in attrs || |attrs[t]| < 4 then Ok(None)
    else if |attrs[t]| == 4 then Ok(Some(ReadLE32(attrs[t])))
    else Err(WordLength)
  }

  /** The route of one attribute map; `ipText` is net.IP's String. */
  function RouteOf(head: Bytes, attrs: map<u16, Bytes>, ifaces: map<u32, string>, ipText: Bytes -> string): (r: Result<Route, Fault>)
    requires |head| >= RtMsgSize
    ensures r.Err? <==> (RtaOif in attrs && |attrs[RtaOif]| > 4) || (RtaPriority in attrs && |attrs[RtaPriority]| > 4)
    ensures r.Ok? ==> r.value.family == head[0] && r.value.dstLen == head[1] && r.value.protocol == head[4] && r.value.scope == head[5]
    ensures r.Ok? ==> r.value.dev == (if RtaOif in attrs && |attrs[RtaOif]| == 4 then DevName(ifaces, ReadLE32(attrs[RtaOif])) else "")
    ensures r.Ok? ==> r.value.metric == (if RtaPriority in attrs && |attrs[RtaPriority]| == 4 then ReadLE32(attrs[RtaPriority]) else 0)
  {
    var oif :- Word32(attrs, RtaOif);
    var metric :- Word32(attrs, RtaPriority);
    Ok(Route(head[0], head[1], head[4], head[5],
             if RtaDst in attrs then ipText(attrs[RtaDst]) else "",
             if RtaGateway in attrs then ipText(attrs[RtaGateway]) else "",
             match oif case Some(i) => DevName(ifaces, i) case None => "",
             if RtaPrefsrc in attrs then ipText(attrs[RtaPrefsrc]) else "",
             match metric case Some(m) => m case None => 0))
  }

  /** One message of the RTM_GETROUTE dump: None when it is skipped. */
  function DecodeRoute(m: Message, ifaces: map<u32, string>, ipText: Bytes -> string): (r: Result<Option<Route>, Fault>)
    ensures m.header.msgType != RtmNewRoute || |m.data| < RtMsgSize ==> r == Ok(None)
  {
    if m.header.msgType != RtmNewRoute || |m.data| < RtMsgSize then Ok(None)
    else
      match ParseRouteAttributes(m.data[RtMsgSize..])
      case Ok(attrs) =>
        (match RouteOf(m.data, attrs, ifaces, ipText)
         case Ok(route) => Ok(Some(route))
         case Err(e) => Err(e))
      case Err(e) => Err(e)
  }

  function RouteCount(msgs: seq<Message>): nat {
    if |msgs| == 0 then 0
    else (if msgs[0].header.msgType == RtmNewRoute && |msgs[0].data| >= RtMsgSize then 1 else 0) + RouteCount(msgs[1..])
  }

  /** getRoutes after the dump: one route per RTM_NEWROUTE message of at
      least 12 bytes, in message order. */
  function GetRoutes(msgs: seq<Message>, ifaces: map<u32, string>, ipText: Bytes -> string): (r: Result<seq<Route>, Fault>)
    ensures r.Ok? ==> |r.value| == RouteCount(msgs)
    ensures r.Err? <==> exists i | 0 <= i < |msgs| :: DecodeRoute(msgs[i], ifaces, ipText).Err?
  {
    if |msgs| == 0 then Ok([])
    else
      match DecodeRoute(msgs[0], ifaces, ipText)
      case Err(e) => Err(e)
      case Ok(one) =>
        match GetRoutes(msgs[1..], ifaces, ipText)
        case Err(e) => Err(e)
        case Ok(rest) => Ok((if one.Some? then [one.value] else []) + rest)
  }

  /** A route message carrying only an output interface and a priority
      decodes to that device and metric, with nothing else set. */
  lemma RouteRoundTrip(h: Header, head: Bytes, oif: u32, metric: u32, ifaces: map<u32, string>, ipText: Bytes -> string)
    requires h.msgType == RtmNewRoute && |head| == RtMsgSize
    ensures var attrs := [Attr(RtaOif, LE32(oif)), Attr(RtaPriority, LE32(metric))];
            DecodeRoute(Message(h, head + Encode(attrs)), ifaces, ipText)
            == Ok(Some(Route(head[0], head[1], head[4], head[5], "", "", DevName(ifaces, oif), "", metric)))
  {
    hide Encode, Collect, DecodeRoute, ParseRouteAttributes, RouteOf, Walk, WalkAsWritten, LE32, DevName, Buildable;
    var attrs := [Attr(RtaOif, LE32(oif)), Attr(RtaPriority, LE32(metric))];
    TwoAttrs(oif, metric);
    var data := head + Encode(attrs);
    assert data[RtMsgSize..] == Encode(attrs) + [];
    assert data[0] == head[0] && data[1] == head[1] && data[4] == head[4] && data[5] == head[5];
    ParseEncoded(attrs, []);
    RouteOfTwo(data, Collect(attrs), oif, metric, ifaces, ipText);
    DecodeRouteOk(Message(h, data), ifaces, ipText, Collect(attrs));
  }

  /** The two attributes of the round trip: buildable, and collected as
      themselves. */
  lemma TwoAttrs(oif: u32, metric: u32)
    ensures var attrs := [Attr(RtaOif, LE32(oif)), Attr(RtaPriority, LE32(metric))];
            var m := Collect(attrs);
            && Buildable(attrs)
            && m.Keys == {RtaOif, RtaPriority} && m[RtaOif] == LE32(oif) && m[RtaPriority] == LE32(metric)
  {
    var attrs := [Attr(RtaOif, LE32(oif)), Attr(RtaPriority, LE32(metric))];
    CollectLastWins(attrs, 0);
    CollectLastWins(attrs, 1);
  }

  /** A route message whose attributes parse decodes to their route. */
  lemma DecodeRouteOk(m: Message, ifaces: map<u32, string>, ipText: Bytes -> string, attrs: map<u16, Bytes>)
    requires m.header.msgType == RtmNewRoute && |m.data| >= RtMsgSize
    requires ParseRouteAttributes(m.data[RtMsgSize..]) == Ok(attrs)
    requires RouteOf(m.data, attrs, ifaces, ipText).Ok?
    ensures DecodeRoute(m, ifaces, ipText) == Ok(Some(RouteOf(m.data, attrs, ifaces, ipText).value))
  {
  }

  /** The route of just an output interface and a priority. */
  lemma RouteOfTwo(head: Bytes, attrs: map<u16, Bytes>, oif: u32, metric: u32, ifaces: map<u32, string>, ipText: Bytes -> string)
    requires |head| >= RtMsgSize
    requires attrs.Keys == {RtaOif, RtaPriority} && attrs[RtaOif] == LE32(oif) && attrs[RtaPriority] == LE32(metric)
    ensures RouteOf(head, attrs, ifaces, ipText)
            == Ok(Route(head[0], head[1], head[4], head[5], "", "", DevName(ifaces, oif), "", metric))
  {
  }
}
