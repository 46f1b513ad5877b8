/** The BOOTP/DHCP message of dhcp/packet.go: a byte slice with the fixed
    fields of section 2 of RFC 2131 at fixed offsets, and the options area
    from offset 240 read and written as tag, length, value (sections 2 and
    3 of RFC 2132). Setters return the updated message; getters that slice
    need the message to be long enough, as the Go slicing does. */
module DhcpPacket {
  import opened Bytes

  type Message = Bytes

  const OpRequest: byte := 1
  const OpResponse: byte := 2

  const OptionPad: byte := 0
  const OptionSubnetMask: byte := 1
  const OptionTimeOffset: byte := 2
  const OptionRouter: byte := 3
  const OptionDomainNameServer: byte := 6
  const OptionRequestedIPAddress: byte := 50
  const OptionIPLeaseTime: byte := 51
  const OptionDHCPMessageType: byte := 53
  const OptionServerIdentifier: byte := 54
  const OptionEndField: byte := 255

  const Discover: byte := 1
  const Offer: byte := 2
  const Request: byte := 3
  const Decline: byte := 4
  const Ack: byte := 5
  const Nak: byte := 6
  const Release: byte := 7

  const Cookie: Bytes := [99, 130, 83, 99]
  const MessageSize: nat := 300
  const OptionsStart: nat := 240
  const PaddedSize: nat := 272

  /** `Options`: option tag to value. */
  type Options = map<byte, Bytes>

  const Second: int := 1_000_000_000

  // ---------------------------------------------------------------------
  // Writing into a slice
  // ---------------------------------------------------------------------

  function Min(a: int, b: int): int {
    if a < b then a else b
  }

  /** `copy(m[lo:hi], src)`: the first min(hi - lo, len(src)) bytes of `src`
      land at `lo`, and nothing else changes. */
  function CopyAt(m: Bytes, lo: nat, hi: nat, src: Bytes): (r: Bytes)
    requires lo <= hi <= |m|
    ensures |r| == |m|
    ensures r[lo..lo + Min(hi - lo, |src|)] == src[..Min(hi - lo, |src|)]
    ensures forall i | 0 <= i < |m| && !(lo <= i < lo + Min(hi - lo, |src|)) :: r[i] == m[i]
  {
    var k := Min(hi - lo, |src|);
    m[..lo] + src[..k] + m[lo + k..]
  }

  // ---------------------------------------------------------------------
  // Fixed fields
  // ---------------------------------------------------------------------

  function OpCode(m: Message): byte requires |m| >= 1 { m[0] }
  function SetOpCode(m: Message, op: byte): Message requires |m| >= 1 { m[0 := op] }
  function HType(m: Message): byte requires |m| >= 2 { m[1] }
  function SetHType(m: Message, h: byte): Message requires |m| >= 2 { m[1 := h] }
  function Hops(m: Message): byte requires |m| >= 4 { m[3] }

  /** HLen: the stored length, read as at most 16. */
  function HLen(m: Message): (r: byte)
    requires |m| >= 3
    ensures r <= 16 && (m[2] <= 16 ==> r == m[2])
  {
    if m[2] > 16 then 16 else m[2]
  }

  /** SetHLen: a size over 16 is stored as 16; `byte(size)` keeps the low
      eight bits of a negative one. */
  function SetHLen(m: Message, size: int): (r: Message)
    requires |m| >= 3
    ensures |r| == |m| && forall i | 0 <= i < |m| && i != 2 :: r[i] == m[i]
    ensures 0 <= size ==> HLen(r) == Min(size, 16)
  {
    var s := if size > 16 then 16 else size;
    m[2 := s % 0x100]
  }

  function XId(m: Message): Bytes requires |m| >= 8 { m[4..8] }
  function SetXId(m: Message, b: Bytes): Message requires |m| >= 8 { CopyAt(m, 4, 8, b) }
  function Secs(m: Message): Bytes requires |m| >= 10 { m[8..10] }
  function Flags(m: Message): Bytes requires |m| >= 12 { m[10..12] }

  /** SetFlags as written: it copies into bytes 8 and 9, the secs field. */
  function SetFlags(m: Message, b: Bytes): Message requires |m| >= 10 { CopyAt(m, 8, 10, b) }

  /** SetFlags as evidently intended: into bytes 10 and 11, where Flags reads. */
  function SetFlagsCorrected(m: Message, b: Bytes): Message requires |m| >= 12 { CopyAt(m, 10, 12, b) }

  function CIAddr(m: Message): Bytes requires |m| >= 16 { m[12..16] }
  function YIAddr(m: Message): Bytes requires |m| >= 20 { m[16..20] }
  function SetYIAddr(m: Message, a: Bytes): Message requires |m| >= 20 { CopyAt(m, 16, 20, a) }
  function SIAddr(m: Message): Bytes requires |m| >= 24 { m[20..24] }
  function GIAddr(m: Message): Bytes requires |m| >= 28 { m[24..28] }
  function SetGIAddr(m: Message, a: Bytes): Message requires |m| >= 28 { CopyAt(m, 24, 28, a) }

  /** CHAddr: HLen bytes from offset 28. */
  function CHAddr(m: Message): (r: Bytes)
    requires |m| >= 44
    ensures |r| == HLen(m) <= 16
  {
    m[28..28 + HLen(m)]
  }

  /** SetCHAddr: the whole address is copied, past the 16-byte field if it
      is longer, and its length is stored through SetHLen. */
  function SetCHAddr(m: Message, a: Bytes): Message
    requires 28 + |a| <= |m|
  {
    SetHLen(CopyAt(m, 28, 28 + |a|, a), |a|)
  }

  function Sname(m: Message): Bytes requires |m| >= 108 { m[44..108] }
  function File(m: Message): Bytes requires |m| >= 236 { m[108..236] }
  function GetCookie(m: Message): Bytes requires |m| >= 240 { m[236..240] }
  function SetCookie(m: Message, c: Bytes): Message requires |m| >= 240 { CopyAt(m, 236, 240, c) }
  function GetOptions(m: Message): Bytes requires |m| >= 240 { m[240..] }

  /** Every setter of a four-byte field writes where its getter reads, and
      changes nothing outside the field. */
  lemma SettersRoundTrip(m: Message, b: Bytes)
    requires |m| >= 240 && |b| == 4
    ensures XId(SetXId(m, b)) == b
    ensures YIAddr(SetYIAddr(m, b)) == b
    ensures GIAddr(SetGIAddr(m, b)) == b
    ensures GetCookie(SetCookie(m, b)) == b
    ensures forall i | 0 <= i < |m| && !(4 <= i < 8) :: SetXId(m, b)[i] == m[i]
    ensures forall i | 0 <= i < |m| && !(16 <= i < 20) :: SetYIAddr(m, b)[i] == m[i]
    ensures forall i | 0 <= i < |m| && !(24 <= i < 28) :: SetGIAddr(m, b)[i] == m[i]
    ensures forall i | 0 <= i < |m| && !(236 <= i < 240) :: SetCookie(m, b)[i] == m[i]
  {
  }

  /** A hardware address of at most 16 bytes comes back from CHAddr. */
  lemma CHAddrRoundTrip(m: Message, a: Bytes)
    requires |m| >= 44 && |a| <= 16
    ensures HLen(SetCHAddr(m, a)) == |a| && CHAddr(SetCHAddr(m, a)) == a
  {
    var c := CopyAt(m, 28, 28 + |a|, a);
    assert c[28..28 + |a|] == a;
  }

  /** Flags and SetFlags do not round trip: flags written are read back as
      the old flags, and land in secs. */
  lemma SetFlagsAsWritten(m: Message, b: Bytes)
    requires |m| >= 12 && |b| == 2
    ensures Flags(SetFlags(m, b)) == Flags(m) && Secs(SetFlags(m, b)) == b
  {
  }

  /** The concrete case: on a zero message the flags 0x8000 (broadcast)
      are lost. */
  lemma BroadcastFlagLost()
    ensures Flags(SetFlags(Zeros(MessageSize), [0x80, 0])) == [0, 0]
  {
    SetFlagsAsWritten(Zeros(MessageSize), [0x80, 0]);
  }

  /** The corrected setter round trips and only touches the flags. */
  lemma SetFlagsCorrectedRoundTrip(m: Message, b: Bytes)
    requires |m| >= 12 && |b| == 2
    ensures Flags(SetFlagsCorrected(m, b)) == b && Secs(SetFlagsCorrected(m, b)) == Secs(m)
  {
  }

  // ---------------------------------------------------------------------
  // NewMessage, FillPadding
  // ---------------------------------------------------------------------

  /** NewMessage: 300 bytes, all zero but the op code, the Ethernet
      hardware type and the magic cookie. */
  function NewMessage(op: byte): (r: Message)
    ensures |r| == MessageSize && OpCode(r) == op && HType(r) == 1 && GetCookie(r) == Cookie
    ensures forall i | 2 <= i < 236 || 240 <= i < MessageSize :: r[i] == 0
  {
    SetCookie(SetHType(SetOpCode(Zeros(MessageSize), op), 1), Cookie)
  }

  /** FillPadding: zero-extended to 272 bytes; a longer message is kept. */
  function FillPadding(m: Message): (r: Message)
    ensures |r| == if |m| < PaddedSize then PaddedSize else |m|
    ensures r[..|m|] == m && forall i | |m| <= i < |r| :: r[i] == 0
  {
    if |m| < PaddedSize then m + Zeros(PaddedSize - |m|) else m
  }

  lemma FillPaddingIdempotent(m: Message)
    ensures FillPadding(FillPadding(m)) == FillPadding(m)
  {
  }

  // ---------------------------------------------------------------------
  // ParseOptions
  // ---------------------------------------------------------------------

  /** The `bytes.Buffer` after one pass of the loop, and the map. */
  datatype Cursor = Cursor(rest: Bytes, opts: Options)

  /** Every value is a piece of at most 255 bytes (4 for tags 1 and 2) and
      neither Pad nor End is ever a key. */
  predicate Sane(opts: Options) {
    forall t | t in opts :: t != OptionPad && t != OptionEndField && |opts[t]| <= 255
      && (t == OptionSubnetMask || t == OptionTimeOffset ==> |opts[t]| <= 4)
  }

  /** One pass of the switch for tag `t` on a non-empty remainder; every
      `buff.Next(n)` takes at most what is left. */
  function Step(t: byte, rest: Bytes, opts: Options): (r: Cursor)
    requires |rest| > 0
    ensures |r.rest| <= |rest|
    ensures Sane(opts) ==> Sane(r.opts)
  {
    if t == OptionPad then Cursor(rest, opts)
    else if t == OptionEndField then Cursor([], opts)
    else if t == OptionSubnetMask || t == OptionTimeOffset then
      var e := Min(5, |rest|);
      Cursor(rest[e..], opts[t := rest[1..e]])
    else
      var size: int := rest[0];
      var e := Min(1 + size, |rest|);
      Cursor(rest[e..], opts[t := rest[1..e]])
  }

  /** The loop of ParseOptions with `t` the tag just read and `rest` the
      bytes after it: it runs while the buffer is not empty, so a tag that is
      the last byte is never looked at. */
  function Loop(t: byte, rest: Bytes, opts: Options): (r: Options)
    ensures Sane(opts) ==> Sane(r)
    decreases |rest|
  {
    if |rest| == 0 then opts
    else
      var c := Step(t, rest, opts);
      if |c.rest| > 0 then Loop(c.rest[0], c.rest[1..], c.opts) else c.opts
  }

  /** ParseOptions: the first tag is read before the loop, so the options
      area may not be empty. */
  function ParseOptions(m: Message): (r: Options)
    requires |m| > OptionsStart
    ensures Sane(r)
  {
    var b := GetOptions(m);
    Loop(b[0], b[1..], map[])
  }

  // ---------------------------------------------------------------------
  // The option encoding, and parsing it back
  // ---------------------------------------------------------------------

  datatype Item = PadItem | Opt(tag: byte, value: Bytes)

  /** The bytes of one option: tag, `byte(len(value))`, value. */
  function EncodeItem(it: Item): (r: Bytes)
    ensures |r| == if it.Opt? then 2 + |it.value| else 1
  {
    match it
    case PadItem => [OptionPad]
    case Opt(t, v) => [t, ToByte(|v|)] + v
  }

  function Encode(items: seq<Item>): (r: Bytes)
    ensures |r| == 0 <==> |items| == 0
    decreases |items|
  {
    if |items| == 0 then [] else EncodeItem(items[0]) + Encode(items[1..])
  }

  /** Options ParseOptions reads back: neither Pad nor End as tag, a length
      that fits its byte, and exactly four bytes for tags 1 and 2. */
  predicate Readable(it: Item) {
    it.Opt? ==> (it.tag != OptionPad && it.tag != OptionEndField && |it.value| < 256
      && (it.tag == OptionSubnetMask || it.tag == OptionTimeOffset ==> |it.value| == 4))
  }

  /** The map after one option: Pad leaves it alone. */
  function Apply(it: Item, opts: Options): Options {
    if it.Opt? then opts[it.tag := it.value] else opts
  }

  /** The map the options build, a later tag overriding an earlier one. */
  function Collect(items: seq<Item>, opts: Options): Options
    decreases |items|
  {
    if |items| == 0 then opts else Collect(items[1..], Apply(items[0], opts))
  }

  /** What may follow the options without changing the result: nothing, an
      End option and anything after it, or one last tag byte. */
  predicate Ending(tail: Bytes) {
    |tail| <= 1 || tail[0] == OptionEndField
  }

  /** One pass of the loop consumes exactly one readable option. */
  lemma StepReadsItem(it: Item, after: Bytes, opts: Options)
    requires Readable(it) && |EncodeItem(it)| + |after| > 1
    ensures var b := EncodeItem(it) + after;
            Step(b[0], b[1..], opts) == Cursor(after, Apply(it, opts))
  {
    var b := EncodeItem(it) + after;
    if it.Opt? {
      var v := it.value;
      assert b[1..] == [ToByte(|v|)] + v + after;
      assert ToByte(|v|) == |v|;
      assert b[1..][1 + |v|..] == after;
      assert b[1..][1..1 + |v|] == v;
    } else {
      assert b[1..] == after;
    }
  }

  lemma {:induction false} LoopReads(items: seq<Item>, tail: Bytes, opts: Options)
    requires forall k | 0 <= k < |items| :: Readable(items[k])
    requires Ending(tail) && |Encode(items) + tail| > 0
    ensures var b := Encode(items) + tail;
            Loop(b[0], b[1..], opts) == Collect(items, opts)
    decreases |items|
  {
    hide *;
    var b := Encode(items) + tail;
    EncodeCollectCons(items, opts);
    if |items| == 0 {
      assert b == tail;
      LoopEnding(tail, opts);
    } else {
      var it := items[0];
      var more := items[1..];
      var after := Encode(more) + tail;
      var opts' := Apply(it, opts);
      assert b == EncodeItem(it) + after;
      assert Readable(it);
      if |b[1..]| > 0 {
        StepReadsItem(it, after, opts);
        LoopStep(b[0], b[1..], opts);
        if |after| > 0 {
          assert forall k | 0 <= k < |more| :: Readable(more[k]) by {
            assert forall k | 0 <= k < |more| :: more[k] == items[k + 1];
          }
          LoopReads(more, tail, opts');
        } else {
          EmptyEncoding(more);
          EncodeCollectCons(more, opts');
        }
      } else {
        assert |EncodeItem(it)| == 1 && |after| == 0;
        EmptyEncoding(more);
        EncodeCollectCons(more, opts');
        PadApplies(it, opts);
        LoopStep(b[0], b[1..], opts);
      }
    }
  }

  /** Encode and Collect take the first item, then the rest. */
  lemma EncodeCollectCons(items: seq<Item>, opts: Options)
    ensures |items| == 0 ==> Encode(items) == [] && Collect(items, opts) == opts
    ensures |items| > 0 ==> Encode(items) == EncodeItem(items[0]) + Encode(items[1..])
    ensures |items| > 0 ==> Collect(items, opts) == Collect(items[1..], Apply(items[0], opts))
  {
  }

  /** One pass of the loop, then the loop on what is left. */
  lemma LoopStep(t: byte, rest: Bytes, opts: Options)
    ensures |rest| == 0 ==> Loop(t, rest, opts) == opts
    ensures |rest| > 0 ==>
              (var c := Step(t, rest, opts);
               Loop(t, rest, opts) == if |c.rest| > 0 then Loop(c.rest[0], c.rest[1..], c.opts) else c.opts)
  {
  }

  /** Nothing is read from a valid ending. */
  lemma LoopEnding(tail: Bytes, opts: Options)
    requires Ending(tail) && |tail| > 0
    ensures Loop(tail[0], tail[1..], opts) == opts
  {
  }

  /** The one item that encodes to a single byte is padding. */
  lemma PadApplies(it: Item, opts: Options)
    requires |EncodeItem(it)| == 1
    ensures Apply(it, opts) == opts
  {
  }

  lemma EmptyEncoding(items: seq<Item>)
    requires |Encode(items)| == 0
    ensures items == []
  {
  }

  /** Options written with a valid ending are read back as the map they
      build: ParseOptions inverts the encoding. */
  lemma ParseOptionsReads(m: Message, items: seq<Item>, tail: Bytes)
    requires |m| > OptionsStart && m[OptionsStart..] == Encode(items) + tail
    requires forall k | 0 <= k < |items| :: Readable(items[k])
    requires Ending(tail)
    ensures ParseOptions(m) == Collect(items, map[])
  {
    LoopReads(items, tail, map[]);
  }

  /** A last option whose length runs past the data keeps what is there. */
  lemma LoopTruncates(t: byte, n: byte, v: Bytes, opts: Options)
    requires t != OptionPad && t != OptionEndField && t != OptionSubnetMask && t != OptionTimeOffset
    requires |v| < n
    ensures Loop(t, [n] + v, opts) == opts[t := v]
  {
    var rest := [n] + v;
    assert rest[|rest|..] == [];
    assert rest[1..|rest|] == v;
  }

  /** An options area of zero bytes is all padding: nothing is read. */
  lemma {:induction false} PaddingReadsNothing(rest: Bytes, opts: Options)
    requires forall i | 0 <= i < |rest| :: rest[i] == 0
    ensures Loop(OptionPad, rest, opts) == opts
    decreases |rest|
  {
    if |rest| > 1 {
      PaddingReadsNothing(rest[1..], opts);
    }
  }

  /** SetOptions: the encoding is built in a local slice and never copied
      into the message. */
  function SetOptions(m: Message, opts: Options, order: seq<byte>): (r: Message)
    requires KeyOrder(opts, order)
    ensures |r| == |m| && (|m| > OptionsStart ==> ParseOptions(r) == ParseOptions(m))
  {
    var b := OptionBytes(opts, order);
    m
  }

  /** Options set on a new message are lost: it parses as having none. */
  lemma SetOptionsLost(op: byte, opts: Options, order: seq<byte>)
    requires KeyOrder(opts, order)
    ensures ParseOptions(SetOptions(NewMessage(op), opts, order)) == map[]
  {
    var m := NewMessage(op);
    var b := GetOptions(m);
    assert forall i | 0 <= i < |b[1..]| :: b[1..][i] == m[OptionsStart + 1 + i];
    PaddingReadsNothing(b[1..], map[]);
  }

  // ---------------------------------------------------------------------
  // DHCPReply
  // ---------------------------------------------------------------------

  /** The options after DHCPReply added the lease time (the caller's map is
      changed too): `uint32(duration / time.Second)`, big-endian. */
  function WithLeaseTime(options: Options, duration: int): (r: Options)
    ensures duration > 0 ==> (OptionIPLeaseTime in r && |r[OptionIPLeaseTime]| == 4
              && ReadBE32(r[OptionIPLeaseTime]) == (duration / Second) % 0x1_0000_0000)
    ensures forall t | t != OptionIPLeaseTime :: (t in r <==> t in options) && (t in r ==> r[t] == options[t])
    ensures duration <= 0 ==> r == options
  {
    if duration > 0 then options[OptionIPLeaseTime := BE32((duration / Second) % 0x1_0000_0000)] else options
  }

  /** `order` lists every key of the map once: Go's map iteration order,
      which the model takes as a parameter. */
  predicate KeyOrder(opts: Options, order: seq<byte>) {
    && (forall i, j | 0 <= i < j < |order| :: order[i] != order[j])
    && (forall k | k in opts :: k in order)
    && (forall i | 0 <= i < |order| :: order[i] in opts)
  }

  /** The options as items, in iteration order. */
  function ItemsInOrder(opts: Options, order: seq<byte>): (r: seq<Item>)
    requires forall i | 0 <= i < |order| :: order[i] in opts
    ensures |r| == |order|
  {
    seq(|order|, i requires 0 <= i < |order| => Opt(order[i], opts[order[i]]))
  }

  /** The options area DHCPReply builds: every option, then End. */
  function OptionBytes(opts: Options, order: seq<byte>): Bytes
    requires forall i | 0 <= i < |order| :: order[i] in opts
  {
    Encode(ItemsInOrder(opts, order)) + [OptionEndField]
  }

  datatype Reply = Reply(msg: Message, options: Options)

  /** DHCPReply: a response carrying the request's transaction id, flags
      (through SetFlags), relay address and hardware address, the offered
      address, and the options truncated to the room left in 300 bytes. */
  function DHCPReply(request: Message, yiaddr: Bytes, duration: int, options: Options, order: seq<byte>): (r: Reply)
    requires |request| >= 44
    requires KeyOrder(WithLeaseTime(options, duration), order)
    ensures |r.msg| == MessageSize
  {
    var opts := WithLeaseTime(options, duration);
    Reply(CopyAt(ReplyHeader(request, yiaddr), OptionsStart, MessageSize, OptionBytes(opts, order)), opts)
  }

  /** The fixed fields DHCPReply sets, before the options are copied in. */
  function ReplyHeader(request: Message, yiaddr: Bytes): (r: Message)
    requires |request| >= 44
    ensures |r| == MessageSize
  {
    var m := NewMessage(OpResponse);
    var m := SetXId(m, XId(request));
    var m := SetFlags(m, Flags(request));
    var m := SetYIAddr(m, yiaddr);
    var m := SetGIAddr(m, GIAddr(request));
    SetCHAddr(m, CHAddr(request))
  }

  lemma ReplyHeaderFields(request: Message, yiaddr: Bytes)
    requires |request| >= 44 && |yiaddr| == 4
    ensures var m := ReplyHeader(request, yiaddr);
            && OpCode(m) == OpResponse && HType(m) == 1 && GetCookie(m) == Cookie
            && XId(m) == XId(request) && YIAddr(m) == yiaddr && GIAddr(m) == GIAddr(request)
            && CHAddr(m) == CHAddr(request) && Secs(m) == Flags(request) && Flags(m) == [0, 0]
  {
    var m0 := NewMessage(OpResponse);
    var m1 := SetXId(m0, XId(request));
    var m2 := SetFlags(m1, Flags(request));
    var m3 := SetYIAddr(m2, yiaddr);
    var m4 := SetGIAddr(m3, GIAddr(request));
    var a := CHAddr(request);
    CHAddrRoundTrip(m4, a);
    assert m4[0] == OpResponse && m4[1] == 1 && m4[236..240] == Cookie;
    assert m4[4..8] == XId(request) && m4[8..10] == Flags(request) && m4[10..12] == [0, 0];
    assert m4[16..20] == yiaddr && m4[24..28] == GIAddr(request);
    var m := ReplyHeader(request, yiaddr);
    assert m == SetCHAddr(m4, a);
    hide NewMessage, SetXId, SetFlags, SetYIAddr, SetGIAddr, CHAddr, ReplyHeader;
    assert m4[..2] == m[..2] && m4[3..28] == m[3..28];
    assert m4[236..240] == m[236..240];
  }

  /** ReplyHeader with the corrected flags setter. */
  function ReplyHeaderCorrected(request: Message, yiaddr: Bytes): (r: Message)
    requires |request| >= 44
    ensures |r| == MessageSize
  {
    var m := NewMessage(OpResponse);
    var m := SetXId(m, XId(request));
    var m := SetFlagsCorrected(m, Flags(request));
    var m := SetYIAddr(m, yiaddr);
    var m := SetGIAddr(m, GIAddr(request));
    SetCHAddr(m, CHAddr(request))
  }

  /** With the corrected setter the reply echoes the request's flags (the
      broadcast bit included) and leaves secs zero. */
  lemma CorrectedReplyKeepsFlags(request: Message, yiaddr: Bytes)
    requires |request| >= 44
    ensures var m := ReplyHeaderCorrected(request, yiaddr);
            Flags(m) == Flags(request) && Secs(m) == [0, 0]
  {
    var m0 := NewMessage(OpResponse);
    var m1 := SetXId(m0, XId(request));
    var m2 := SetFlagsCorrected(m1, Flags(request));
    var m3 := SetYIAddr(m2, yiaddr);
    var m4 := SetGIAddr(m3, GIAddr(request));
    assert m4[8..12] == [0, 0] + Flags(request);
    var m := ReplyHeaderCorrected(request, yiaddr);
    assert m == SetCHAddr(m4, CHAddr(request));
    hide NewMessage, SetXId, SetFlagsCorrected, SetYIAddr, SetGIAddr, ReplyHeaderCorrected;
    assert m4[8..12] == m[8..12];
  }

  /** The fixed fields of the reply. */
  lemma DHCPReplyFields(request: Message, yiaddr: Bytes, duration: int, options: Options, order: seq<byte>)
    requires |request| >= 44 && |yiaddr| == 4
    requires KeyOrder(WithLeaseTime(options, duration), order)
    ensures var m := DHCPReply(request, yiaddr, duration, options, order).msg;
            && OpCode(m) == OpResponse && HType(m) == 1 && GetCookie(m) == Cookie
            && XId(m) == XId(request) && YIAddr(m) == yiaddr && GIAddr(m) == GIAddr(request)
            && CHAddr(m) == CHAddr(request) && Secs(m) == Flags(request) && Flags(m) == [0, 0]
  {
    hide *;
    ReplyHeaderFields(request, yiaddr);
    ReplyKeepsHeader(request, yiaddr, duration, options, order);
    SameHeader(DHCPReply(request, yiaddr, duration, options, order).msg, ReplyHeader(request, yiaddr));
  }

  /** Copying the options in leaves the first 240 bytes alone. */
  lemma ReplyKeepsHeader(request: Message, yiaddr: Bytes, duration: int, options: Options, order: seq<byte>)
    requires |request| >= 44
    requires KeyOrder(WithLeaseTime(options, duration), order)
    ensures var m := DHCPReply(request, yiaddr, duration, options, order).msg;
            forall i | 0 <= i < OptionsStart :: m[i] == ReplyHeader(request, yiaddr)[i]
  {
  }

  /** Two messages that agree on the first 240 bytes agree on every fixed field. */
  lemma SameHeader(a: Message, b: Message)
    requires |a| == |b| == MessageSize
    requires forall i | 0 <= i < OptionsStart :: a[i] == b[i]
    ensures OpCode(a) == OpCode(b) && HType(a) == HType(b) && GetCookie(a) == GetCookie(b)
    ensures XId(a) == XId(b) && YIAddr(a) == YIAddr(b) && GIAddr(a) == GIAddr(b)
    ensures CHAddr(a) == CHAddr(b) && Secs(a) == Secs(b) && Flags(a) == Flags(b)
  {
    assert a[..OptionsStart] == b[..OptionsStart];
    assert a[2] == b[2];
  }

  lemma ReplyOptionsArea(request: Message, yiaddr: Bytes, duration: int, options: Options, order: seq<byte>)
    requires |request| >= 44
    requires KeyOrder(WithLeaseTime(options, duration), order)
    requires |OptionBytes(WithLeaseTime(options, duration), order)| <= MessageSize - OptionsStart
    ensures var ob := OptionBytes(WithLeaseTime(options, duration), order);
            var r := DHCPReply(request, yiaddr, duration, options, order);
            r.msg[OptionsStart..OptionsStart + |ob|] == ob && r.options == WithLeaseTime(options, duration)
  {
  }

  lemma SliceFrom(x: Bytes, lo: nat, y: Bytes)
    requires lo + |y| <= |x| && x[lo..lo + |y|] == y
    ensures x[lo..] == y + x[lo + |y|..]
  {
  }

  /** The lease time option DHCPReply adds is readable, as are the rest. */
  lemma ItemsReadable(options: Options, duration: int, order: seq<byte>)
    requires KeyOrder(WithLeaseTime(options, duration), order)
    requires forall t | t in options :: Readable(Opt(t, options[t]))
    ensures var items := ItemsInOrder(WithLeaseTime(options, duration), order);
            forall k | 0 <= k < |items| :: Readable(items[k])
  {
  }

  /** Collecting distinct tags gives back the map they were listed from. */
  lemma CollectInOrder(opts: Options, order: seq<byte>, k: nat, acc: Options)
    requires KeyOrder(opts, order) && k <= |order|
    requires acc.Keys == (set i | 0 <= i < k :: order[i])
    requires forall t | t in acc :: t in opts && acc[t] == opts[t]
    ensures Collect(ItemsInOrder(opts, order)[k..], acc) == opts
    decreases |order| - k
  {
    var items := ItemsInOrder(opts, order);
    if k == |order| {
      assert items[k..] == [];
      assert acc.Keys == opts.Keys by {
        forall t | t in opts ensures t in acc {
          var i :| 0 <= i < |order| && order[i] == t;
        }
      }
    } else {
      assert items[k..][1..] == items[k + 1..];
      var acc' := acc[order[k] := opts[order[k]]];
      assert acc'.Keys == (set i | 0 <= i < k + 1 :: order[i]);
      CollectInOrder(opts, order, k + 1, acc');
    }
  }

  /** The options a reply carries are read back from it, the lease time
      included, as long as they fit the 60 bytes after the cookie. */
  lemma ReplyOptionsRoundTrip(request: Message, yiaddr: Bytes, duration: int, options: Options, order: seq<byte>)
    requires |request| >= 44
    requires KeyOrder(WithLeaseTime(options, duration), order)
    requires forall t | t in options :: Readable(Opt(t, options[t]))
    requires |OptionBytes(WithLeaseTime(options, duration), order)| <= MessageSize - OptionsStart
    ensures var r := DHCPReply(request, yiaddr, duration, options, order);
            ParseOptions(r.msg) == r.options == WithLeaseTime(options, duration)
  {
    hide DHCPReply, OptionBytes, ItemsInOrder, WithLeaseTime, ParseOptions, Collect, Encode, CopyAt, ReplyHeader;
    var opts := WithLeaseTime(options, duration);
    var r := DHCPReply(request, yiaddr, duration, options, order);
    var items := ItemsInOrder(opts, order);
    var ob := OptionBytes(opts, order);
    var m := r.msg;
    ReplyOptionsArea(request, yiaddr, duration, options, order);
    OptionBytesAre(opts, order);
    var tail := [OptionEndField] + m[OptionsStart + |ob|..];
    SliceFrom(m, OptionsStart, ob);
    assert m[OptionsStart..] == Encode(items) + tail;
    ItemsReadable(options, duration, order);
    ParseOptionsReads(m, items, tail);
    assert items[0..] == items;
    CollectInOrder(opts, order, 0, map[]);
  }

  lemma OptionBytesAre(opts: Options, order: seq<byte>)
    requires forall i | 0 <= i < |order| :: order[i] in opts
    ensures OptionBytes(opts, order) == Encode(ItemsInOrder(opts, order)) + [OptionEndField]
  {
  }
}
