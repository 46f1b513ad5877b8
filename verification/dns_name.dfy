/** Domain names on the wire (sections 3.1 and 4.1.4 of RFC 1035): the
    encoder `stringToDNSWireFormat`, the decoder `parseDNSName` with its
    compression-pointer loop protection, and `parseDNSNameWithWireFormat`,
    which also returns the raw name bytes. */
module DnsName {
  import opened Wrappers
  import opened Bytes
  import opened Text

  const Dot: byte := 46
  const MaxLabel := 63
  const MaxName := 253
  const MaxJumps := 5

  /** The decoder's failures, one per `errors.New`/`fmt.Errorf` in the loop. */
  datatype NameError =
    | EndOfData
    | IncompletePointer
    | PointerBeyondPacket
    | PointerLoop
    | PointerToSelf
    | TooManyJumps
    | LabelTooLong
    | LabelBeyondPacket
    | NameTooLong

  /** A decoded name and the offset just past it in the message. */
  datatype Parsed = Parsed(name: Bytes, next: nat)

  // ---------------------------------------------------------------------
  // Labels
  // ---------------------------------------------------------------------

  predicate ValidLabels(ls: seq<Bytes>) {
    forall k | 0 <= k < |ls| :: 1 <= |ls[k]| <= MaxLabel
  }

  /** The decoder's name step: a dot between labels, none before the first. */
  function AppendLabel(name: Bytes, lab: Bytes): Bytes {
    (if |name| > 0 then name + [Dot] else name) + lab
  }

  /** The dotted text the decoder builds from `ls`, starting from `acc`. */
  function NameOf(acc: Bytes, ls: seq<Bytes>): Bytes
    decreases |ls|
  {
    if |ls| == 0 then acc else NameOf(AppendLabel(acc, ls[0]), ls[1..])
  }

  /** Each label with its length byte in front. */
  function EncodeLabels(ls: seq<Bytes>): (r: Bytes)
    requires ValidLabels(ls)
    decreases |ls|
  {
    if |ls| == 0 then [] else [|ls[0]|] + ls[0] + EncodeLabels(ls[1..])
  }

  /** The encoder's label loop: empty labels are skipped, long ones cut to 63 bytes. */
  function Normalize(parts: seq<Bytes>): (r: seq<Bytes>)
    ensures ValidLabels(r)
    decreases |parts|
  {
    if |parts| == 0 then []
    else
      var l := parts[0];
      var rest := Normalize(parts[1..]);
      if |l| == 0 then rest
      else [if |l| > MaxLabel then l[..MaxLabel] else l] + rest
  }

  /** The labels of a textual domain: one trailing dot dropped, then split. */
  function DomainLabels(domain: Bytes): (r: seq<Bytes>)
    ensures ValidLabels(r)
  {
    var d := if HasSuffix(domain, [Dot]) then domain[..|domain| - 1] else domain;
    Normalize(Split(d, Dot))
  }

  /** stringToDNSWireFormat */
  function StringToWire(domain: Bytes): (r: Bytes)
    ensures r == EncodeLabels(DomainLabels(domain)) + [0]
  {
    if domain == [] || domain == [Dot] then
      assert DomainLabels(domain) == [] by {
        var d: Bytes := [];
        assert (if HasSuffix(domain, [Dot]) then domain[..|domain| - 1] else domain) == d;
        SplitNoSep(d, Dot);
        assert Normalize([d]) == [];
      }
      [0]
    else
      var d := if HasSuffix(domain, [Dot]) then domain[..|domain| - 1] else domain;
      EncodeLabels(Normalize(Split(d, Dot))) + [0]
  }

  // ---------------------------------------------------------------------
  // parseDNSName
  // ---------------------------------------------------------------------

  /** One pass of the decoder's `for` loop and everything after it. `orig`
      is the offset to return once a pointer has been followed. The pair
      (jumps left, bytes left) shrinks on every pass, so the decoder stops
      on every input. */
  function ParseLoop(data: Bytes, offset: nat, name: Bytes, orig: nat, jumped: bool,
                     jumps: nat, visited: set<nat>): (r: Result<Parsed, NameError>)
    requires jumps <= MaxJumps
    requires |name| <= MaxName
    requires jumped ==> orig <= |data|
    ensures r.Ok? ==> |r.value.name| <= MaxName && r.value.next <= |data|
    ensures r.Ok? && jumped ==> r.value.next == orig
    ensures r.Ok? && !jumped ==>
              offset < |data| &&
              (if data[offset] >= 0xC0 then r.value.next == offset + 2
               else r.value.next >= offset + 1 + data[offset])
    decreases MaxJumps - jumps, |data| - offset
  {
    if offset >= |data| then Err(EndOfData)
    else
      var length := data[offset];
      if length >= 0xC0 then
        if offset + 1 >= |data| then Err(IncompletePointer)
        else
          var pointer := ReadBE16(data[offset..offset + 2]) % 0x4000;
          if pointer >= |data| then Err(PointerBeyondPacket)
          else if pointer in visited then Err(PointerLoop)
          else if pointer == offset then Err(PointerToSelf)
          else
            var orig' := if jumped then orig else offset + 2;
            if jumps + 1 > MaxJumps then Err(TooManyJumps)
            else ParseLoop(data, pointer, name, orig', true, jumps + 1, visited + {pointer})
      else
        var o := offset + 1;
        if length == 0 then Ok(Parsed(name, if jumped then orig else o))
        else if length > MaxLabel then Err(LabelTooLong)
        else if o + length > |data| then Err(LabelBeyondPacket)
        else
          var name' := AppendLabel(name, data[o..o + length]);
          if |name'| > MaxName then Err(NameTooLong)
          else ParseLoop(data, o + length, name', orig, jumped, jumps, visited)
  }

  /** parseDNSName: the dotted name at `offset` and the offset after it
      (after the first pointer, when the name is compressed). */
  function ParseName(data: Bytes, offset: nat): (r: Result<Parsed, NameError>)
    ensures r.Ok? ==> |r.value.name| <= MaxName && offset < r.value.next <= |data|
    ensures r.Ok? && data[offset] >= 0xC0 ==> r.value.next == offset + 2
    ensures r.Ok? && data[offset] < 0xC0 ==> r.value.next >= offset + 1 + data[offset]
  {
    ParseLoop(data, offset, [], offset, false, 0, {})
  }

  /** A compression pointer to itself is refused. */
  lemma {:induction false} PointerToItselfFails()
    ensures ParseName([0xC0, 0x00], 0) == Err(PointerToSelf)
  {
  }

  /** Two pointers that refer to each other are caught by the visited set. */
  lemma {:induction false} PointerCycleFails()
    ensures ParseName([0xC0, 0x02, 0xC0, 0x00], 0) == Err(PointerLoop)
  {
    var d: Bytes := [0xC0, 0x02, 0xC0, 0x00];
    assert ReadBE16(d[0..2]) % 0x4000 == 2;
    assert ReadBE16(d[2..4]) % 0x4000 == 0;
    assert ParseLoop(d, 0, [], 0, false, 0, {}) == ParseLoop(d, 2, [], 2, true, 1, {2});
    assert ParseLoop(d, 2, [], 2, true, 1, {2}) == ParseLoop(d, 0, [], 2, true, 2, {2, 0});
  }

  /** Length bytes 64..191 (the reserved label types) are refused. */
  lemma {:induction false} ReservedLabelTypeFails(data: Bytes, offset: nat)
    requires offset < |data| && 64 <= data[offset] < 0xC0
    ensures ParseName(data, offset) == Err(LabelTooLong)
  {
  }

  // ---------------------------------------------------------------------
  // Round trip: decoding an encoded name
  // ---------------------------------------------------------------------

  lemma {:induction false} NameOfExtends(acc: Bytes, ls: seq<Bytes>)
    ensures |NameOf(acc, ls)| >= |acc|
    decreases |ls|
  {
    if |ls| > 0 {
      NameOfExtends(AppendLabel(acc, ls[0]), ls[1..]);
    }
  }

  /** The decoder reads back, at any position of any message, a name that
      is written as length-prefixed labels and a terminating 0. */
  lemma {:induction false} ParseLoopEncoded(data: Bytes, offset: nat, ls: seq<Bytes>, acc: Bytes,
                                            orig: nat, jumps: nat, visited: set<nat>)
    requires ValidLabels(ls)
    requires jumps <= MaxJumps && |acc| <= MaxName
    requires offset + |EncodeLabels(ls)| + 1 <= |data|
    requires data[offset..offset + |EncodeLabels(ls)| + 1] == EncodeLabels(ls) + [0]
    requires |NameOf(acc, ls)| <= MaxName
    ensures ParseLoop(data, offset, acc, orig, false, jumps, visited)
         == Ok(Parsed(NameOf(acc, ls), offset + |EncodeLabels(ls)| + 1))
    decreases |ls|
  {
    hide ParseLoop, EncodeLabels, AppendLabel, NameOf, ValidLabels;
    EncodeCons(ls);
    if |ls| == 0 {
      assert data[offset] == 0 by {
        assert data[offset..offset + 1][0] == 0;
      }
      ParseAtZero(data, offset, acc, orig, jumps, visited);
    } else {
      var l := ls[0];
      var tail := EncodeLabels(ls[1..]);
      EncodedSlices(data, offset, l, tail);
      NameOfExtends(AppendLabel(acc, l), ls[1..]);
      LabelStepBack(data, offset, acc, orig, jumps, visited);
      ParseLoopEncoded(data, offset + 1 + |l|, ls[1..], AppendLabel(acc, l), orig, jumps, visited);
    }
  }

  /** The encoding of a label list is its first label with its length in
      front, then the rest; the decoder's text follows the same steps. */
  lemma EncodeCons(ls: seq<Bytes>)
    requires ValidLabels(ls)
    ensures |ls| == 0 ==> EncodeLabels(ls) == [] && forall acc :: NameOf(acc, ls) == acc
    ensures |ls| > 0 ==> ValidLabels(ls[1..]) && 1 <= |ls[0]| <= MaxLabel
    ensures |ls| > 0 ==> EncodeLabels(ls) == [|ls[0]| as byte] + ls[0] + EncodeLabels(ls[1..])
    ensures |ls| > 0 ==> forall acc :: NameOf(acc, ls) == NameOf(AppendLabel(acc, ls[0]), ls[1..])
  {
  }

  /** Where a label and the encoding after it sit in the message. */
  lemma EncodedSlices(data: Bytes, offset: nat, l: Bytes, tail: Bytes)
    requires 1 <= |l| <= MaxLabel
    requires offset + 1 + |l| + |tail| + 1 <= |data|
    requires data[offset..offset + 1 + |l| + |tail| + 1] == [|l| as byte] + l + tail + [0]
    ensures data[offset] == |l|
    ensures data[offset + 1..offset + 1 + |l|] == l
    ensures data[offset + 1 + |l|..offset + 1 + |l| + |tail| + 1] == tail + [0]
  {
    var w := data[offset..offset + 1 + |l| + |tail| + 1];
    assert w[0] == data[offset];
    forall j | 0 <= j < |l| ensures data[offset + 1 + j] == l[j] {
      assert w[1 + j] == data[offset + 1 + j];
    }
    assert data[offset + 1 + |l|..offset + 1 + |l| + |tail| + 1] == w[1 + |l|..];
  }

  /** A label that fits the message and the name length limit is read and
      appended, and the decoder goes on after it. */
  lemma LabelStepBack(data: Bytes, offset: nat, name: Bytes, orig: nat, jumps: nat, visited: set<nat>)
    requires jumps <= MaxJumps && |name| <= MaxName
    requires offset < |data| && 0 < data[offset] <= MaxLabel
    requires offset + 1 + data[offset] <= |data|
    requires |AppendLabel(name, data[offset + 1..offset + 1 + data[offset]])| <= MaxName
    ensures var o := offset + 1 + data[offset];
            ParseLoop(data, offset, name, orig, false, jumps, visited)
            == ParseLoop(data, o, AppendLabel(name, data[offset + 1..o]), orig, false, jumps, visited)
  {
  }

  /** The dotted text of a non-empty label list is the labels joined by dots. */
  lemma {:induction false} NameOfJoin(acc: Bytes, ls: seq<Bytes>)
    requires |ls| >= 1 && ValidLabels(ls)
    ensures NameOf(acc, ls) == AppendLabel(acc, JoinWith(ls, Dot))
    decreases |ls|
  {
    if |ls| > 1 {
      var a := AppendLabel(acc, ls[0]);
      assert |a| > 0;
      NameOfJoin(a, ls[1..]);
      assert JoinWith(ls, Dot) == ls[0] + [Dot] + JoinWith(ls[1..], Dot);
    }
  }

  /** The text a list of labels decodes to. */
  function DottedName(ls: seq<Bytes>): Bytes {
    if |ls| == 0 then [] else JoinWith(ls, Dot)
  }

  /** The decoder's text for a label list is the labels joined by dots. */
  lemma {:induction false} NameOfDotted(ls: seq<Bytes>)
    requires ValidLabels(ls)
    ensures NameOf([], ls) == DottedName(ls)
  {
    if |ls| > 0 {
      NameOfJoin([], ls);
      assert AppendLabel([], JoinWith(ls, Dot)) == JoinWith(ls, Dot);
    }
  }

  /** Decoding the encoder's output, wherever it sits in a message, gives
      the domain's labels joined by dots and the offset just past it. */
  lemma {:induction false} StringToWireParses(pre: Bytes, domain: Bytes, post: Bytes)
    requires |DottedName(DomainLabels(domain))| <= MaxName
    ensures ParseName(pre + StringToWire(domain) + post, |pre|)
         == Ok(Parsed(DottedName(DomainLabels(domain)), |pre| + |StringToWire(domain)|))
  {
    var ls := DomainLabels(domain);
    var w := StringToWire(domain);
    var enc := EncodeLabels(ls);
    assert w == enc + [0];
    var data := pre + w + post;
    assert data[|pre|..|pre| + |enc| + 1] == enc + [0];
    NameOfDotted(ls);
    ParseLoopEncoded(data, |pre|, ls, [], |pre|, 0, {});
  }

  /** A domain written the usual way (non-empty labels of at most 63
      bytes, no trailing dot) encodes to labels that decode to itself. */
  lemma {:induction false} NormalizeValid(parts: seq<Bytes>)
    requires ValidLabels(parts)
    ensures Normalize(parts) == parts
    decreases |parts|
  {
    if |parts| > 0 {
      NormalizeValid(parts[1..]);
    }
  }

  lemma {:induction false} StringToWireRoundTrip(domain: Bytes)
    requires |domain| <= MaxName
    requires ValidLabels(Split(domain, Dot))
    ensures ParseName(StringToWire(domain), 0) == Ok(Parsed(domain, |StringToWire(domain)|))
  {
    var parts := Split(domain, Dot);
    assert !HasSuffix(domain, [Dot]) by {
      var last := parts[|parts| - 1];
      JoinWithEndsWithLast(parts);
      assert domain[|domain| - 1] == last[|last| - 1];
      assert Dot !in last;
    }
    NormalizeValid(parts);
    assert DomainLabels(domain) == parts;
    assert DottedName(parts) == domain;
    StringToWireParses([], domain, []);
    assert [] + StringToWire(domain) + [] == StringToWire(domain);
  }

  /** Joined parts end with the last part. */
  lemma {:induction false} JoinWithEndsWithLast(parts: seq<Bytes>)
    requires |parts| >= 1
    ensures HasSuffix(JoinWith(parts, Dot), parts[|parts| - 1])
    decreases |parts|
  {
    if |parts| > 1 {
      JoinWithEndsWithLast(parts[1..]);
    }
  }

  // ---------------------------------------------------------------------
  // parseDNSNameWithWireFormat
  // ---------------------------------------------------------------------

  /** The raw-bytes loop: labels are copied with their length byte until
      the terminating 0 or the first pointer. Go's slice at a pointer in
      the last byte would read into spare capacity; the model stops at
      the end, and that case cannot follow a successful decode. */
  function WireLoop(data: Bytes, cur: nat, acc: Bytes): Bytes
    decreases |data| - cur
  {
    if cur >= |data| then acc
    else
      var length := data[cur];
      if length >= 0xC0 then acc + data[cur..if cur + 2 <= |data| then cur + 2 else |data|]
      else if length == 0 then acc + [0]
      else
        var c := cur + 1;
        if c + length <= |data| then WireLoop(data, c + length, acc + [length] + data[c..c + length])
        else WireLoop(data, c, acc + [length])
  }

  datatype NameWithWire = NameWithWire(name: Bytes, wire: Bytes, next: nat)

  /** parseDNSNameWithWireFormat: the decoded name, the raw bytes it
      occupies in the message, and the offset after them. */
  function ParseNameWithWire(data: Bytes, offset: nat): (r: Result<NameWithWire, NameError>)
    ensures r.Ok? <==> ParseName(data, offset).Ok?
    ensures r.Ok? ==> r.value.name == ParseName(data, offset).value.name
    ensures r.Ok? ==> r.value.next == ParseName(data, offset).value.next
    ensures r.Ok? ==> r.value.wire == data[offset..r.value.next]
  {
    match ParseName(data, offset)
    case Err(e) => Err(e)
    case Ok(p) =>
      if offset < |data| && data[offset] == 0 then
        Ok(NameWithWire(p.name, [0], p.next))
      else
        WireLoopCopies(data, offset, [], 0, {}, []);
        Ok(NameWithWire(p.name, WireLoop(data, offset, []), p.next))
  }

  /** Following a successful decode, the raw-bytes loop copies exactly the
      bytes between the start and the decoder's returned offset. */
  lemma {:induction false} WireLoopCopies(data: Bytes, offset: nat, name: Bytes, jumps: nat,
                                          visited: set<nat>, acc: Bytes)
    requires jumps <= MaxJumps && |name| <= MaxName
    requires ParseLoop(data, offset, name, offset, false, jumps, visited).Ok?
    ensures offset <= ParseLoop(data, offset, name, offset, false, jumps, visited).value.next
    ensures WireLoop(data, offset, acc)
         == acc + data[offset..ParseLoop(data, offset, name, offset, false, jumps, visited).value.next]
    decreases |data| - offset
  {
    hide ParseLoop, WireLoop, AppendLabel;
    var next := ParseLoop(data, offset, name, offset, false, jumps, visited).value.next;
    var length := data[offset];
    if length >= 0xC0 {
      WireAtPointer(data, offset, acc);
    } else if length == 0 {
      ParseAtZero(data, offset, name, offset, jumps, visited);
      WireAtZero(data, offset, acc);
    } else {
      var o := offset + 1;
      LabelStep(data, offset, name, offset, jumps, visited);
      var name' := AppendLabel(name, data[o..o + length]);
      ParseLoopFromAnyOrig(data, o + length, name', offset, jumps, visited);
      var acc' := acc + [length] + data[o..o + length];
      WireLoopCopies(data, o + length, name', jumps, visited, acc');
      WireLabelStep(data, offset, acc);
      LabelSlices(data, offset, next);
    }
  }

  /** One label: the decoder continues after it with the label appended. */
  lemma LabelStep(data: Bytes, offset: nat, name: Bytes, orig: nat, jumps: nat, visited: set<nat>)
    requires jumps <= MaxJumps && |name| <= MaxName
    requires offset < |data| && 0 < data[offset] < 0xC0
    requires ParseLoop(data, offset, name, orig, false, jumps, visited).Ok?
    ensures var o := offset + 1 + data[offset];
            && o <= |data| && |AppendLabel(name, data[offset + 1..o])| <= MaxName
            && ParseLoop(data, offset, name, orig, false, jumps, visited)
               == ParseLoop(data, o, AppendLabel(name, data[offset + 1..o]), orig, false, jumps, visited)
  {
  }

  /** A zero length byte ends the name just after it. */
  lemma ParseAtZero(data: Bytes, offset: nat, name: Bytes, orig: nat, jumps: nat, visited: set<nat>)
    requires jumps <= MaxJumps && |name| <= MaxName
    requires offset < |data| && data[offset] == 0
    ensures ParseLoop(data, offset, name, orig, false, jumps, visited) == Ok(Parsed(name, offset + 1))
  {
  }

  lemma WireAtZero(data: Bytes, offset: nat, acc: Bytes)
    requires offset < |data| && data[offset] == 0
    ensures WireLoop(data, offset, acc) == acc + data[offset..offset + 1]
  {
  }

  lemma WireAtPointer(data: Bytes, offset: nat, acc: Bytes)
    requires offset + 2 <= |data| && data[offset] >= 0xC0
    ensures WireLoop(data, offset, acc) == acc + data[offset..offset + 2]
  {
  }

  /** One label: the raw-bytes loop copies it with its length byte. */
  lemma WireLabelStep(data: Bytes, offset: nat, acc: Bytes)
    requires offset < |data| && 0 < data[offset] < 0xC0 && offset + 1 + data[offset] <= |data|
    ensures var o := offset + 1 + data[offset];
            WireLoop(data, offset, acc) == WireLoop(data, o, acc + [data[offset]] + data[offset + 1..o])
  {
  }

  /** The bytes from a label's length byte on are the length byte, the
      label, and what follows. */
  lemma LabelSlices(data: Bytes, offset: nat, next: nat)
    requires offset < |data| && offset + 1 + data[offset] <= next <= |data|
    ensures var o := offset + 1 + data[offset];
            data[offset..next] == [data[offset]] + data[offset + 1..o] + data[o..next]
  {
    var o := offset + 1 + data[offset];
    assert data[offset..next] == [data[offset]] + data[offset + 1..next];
    assert data[offset + 1..next] == data[offset + 1..o] + data[o..next];
  }

  /** Before the first jump, the saved offset is never read. */
  lemma {:induction false} ParseLoopFromAnyOrig(data: Bytes, offset: nat, name: Bytes, orig: nat,
                                                jumps: nat, visited: set<nat>)
    requires jumps <= MaxJumps && |name| <= MaxName
    ensures ParseLoop(data, offset, name, orig, false, jumps, visited)
         == ParseLoop(data, offset, name, offset, false, jumps, visited)
    decreases |data| - offset
  {
    if offset < |data| && 0 < data[offset] <= MaxLabel {
      var length := data[offset];
      var o := offset + 1;
      if o + length <= |data| {
        var name' := AppendLabel(name, data[o..o + length]);
        if |name'| <= MaxName {
          ParseLoopFromAnyOrig(data, o + length, name', orig, jumps, visited);
          ParseLoopFromAnyOrig(data, o + length, name', offset, jumps, visited);
        }
      }
    }
  }

  // ---------------------------------------------------------------------
  // Names written without compression
  // ---------------------------------------------------------------------

  /** The labels of a name written without compression, if it is one. */
  function PlainLabels(n: Bytes): (r: Option<seq<Bytes>>)
    ensures r.Some? ==> ValidLabels(r.value)
    decreases |n|
  {
    if |n| == 0 || n[0] > MaxLabel || 1 + n[0] > |n| then None
    else if n[0] == 0 then (if |n| == 1 then Some([]) else None)
    else
      match PlainLabels(n[1 + n[0]..])
      case None => None
      case Some(ls) => Some([n[1..1 + n[0]]] + ls)
  }

  /** PlainLabels inverts the label encoding. */
  lemma {:induction false} PlainLabelsEncode(n: Bytes)
    requires PlainLabels(n).Some?
    ensures EncodeLabels(PlainLabels(n).value) + [0] == n
    decreases |n|
  {
    if n[0] != 0 {
      var rest := n[1 + n[0]..];
      PlainLabelsEncode(rest);
      var ls := PlainLabels(n).value;
      assert ls[0] == n[1..1 + n[0]];
      assert ls[1..] == PlainLabels(rest).value;
      assert n == [n[0]] + n[1..1 + n[0]] + rest;
    }
  }

  /** A name the decoder accepts without compression pointers. */
  predicate PlainName(n: Bytes) {
    PlainLabels(n).Some? && |DottedName(PlainLabels(n).value)| <= MaxName
  }

  /** A name written as length-prefixed labels and a terminating 0
      decodes, wherever it sits, to the labels joined by dots, its raw
      bytes and the offset just past it. */
  lemma {:induction false} EncodedNameParses(data: Bytes, offset: nat, ls: seq<Bytes>)
    requires ValidLabels(ls) && |DottedName(ls)| <= MaxName
    requires offset + |EncodeLabels(ls)| + 1 <= |data|
    requires data[offset..offset + |EncodeLabels(ls)| + 1] == EncodeLabels(ls) + [0]
    ensures ParseNameWithWire(data, offset)
         == Ok(NameWithWire(DottedName(ls), EncodeLabels(ls) + [0], offset + |EncodeLabels(ls)| + 1))
  {
    EncodedNameDecodes(data, offset, ls);
    var n := EncodeLabels(ls) + [0];
    var v := ParseNameWithWire(data, offset).value;
    assert v.wire == n;
    assert v == NameWithWire(v.name, v.wire, v.next);
  }

  /** Length-prefixed labels and a terminating 0 decode to the labels
      joined by dots, wherever they sit. */
  lemma {:induction false} EncodedNameDecodes(data: Bytes, offset: nat, ls: seq<Bytes>)
    requires ValidLabels(ls) && |DottedName(ls)| <= MaxName
    requires offset + |EncodeLabels(ls)| + 1 <= |data|
    requires data[offset..offset + |EncodeLabels(ls)| + 1] == EncodeLabels(ls) + [0]
    ensures ParseName(data, offset) == Ok(Parsed(DottedName(ls), offset + |EncodeLabels(ls)| + 1))
  {
    NameOfDotted(ls);
    ParseLoopEncoded(data, offset, ls, [], offset, 0, {});
  }


  /** A plain name decodes to its dotted text, wherever it sits, and its
      raw bytes are the name itself. */
  lemma {:induction false} PlainNameParses(data: Bytes, offset: nat, n: Bytes)
    requires PlainName(n)
    requires offset + |n| <= |data| && data[offset..offset + |n|] == n
    ensures ParseNameWithWire(data, offset) == Ok(NameWithWire(DottedName(PlainLabels(n).value), n, offset + |n|))
  {
    var ls := PlainLabels(n).value;
    PlainLabelsEncode(n);
    EncodedNameParses(data, offset, ls);
  }
}
