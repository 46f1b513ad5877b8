/** The DNS message header of section 4.1.1 of RFC 1035 and its flag setters.

        Bit: 15 14 13 12 11 10  9  8  7  6  5  4  3  2  1  0
             QR |   Opcode  |AA|TC|RD|RA|   Z    |   RCODE   |

    Each Go setter is a bit-mask update of the 16-bit flags word; the
    arguments are Go `uint8` values, so an argument wider than its field
    spills into the neighbouring fields exactly as the masks dictate. */
module DnsHeader {
  import opened Bytes

  /** The two 16-bit header words the setters work on; the four section
      counts are derived from the message when it is marshalled. */
  datatype Header = Header(id: u16, flags: u16)

  /** The flags word as a bit vector. */
  function Bits(h: Header): bv16 {
    h.flags as bv16
  }

  /** A header holding the given flag bits. */
  function WithBits(h: Header, b: bv16): (r: Header)
    ensures Bits(r) == b && r.id == h.id
  {
    h.(flags := b as int)
  }

  /** The bits a field occupies. */
  const QRMask: bv16 := 0x8000
  const OpcodeMask: bv16 := 0x7800
  const AAMask: bv16 := 0x0400
  const TCMask: bv16 := 0x0200
  const RDMask: bv16 := 0x0100
  const RAMask: bv16 := 0x0080
  const ZMask: bv16 := 0x0070
  const RCodeMask: bv16 := 0x000F

  // ---------------------------------------------------------------------
  // Field readers
  // ---------------------------------------------------------------------

  predicate QR(h: Header) { Bits(h) & QRMask != 0 }
  predicate AA(h: Header) { Bits(h) & AAMask != 0 }
  predicate TC(h: Header) { Bits(h) & TCMask != 0 }
  predicate RD(h: Header) { Bits(h) & RDMask != 0 }
  predicate RA(h: Header) { Bits(h) & RAMask != 0 }
  function Opcode(h: Header): bv16 { (Bits(h) & OpcodeMask) >> 11 }
  function Z(h: Header): bv16 { (Bits(h) & ZMask) >> 4 }

  /** DNSHeader.RCODE: the low four bits. */
  function RCode(h: Header): (r: bv8)
    ensures r < 16
    ensures r as bv16 == Bits(h) & RCodeMask
  {
    (Bits(h) & RCodeMask) as bv8
  }

  /** Every bit outside `mask` is the same in both headers, and so is the id. */
  predicate SameOutside(a: Header, b: Header, mask: bv16) {
    a.id == b.id && Bits(a) & !mask == Bits(b) & !mask
  }

  // ---------------------------------------------------------------------
  // Setters
  // ---------------------------------------------------------------------

  /** SetQR: `true` marks a response. */
  function SetQR(h: Header, qr: bool): (r: Header)
    ensures QR(r) == qr
    ensures SameOutside(h, r, QRMask)
  {
    if qr then WithBits(h, Bits(h) | 0x8000) else WithBits(h, Bits(h) & 0x7FFF)
  }

  function SetOpcode(h: Header, opcode: bv8): (r: Header)
    ensures opcode < 16 ==> Opcode(r) == opcode as bv16 && SameOutside(h, r, OpcodeMask)
  {
    WithBits(h, (Bits(h) & 0x87FF) | ((opcode as bv16) << 11))
  }

  function SetAA(h: Header, aa: bool): (r: Header)
    ensures AA(r) == aa
    ensures SameOutside(h, r, AAMask)
  {
    if aa then WithBits(h, Bits(h) | 0x0400) else WithBits(h, Bits(h) & 0xFBFF)
  }

  function SetTC(h: Header, tc: bool): (r: Header)
    ensures TC(r) == tc
    ensures SameOutside(h, r, TCMask)
  {
    if tc then WithBits(h, Bits(h) | 0x0200) else WithBits(h, Bits(h) & 0xFDFF)
  }

  function SetRD(h: Header, rd: bool): (r: Header)
    ensures RD(r) == rd
    ensures SameOutside(h, r, RDMask)
  {
    if rd then WithBits(h, Bits(h) | 0x0100) else WithBits(h, Bits(h) & 0xFEFF)
  }

  function SetRA(h: Header, ra: bool): (r: Header)
    ensures RA(r) == ra
    ensures SameOutside(h, r, RAMask)
  {
    if ra then WithBits(h, Bits(h) | 0x0080) else WithBits(h, Bits(h) & 0xFF7F)
  }

  function SetZ(h: Header, z: bv8): (r: Header)
    ensures z < 8 ==> Z(r) == z as bv16 && SameOutside(h, r, ZMask)
  {
    WithBits(h, (Bits(h) & 0xFF8F) | ((z as bv16) << 4))
  }

  function SetRCode(h: Header, rcode: bv8): (r: Header)
    ensures rcode < 16 ==> RCode(r) == rcode && SameOutside(h, r, RCodeMask)
  {
    WithBits(h, (Bits(h) & 0xFFF0) | (rcode as bv16))
  }

  /** A Z value of 8 or more is not masked: it sets the RA bit too. */
  lemma SetZSpillsIntoRA(h: Header)
    ensures RA(SetZ(h, 8))
  {
  }

  /** An RCODE of 16 or more is not masked: 0x80 sets the RA bit. */
  lemma SetRCodeSpillsIntoRA(h: Header)
    ensures RA(SetRCode(h, 0x80))
  {
  }

  /** An opcode of 16 sets the QR bit: the shifted value is cut to 16 bits. */
  lemma SetOpcodeSpillsIntoQR(h: Header)
    ensures QR(SetOpcode(h, 16))
  {
  }

  /** Setters of different fields commute. */
  lemma SettersCommute(h: Header, qr: bool, rd: bool, rcode: bv8)
    requires rcode < 16
    ensures Bits(SetRCode(SetRD(SetQR(h, qr), rd), rcode)) == Bits(SetQR(SetRD(SetRCode(h, rcode), rd), qr))
    ensures SetRCode(SetRD(SetQR(h, qr), rd), rcode).id == h.id
  {
  }
}
