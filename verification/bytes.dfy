/** Fixed-width integers and their byte encodings, as used by the Go
    `encoding/binary` package (big-endian) and by `nlenc` on a
    little-endian host. */
module Bytes {

  type byte = b: int | 0 <= b < 0x100
  type u16 = x: int | 0 <= x < 0x1_0000
  type u32 = x: int | 0 <= x < 0x1_0000_0000

  /** Go strings that the model treats as raw bytes (DNS names, lease ids). */
  type Bytes = seq<byte>

  /** n zero bytes, as `make([]byte, n)` gives them. */
  function Zeros(n: nat): (r: Bytes)
    ensures |r| == n && forall i | 0 <= i < n :: r[i] == 0
  {
    seq(n, i => 0)
  }

  // ---------------------------------------------------------------------
  // Big-endian (binary.BigEndian)
  // ---------------------------------------------------------------------

  function ReadBE16(s: Bytes): u16
    requires |s| >= 2
  {
    (s[0] as int) * 0x100 + s[1]
  }

  function ReadBE32(s: Bytes): u32
    requires |s| >= 4
  {
    (ReadBE16(s[0..2]) as int) * 0x1_0000 + ReadBE16(s[2..4])
  }

  /** binary.BigEndian.PutUint16 */
  function BE16(x: u16): (r: Bytes)
    ensures |r| == 2
    ensures ReadBE16(r) == x
  {
    [x / 0x100, x % 0x100]
  }

  /** binary.BigEndian.PutUint32 */
  function BE32(x: u32): (r: Bytes)
    ensures |r| == 4
    ensures ReadBE32(r) == x
  {
    var r := BE16(x / 0x1_0000) + BE16(x % 0x1_0000);
    assert r[0..2] == BE16(x / 0x1_0000) && r[2..4] == BE16(x % 0x1_0000);
    r
  }

  /** Division by 256 undoes `q * 256 + r`. */
  lemma DivMod256(q: nat, r: nat)
    requires r < 0x100
    ensures (q * 0x100 + r) / 0x100 == q && (q * 0x100 + r) % 0x100 == r
  {
  }

  /** Division by 65536 undoes `q * 65536 + r`. */
  lemma DivMod65536(q: nat, r: nat)
    requires r < 0x1_0000
    ensures (q * 0x1_0000 + r) / 0x1_0000 == q && (q * 0x1_0000 + r) % 0x1_0000 == r
  {
  }

  lemma BE16OfRead(s: Bytes)
    requires |s| == 2
    ensures BE16(ReadBE16(s)) == s
  {
    DivMod256(s[0], s[1]);
  }

  lemma BE32OfRead(s: Bytes)
    requires |s| == 4
    ensures BE32(ReadBE32(s)) == s
  {
    DivMod65536(ReadBE16(s[0..2]), ReadBE16(s[2..4]));
    BE16OfRead(s[0..2]);
    BE16OfRead(s[2..4]);
    assert s == s[0..2] + s[2..4];
  }

  // ---------------------------------------------------------------------
  // Little-endian (binary.LittleEndian, nlenc on x86/arm64 hosts)
  // ---------------------------------------------------------------------

  function ReadLE16(s: Bytes): u16
    requires |s| >= 2
  {
    (s[1] as int) * 0x100 + s[0]
  }

  function ReadLE32(s: Bytes): u32
    requires |s| >= 4
  {
    (ReadLE16(s[2..4]) as int) * 0x1_0000 + ReadLE16(s[0..2])
  }

  function LE16(x: u16): (r: Bytes)
    ensures |r| == 2
    ensures ReadLE16(r) == x
  {
    [x % 0x100, x / 0x100]
  }

  function LE32(x: u32): (r: Bytes)
    ensures |r| == 4
    ensures ReadLE32(r) == x
  {
    var r := LE16(x % 0x1_0000) + LE16(x / 0x1_0000);
    assert r[0..2] == LE16(x % 0x1_0000) && r[2..4] == LE16(x / 0x1_0000);
    r
  }

  lemma LE16OfRead(s: Bytes)
    requires |s| == 2
    ensures LE16(ReadLE16(s)) == s
  {
    DivMod256(s[1], s[0]);
  }

  lemma LE32OfRead(s: Bytes)
    requires |s| == 4
    ensures LE32(ReadLE32(s)) == s
  {
    DivMod65536(ReadLE16(s[2..4]), ReadLE16(s[0..2]));
    LE16OfRead(s[0..2]);
    LE16OfRead(s[2..4]);
    assert s == s[0..2] + s[2..4];
  }

  // ---------------------------------------------------------------------
  // Wrap-around conversions
  // ---------------------------------------------------------------------

  /** Go's `byte(n)` for a non-negative n. */
  function ToByte(n: nat): byte {
    n % 0x100
  }

  /** Go's `uint16(n)` for a non-negative n. */
  function ToU16(n: nat): u16 {
    n % 0x1_0000
  }

  // ---------------------------------------------------------------------
  // ASCII case folding (strings.EqualFold restricted to ASCII letters)
  // ---------------------------------------------------------------------

  function LowerByte(b: byte): byte {
    if 'A' as int <= b <= 'Z' as int then b + 32 else b
  }

  predicate EqualFold(a: Bytes, b: Bytes) {
    |a| == |b| && forall i | 0 <= i < |a| :: LowerByte(a[i]) == LowerByte(b[i])
  }

  lemma EqualFoldRefl(a: Bytes)
    ensures EqualFold(a, a)
  {
  }

  lemma EqualFoldSym(a: Bytes, b: Bytes)
    ensures EqualFold(a, b) == EqualFold(b, a)
  {
  }

  lemma EqualFoldTrans(a: Bytes, b: Bytes, c: Bytes)
    requires EqualFold(a, b) && EqualFold(b, c)
    ensures EqualFold(a, c)
  {
  }

  // ---------------------------------------------------------------------
  // Decimal text (fmt's %d)
  // ---------------------------------------------------------------------

  function DigitChar(d: nat): char
    requires d < 10
  {
    ('0' as int + d) as char
  }

  predicate IsDigit(c: char) {
    '0' <= c <= '9'
  }

  function DigitValue(c: char): nat
    requires IsDigit(c)
  {
    c as int - '0' as int
  }

  /** The value of a run of decimal digits. */
  function DigitsValue(s: string): nat
    requires forall i | 0 <= i < |s| :: IsDigit(s[i])
  {
    if |s| == 0 then 0 else DigitsValue(s[..|s| - 1]) * 10 + DigitValue(s[|s| - 1])
  }

  /** `fmt.Sprintf("%d", n)` for a natural number. */
  function Decimal(n: nat): (r: string)
    ensures |r| >= 1
    ensures forall i | 0 <= i < |r| :: IsDigit(r[i])
    ensures DigitsValue(r) == n
    ensures |r| > 1 ==> r[0] != '0'
  {
    if n < 10 then [DigitChar(n)] else Decimal(n / 10) + [DigitChar(n % 10)]
  }

  /** `fmt.Sprintf("%d", n)` for any integer. */
  function IntDecimal(n: int): (r: string)
    ensures |r| >= 1
    ensures n >= 0 ==> r == Decimal(n)
    ensures n < 0 ==> r == "-" + Decimal(-n)
  {
    if n >= 0 then Decimal(n) else "-" + Decimal(-n)
  }
}
