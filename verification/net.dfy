/** IP address helpers with the semantics of Go's `net` package, and the
    dotted-quad regular expression the web validators use. */
module Net {
  import opened Wrappers
  import opened Bytes
  import opened Text

  /** The 12-byte prefix of an IPv4-mapped IPv6 address. */
  const V4InV6Prefix: Bytes := [0, 0, 0, 0, 0, 0, 0, 0, 0, 0, 0xff, 0xff]

  /** net.IP.Equal: equal bytes, or the same IPv4 address in 4- and 16-byte form. */
  predicate IpEqual(a: Bytes, b: Bytes) {
    if |a| == |b| then a == b
    else if |a| == 4 && |b| == 16 then b[..12] == V4InV6Prefix && b[12..] == a
    else if |a| == 16 && |b| == 4 then a[..12] == V4InV6Prefix && a[12..] == b
    else false
  }

  /** net.IP.To4: the 4-byte form, or nil for anything that is not IPv4. */
  function To4(ip: Bytes): (r: Option<Bytes>)
    ensures r.Some? ==> |r.value| == 4 && IpEqual(r.value, ip)
    ensures |ip| == 4 ==> r == Some(ip)
  {
    if |ip| == 4 then Some(ip)
    else if |ip| == 16 && ip[..12] == V4InV6Prefix then Some(ip[12..])
    else None
  }

  /** The IPv4 address 0.0.0.0 (net.IPv4zero). */
  const Zero4: Bytes := [0, 0, 0, 0]

  // ---------------------------------------------------------------------
  // The regular expression
  //   ^(([0-9]|[1-9][0-9]|1[0-9]{2}|2[0-4][0-9]|25[0-5])\.){3}
  //    ([0-9]|[1-9][0-9]|1[0-9]{2}|2[0-4][0-9]|25[0-5])$
  // ---------------------------------------------------------------------

  /** One alternative of the octet group matches the whole of `t`. */
  predicate OctetText(t: string) {
    || (|t| == 1 && IsDigit(t[0]))
    || (|t| == 2 && '1' <= t[0] <= '9' && IsDigit(t[1]))
    || (|t| == 3 && t[0] == '1' && IsDigit(t[1]) && IsDigit(t[2]))
    || (|t| == 3 && t[0] == '2' && '0' <= t[1] <= '4' && IsDigit(t[2]))
    || (|t| == 3 && t[0] == '2' && t[1] == '5' && '0' <= t[2] <= '5')
  }

  /** The anchored regular expression matches `s`. No octet alternative
      contains a dot, so a match splits `s` at exactly its three dots. */
  predicate IsDottedQuad(s: string) {
    var f := Split(s, '.');
    |f| == 4 && OctetText(f[0]) && OctetText(f[1]) && OctetText(f[2]) && OctetText(f[3])
  }

  // ---------------------------------------------------------------------
  // net.ParseIP(s).To4() on dotted-quad text
  // ---------------------------------------------------------------------

  predicate AllDigits(t: string) {
    forall i | 0 <= i < |t| :: IsDigit(t[i])
  }

  /** One field of Go's IPv4 parser: non-empty decimal digits, no leading
      zero, value at most 255. */
  function OctetValue(t: string): (r: Option<byte>)
    ensures r.Some? ==> AllDigits(t) && r.value == DigitsValue(t)
  {
    if |t| == 0 || !AllDigits(t) || (|t| > 1 && t[0] == '0') then None
    else if DigitsValue(t) > 255 then None
    else Some(DigitsValue(t))
  }

  /** net.ParseIP(s).To4() for text without a colon. */
  function ParseIPv4(s: string): (r: Option<Bytes>)
    ensures r.Some? ==> |r.value| == 4
  {
    var f := Split(s, '.');
    if |f| != 4 then None
    else
      var a, b, c, d := OctetValue(f[0]), OctetValue(f[1]), OctetValue(f[2]), OctetValue(f[3]);
      if a.Some? && b.Some? && c.Some? && d.Some? then Some([a.value, b.value, c.value, d.value])
      else None
  }

  /** net.IP.String for a 4-byte address. */
  function FormatIPv4(ip: Bytes): string
    requires |ip| == 4
  {
    Decimal(ip[0]) + "." + Decimal(ip[1]) + "." + Decimal(ip[2]) + "." + Decimal(ip[3])
  }

  function Pow10(n: nat): nat {
    if n == 0 then 1 else 10 * Pow10(n - 1)
  }

  lemma {:induction false} DigitsValueLower(t: string)
    requires |t| >= 1 && AllDigits(t) && t[0] != '0'
    ensures DigitsValue(t) >= Pow10(|t| - 1)
    decreases |t|
  {
    if |t| > 1 {
      var p := t[..|t| - 1];
      assert p[0] == t[0];
      DigitsValueLower(p);
    } else {
      assert t[..0] == [];
    }
  }

  lemma DigitsValue3(t: string)
    requires |t| == 3 && AllDigits(t)
    ensures DigitsValue(t) == 100 * DigitValue(t[0]) + 10 * DigitValue(t[1]) + DigitValue(t[2])
  {
    var p := t[..2];
    assert DigitsValue(t) == DigitsValue(p) * 10 + DigitValue(t[2]);
    DigitsValue2(p);
  }

  lemma DigitsValue2(t: string)
    requires |t| == 2 && AllDigits(t)
    ensures DigitsValue(t) == 10 * DigitValue(t[0]) + DigitValue(t[1])
  {
    var p := t[..1];
    assert DigitsValue(t) == DigitsValue(p) * 10 + DigitValue(t[1]);
    DigitsValue1(p);
  }

  lemma DigitsValue1(t: string)
    requires |t| == 1 && AllDigits(t)
    ensures DigitsValue(t) == DigitValue(t[0])
  {
    assert t[..0] == [];
  }

  /** The octet alternatives accept exactly the fields Go's parser accepts. */
  lemma OctetTextIsOctetValue(t: string)
    ensures OctetText(t) <==> OctetValue(t).Some?
  {
    if |t| >= 4 && AllDigits(t) && t[0] != '0' {
      DigitsValueLower(t);
      assert Pow10(3) == 1000;
      assert Pow10(|t| - 1) >= 1000 by { Pow10Mono(3, |t| - 1); }
    } else if |t| == 3 && AllDigits(t) {
      DigitsValue3(t);
    } else if |t| == 2 && AllDigits(t) {
      DigitsValue2(t);
    } else if |t| == 1 && AllDigits(t) {
      DigitsValue1(t);
    }
  }

  lemma {:induction false} Pow10Mono(a: nat, b: nat)
    requires a <= b
    ensures Pow10(a) <= Pow10(b)
    decreases b
  {
    if a < b {
      Pow10Mono(a, b - 1);
    }
  }

  /** The validators' regular expression matches exactly the strings that
      Go's parser turns into a 4-byte address. */
  lemma DottedQuadIffParses(s: string)
    ensures IsDottedQuad(s) <==> ParseIPv4(s).Some?
  {
    var f := Split(s, '.');
    if |f| == 4 {
      OctetTextIsOctetValue(f[0]);
      OctetTextIsOctetValue(f[1]);
      OctetTextIsOctetValue(f[2]);
      OctetTextIsOctetValue(f[3]);
    }
  }

  lemma DecimalHasNoDot(n: nat)
    ensures '.' !in Decimal(n)
  {
    var d := Decimal(n);
    assert forall i | 0 <= i < |d| :: d[i] != '.' by {
      forall i | 0 <= i < |d| ensures d[i] != '.' {
        assert IsDigit(d[i]);
      }
    }
  }

  /** The decimal text of a byte is an octet field with that value. */
  lemma DecimalOctet(n: byte)
    ensures OctetValue(Decimal(n)) == Some(n) && '.' !in Decimal(n)
  {
    DecimalHasNoDot(n);
  }

  lemma JoinFour(a: string, b: string, c: string, d: string)
    ensures JoinWith([a, b, c, d], '.') == a + "." + b + "." + c + "." + d
  {
    var parts := [a, b, c, d];
    assert parts[1..][1..][1..] == [d];
    assert JoinWith(parts[1..][1..], '.') == c + ['.'] + d;
    assert JoinWith(parts[1..], '.') == b + ['.'] + (c + ['.'] + d);
  }

  /** The printed address splits at its dots into the four decimal fields. */
  lemma SplitFormat(ip: Bytes)
    requires |ip| == 4
    ensures Split(FormatIPv4(ip), '.') == [Decimal(ip[0]), Decimal(ip[1]), Decimal(ip[2]), Decimal(ip[3])]
  {
    var parts := [Decimal(ip[0]), Decimal(ip[1]), Decimal(ip[2]), Decimal(ip[3])];
    DecimalHasNoDot(ip[0]);
    DecimalHasNoDot(ip[1]);
    DecimalHasNoDot(ip[2]);
    DecimalHasNoDot(ip[3]);
    JoinFour(parts[0], parts[1], parts[2], parts[3]);
    SplitJoin(parts, '.');
  }

  /** Printing an address and parsing the text back yields the address. */
  lemma FormatParseIPv4(ip: Bytes)
    requires |ip| == 4
    ensures ParseIPv4(FormatIPv4(ip)) == Some(ip)
  {
    hide Decimal, Split, FormatIPv4, OctetValue;
    SplitFormat(ip);
    DecimalOctet(ip[0]);
    DecimalOctet(ip[1]);
    DecimalOctet(ip[2]);
    DecimalOctet(ip[3]);
    assert [ip[0], ip[1], ip[2], ip[3]] == ip;
  }
}
