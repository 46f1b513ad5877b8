/** formatDuration (internal/system/system_linux.go): the uptime shown as
    non-zero days, hours, minutes and seconds joined by ":". A duration is
    an int64 count of nanoseconds; the float conversions of d.Hours(),
    d.Minutes() and d.Seconds() are taken to be exact before `int(...)`
    truncates them. */
module Duration {
  import opened Wrappers
  import opened Bytes
  import opened Text

  const Second: int := 1_000_000_000
  const Minute: int := 60 * Second
  const Hour: int := 60 * Minute

  /** Go's integer division, truncating toward zero. */
  function Quot(a: int, b: int): (q: int)
    requires b > 0
    ensures a >= 0 ==> q == a / b
    ensures a < 0 ==> q <= 0
  {
    if a >= 0 then a / b else -((-a) / b)
  }

  /** Go's `%`: the remainder takes the sign of the dividend. */
  function Rem(a: int, b: int): (r: int)
    requires b > 0
    ensures a >= 0 ==> r == a % b
    ensures a < 0 ==> -b < r <= 0
  {
    a - b * Quot(a, b)
  }

  datatype Parts = Parts(days: int, hours: int, minutes: int, seconds: int)

  /** days, hours, minutes and seconds as formatDuration computes them. */
  function Components(d: int): (c: Parts)
    ensures d >= 0 ==> 0 <= c.days && 0 <= c.hours < 24 && 0 <= c.minutes < 60 && 0 <= c.seconds < 60
    ensures d < 0 ==> c.days <= 0 && c.hours <= 0 && c.minutes <= 0 && c.seconds <= 0
  {
    var h := Quot(d, Hour);
    Parts(Quot(h, 24), Rem(h, 24), Rem(Quot(d, Minute), 60), Rem(Quot(d, Second), 60))
  }

  /** The piece of one component: its number and unit, when positive. */
  function Piece(n: int, unit: char): (r: seq<string>)
    ensures n > 0 ==> r == [Decimal(n) + [unit]]
    ensures n <= 0 ==> r == []
  {
    if n > 0 then [Decimal(n) + [unit]] else []
  }

  function Pieces(c: Parts): seq<string> {
    Piece(c.days, 'd') + Piece(c.hours, 'h') + Piece(c.minutes, 'm') + Piece(c.seconds, 's')
  }

  /** formatDuration */
  function FormatDuration(d: int): (r: string)
    ensures d == 0 ==> r == "0s"
  {
    if d == 0 then "0s" else Join(Pieces(Components(d)), ":")
  }

  /** The components add back up to the whole seconds. */
  lemma ComponentsSum(d: int)
    requires d >= 0
    ensures var c := Components(d);
            86400 * c.days + 3600 * c.hours + 60 * c.minutes + c.seconds == d / Second
  {
    var s := d / Second;
    assert d / Minute == s / 60 by {
      DivDiv(d, Second, 60);
    }
    assert d / Hour == s / 3600 by {
      DivDiv(d, Second, 3600);
    }
    var c := Components(d);
    assert c.days == s / 3600 / 24 && c.hours == s / 3600 % 24;
    assert c.minutes == s / 60 % 60 && c.seconds == s % 60;
    assert s / 3600 == 24 * (s / 3600 / 24) + s / 3600 % 24;
    assert s / 60 == 60 * (s / 3600) + s / 60 % 60 by {
      DivDiv(s, 60, 60);
    }
  }

  lemma DivUnique(a: int, b: int, q: int, r: int)
    requires b > 0 && a == b * q + r && 0 <= r < b
    ensures a / b == q
  {
    var k := a / b - q;
    assert b * k == r - a % b by {
      MulAdd(b, a / b, -q);
    }
    if k >= 1 {
      MulMono(b, 1, k);
    } else if k <= -1 {
      MulMono(b, k, -1);
    }
  }

  lemma DivDiv(a: nat, b: nat, c: nat)
    requires b > 0 && c > 0
    ensures a / (b * c) == a / b / c
  {
    var q, r := a / b, a % b;
    var q2, r2 := q / c, q % c;
    assert a == b * q + r;
    assert q == c * q2 + r2;
    assert b * q == (b * c) * q2 + b * r2 by {
      MulAdd(b, c * q2, r2);
      assert b * (c * q2) == (b * c) * q2;
    }
    assert b * r2 <= b * (c - 1) by {
      MulMono(b, r2, c - 1);
    }
    assert b * (c - 1) == b * c - b;
    DivUnique(a, b * c, q2, b * r2 + r);
  }

  lemma MulAdd(a: int, b: int, c: int)
    ensures a * (b + c) == a * b + a * c
  {
  }

  lemma MulMono(a: nat, x: int, y: int)
    requires x <= y
    ensures a * x <= a * y
  {
  }

  /** Below one second, and for negative durations, nothing is printed. */
  lemma NothingBelowOneSecond(d: int)
    requires d != 0 && d < Second
    ensures FormatDuration(d) == ""
  {
    var c := Components(d);
    if d > 0 {
      ComponentsSum(d);
    }
    assert c.days <= 0 && c.hours <= 0 && c.minutes <= 0 && c.seconds <= 0;
    assert Pieces(c) == [];
  }

  // ---------------------------------------------------------------------
  // Reading the text back
  // ---------------------------------------------------------------------

  function UnitSeconds(u: char): Option<nat> {
    if u == 'd' then Some(86400)
    else if u == 'h' then Some(3600)
    else if u == 'm' then Some(60)
    else if u == 's' then Some(1)
    else None
  }

  /** "<digits><unit>" as seconds. */
  function PieceSeconds(p: string): Option<nat> {
    if |p| < 2 || exists i | 0 <= i < |p| - 1 :: !IsDigit(p[i]) then None
    else
      match UnitSeconds(p[|p| - 1])
      case None => None
      case Some(k) => Some(DigitsValue(p[..|p| - 1]) * k)
  }

  function SumPieces(ps: seq<string>): Option<nat> {
    if |ps| == 0 then Some(0)
    else
      match (PieceSeconds(ps[0]), SumPieces(ps[1..]))
      case (Some(a), Some(b)) => Some(a + b)
      case _ => None
  }

  /** The number of whole seconds a formatted duration stands for. */
  function ParseDuration(s: string): Option<nat> {
    if s == "" then Some(0) else SumPieces(Split(s, ':'))
  }

  lemma {:induction false} SumAppend(a: seq<string>, b: seq<string>)
    ensures SumPieces(a + b)
            == match (SumPieces(a), SumPieces(b))
               case (Some(x), Some(y)) => Some(x + y)
               case _ => None
  {
    if |a| == 0 {
      assert a + b == b;
    } else {
      assert (a + b)[1..] == a[1..] + b;
      SumAppend(a[1..], b);
    }
  }

  lemma PieceValue(n: int, unit: char)
    requires n >= 0 && UnitSeconds(unit).Some?
    ensures SumPieces(Piece(n, unit)) == Some(n * UnitSeconds(unit).value)
  {
    if n > 0 {
      var p := Decimal(n) + [unit];
      assert p[..|p| - 1] == Decimal(n);
      assert PieceSeconds(p) == Some(n * UnitSeconds(unit).value);
      assert Piece(n, unit)[1..] == [];
    }
  }

  lemma JoinIsJoinWith(parts: seq<string>, sep: char)
    requires |parts| >= 1
    ensures Join(parts, [sep]) == JoinWith(parts, sep)
  {
    if |parts| > 1 {
      JoinIsJoinWith(parts[1..], sep);
    }
  }

  /** A printed piece is at least a digit and a unit, and holds no ':'. */
  predicate Plain(ps: seq<string>) {
    forall k | 0 <= k < |ps| :: |ps[k]| >= 2 && ':' !in ps[k]
  }

  lemma PiecePlain(n: int, unit: char)
    requires unit != ':'
    ensures Plain(Piece(n, unit))
  {
    if n > 0 {
      var p := Decimal(n) + [unit];
      assert forall i | 0 <= i < |p| - 1 :: IsDigit(p[i]);
      assert Piece(n, unit) == [p];
    }
  }

  lemma PlainAppend(a: seq<string>, b: seq<string>)
    requires Plain(a) && Plain(b)
    ensures Plain(a + b)
  {
    assert forall k | |a| <= k < |a + b| :: (a + b)[k] == b[k - |a|];
  }

  lemma PiecesPlain(c: Parts)
    ensures Plain(Pieces(c))
  {
    PiecePlain(c.days, 'd');
    PiecePlain(c.hours, 'h');
    PiecePlain(c.minutes, 'm');
    PiecePlain(c.seconds, 's');
    PlainAppend(Piece(c.days, 'd'), Piece(c.hours, 'h'));
    PlainAppend(Piece(c.days, 'd') + Piece(c.hours, 'h'), Piece(c.minutes, 'm'));
    PlainAppend(Piece(c.days, 'd') + Piece(c.hours, 'h') + Piece(c.minutes, 'm'), Piece(c.seconds, 's'));
  }

  /** The pieces stand for the whole seconds of the duration. */
  lemma PiecesSum(d: int)
    requires d >= 0
    ensures SumPieces(Pieces(Components(d))) == Some(d / Second)
  {
    var c := Components(d);
    ComponentsSum(d);
    PieceValue(c.days, 'd');
    PieceValue(c.hours, 'h');
    PieceValue(c.minutes, 'm');
    PieceValue(c.seconds, 's');
    SumAppend(Piece(c.days, 'd'), Piece(c.hours, 'h'));
    SumAppend(Piece(c.days, 'd') + Piece(c.hours, 'h'), Piece(c.minutes, 'm'));
    SumAppend(Piece(c.days, 'd') + Piece(c.hours, 'h') + Piece(c.minutes, 'm'), Piece(c.seconds, 's'));
  }

  /** Reading the printed text back gives the whole seconds of every
      non-negative duration. */
  lemma FormatParse(d: int)
    requires d >= 0
    ensures ParseDuration(FormatDuration(d)) == Some(d / Second)
  {
    if d != 0 {
      var ps := Pieces(Components(d));
      PiecesSum(d);
      PiecesPlain(Components(d));
      if |ps| > 0 {
        JoinIsJoinWith(ps, ':');
        SplitJoin(ps, ':');
        assert FormatDuration(d) == JoinWith(ps, ':');
        assert FormatDuration(d) != "" by {
          assert Split("", ':') == [""];
        }
        assert ParseDuration(FormatDuration(d)) == SumPieces(ps);
      } else {
        assert FormatDuration(d) == "";
      }
    } else {
      SplitNoSep("0s", ':');
      assert "0s"[..1] == "0" && IsDigit('0') && DigitsValue("0") == 0;
      assert PieceSeconds("0s") == Some(0);
    }
  }
}
