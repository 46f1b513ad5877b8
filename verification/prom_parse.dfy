/** The Prometheus text parser of internal/web/ui/src/lib/prometheus/prom.js
    (parseMetrics and parseLabels). Each regular expression is modelled as
    the search its backtracking matcher performs, in the same priority
    order, so that the groups are the ones JavaScript captures. parseFloat
    is a parameter. */
module PromParse {
  import opened Wrappers
  import opened Bytes
  import opened Text

  /** A JavaScript number as far as the page uses it. */
  datatype Num = NaN | Finite(x: real) | Infinity(negative: bool)

  // ---------------------------------------------------------------------
  // Character classes
  // ---------------------------------------------------------------------

  /** What `.` does not match. */
  predicate IsLineTerminator(c: char) {
    c == '\n' || c == '\r' || c == '\U{2028}' || c == '\U{2029}'
  }

  /** `\s`, which is also what String.prototype.trim removes. */
  predicate IsJsSpace(c: char) {
    || IsLineTerminator(c) || c == '\t' || c == '\U{000B}' || c == '\U{000C}' || c == ' '
    || c == '\U{00A0}' || c == '\U{FEFF}' || c == '\U{1680}' || ('\U{2000}' <= c <= '\U{200A}')
    || c == '\U{202F}' || c == '\U{205F}' || c == '\U{3000}'
  }

  predicate IsLetter(c: char) {
    'a' <= c <= 'z' || 'A' <= c <= 'Z'
  }

  /** `\w` */
  predicate IsWordChar(c: char) {
    IsLetter(c) || IsDigit(c) || c == '_'
  }

  /** `[a-zA-Z_:]` */
  predicate IsNameStart(c: char) {
    IsLetter(c) || c == '_' || c == ':'
  }

  /** `[a-zA-Z0-9_:]` */
  predicate IsNameChar(c: char) {
    IsNameStart(c) || IsDigit(c)
  }

  predicate NotSpace(c: char) {
    !IsJsSpace(c)
  }

  predicate NotLineTerminator(c: char) {
    !IsLineTerminator(c)
  }

  predicate NotQuote(c: char) {
    c != '"'
  }

  /** How many leading characters of `t` are in the class: what a greedy
      `[class]*` consumes. */
  function Span(t: string, cls: char -> bool): (n: nat)
    ensures n <= |t|
    ensures forall k | 0 <= k < n :: cls(t[k])
    ensures n < |t| ==> !cls(t[n])
  {
    if |t| > 0 && cls(t[0]) then 1 + Span(t[1..], cls) else 0
  }

  lemma {:induction false} SpanOf(a: string, b: string, cls: char -> bool)
    requires forall k | 0 <= k < |a| :: cls(a[k])
    requires b == [] || !cls(b[0])
    ensures Span(a + b, cls) == |a|
  {
    if |a| > 0 {
      assert (a + b)[1..] == a[1..] + b;
      SpanOf(a[1..], b, cls);
    } else {
      assert a + b == b;
    }
  }

  // ---------------------------------------------------------------------
  // HELP and TYPE lines
  // ---------------------------------------------------------------------

  const HelpTag := "# HELP "
  const TypeTag := "# TYPE "

  /** `# HELP (\S+) (.+)` or `# TYPE (\S+) (\S+)` tried at the start of
      `t`: the tag, the longest run of non-space characters, one space,
      and the longest non-empty run of the `tail` class. A shorter name
      would be followed by a non-space, not by the space the pattern
      needs, so backtracking finds nothing else. */
  function DirectiveAt(tag: string, tail: char -> bool, t: string): (r: Option<(string, string)>)
    ensures r.Some? ==> |r.value.0| > 0 && |r.value.1| > 0
  {
    if !HasPrefix(t, tag) then None
    else
      var u := t[|tag|..];
      var n := Span(u, NotSpace);
      if n == 0 || n == |u| || u[n] != ' ' then None
      else
        var v := u[n + 1..];
        var h := Span(v, tail);
        if h == 0 then None else Some((u[..n], v[..h]))
  }

  /** An unanchored match: the first start position that matches. */
  function Search(tag: string, tail: char -> bool, t: string): (r: Option<(string, string)>)
    decreases |t|
  {
    match DirectiveAt(tag, tail, t)
    case Some(m) => Some(m)
    case None => if |t| == 0 then None else Search(tag, tail, t[1..])
  }

  function MatchHelp(line: string): Option<(string, string)> {
    Search(HelpTag, NotLineTerminator, line)
  }

  function MatchType(line: string): Option<(string, string)> {
    Search(TypeTag, NotSpace, line)
  }

  // ---------------------------------------------------------------------
  // Sample lines: ^([a-zA-Z_:][a-zA-Z0-9_:]*?)(\{.*?\})?\s+(.+?)(\s+\d+)?$
  // ---------------------------------------------------------------------

  /** `(\s+\d+)?$` on what follows the value: nothing, or spaces and then
      digits to the end. */
  predicate TimestampOrEnd(u: string) {
    u == [] || (var s := Span(u, IsJsSpace); 0 < s < |u| && forall k | s <= k < |u| :: IsDigit(u[k]))
  }

  /** `(.+?)(\s+\d+)?$` on `u`, the lazy value tried from length `m` up. */
  function LazyValue(u: string, m: nat): (r: Option<string>)
    requires 1 <= m
    decreases |u| - m
  {
    if m > |u| || IsLineTerminator(u[m - 1]) then None
    else if TimestampOrEnd(u[m..]) then Some(u[..m])
    else LazyValue(u, m + 1)
  }

  /** `\s+(.+?)(\s+\d+)?$` on `t`, the greedy separator tried from `k`
      characters down to one. */
  function SpacedValue(t: string, k: nat): (r: Option<string>)
    requires k <= |t|
  {
    if k == 0 then None
    else
      match LazyValue(t[k..], 1)
      case Some(v) => Some(v)
      case None => SpacedValue(t, k - 1)
  }

  function MatchTail(t: string): Option<string> {
    SpacedValue(t, Span(t, IsJsSpace))
  }

  /** `(\{.*?\})` on `t` (which starts with '{'), followed by the rest of
      the pattern: the first '}' from `j` on, before any line terminator,
      after which the rest matches. The index of that '}' and the value. */
  function Braces(t: string, j: nat): (r: Option<(nat, string)>)
    requires 1 <= j
    ensures r.Some? ==> j <= r.value.0 < |t| && t[r.value.0] == '}'
    decreases |t| - j
  {
    if j >= |t| || IsLineTerminator(t[j]) then None
    else if t[j] == '}' then
      match MatchTail(t[j + 1..])
      case Some(v) => Some((j, v))
      case None => Braces(t, j + 1)
    else Braces(t, j + 1)
  }

  datatype SampleMatch = SampleMatch(name: string, labels: Option<string>, value: string)

  /** The sample pattern on a line. The lazy name group can only stop
      where '{' or a space follows, and no name character is either, so
      the name is the longest run of name characters. The optional label
      group is tried before it is skipped. */
  function MatchSample(line: string): (r: Option<SampleMatch>)
    ensures r.Some? ==> |r.value.name| > 0 && HasPrefix(line, r.value.name)
  {
    if |line| == 0 || !IsNameStart(line[0]) then None
    else
      var n := Span(line, IsNameChar);
      var t := line[n..];
      var braces := if |t| > 0 && t[0] == '{' then Braces(t, 1) else None;
      match braces
      case Some((c, v)) => Some(SampleMatch(line[..n], Some(t[..c + 1]), v))
      case None =>
        match MatchTail(t)
        case Some(v) => Some(SampleMatch(line[..n], None, v))
        case None => None
  }

  // ---------------------------------------------------------------------
  // parseLabels: /(\w+)="([^"]*)"/g
  // ---------------------------------------------------------------------

  /** The label pattern at the start of `t`: key, value and the number of
      characters consumed. */
  function LabelAt(t: string): (r: Option<(string, string, nat)>)
    ensures r.Some? ==> 4 <= r.value.2 <= |t|
  {
    var w := Span(t, IsWordChar);
    if w == 0 || w + 2 > |t| || t[w] != '=' || t[w + 1] != '"' then None
    else
      var v := t[w + 2..];
      var q := Span(v, NotQuote);
      if q == |v| then None else Some((t[..w], v[..q], w + q + 3))
  }

  /** The successive matches of the global regular expression. */
  function ScanLabels(t: string): seq<(string, string)>
    decreases |t|
  {
    if |t| == 0 then []
    else
      match LabelAt(t)
      case Some((k, v, n)) => [(k, v)] + ScanLabels(t[n..])
      case None => ScanLabels(t[1..])
  }

  /** Assigning the pairs in order into an object. */
  function ToMap(pairs: seq<(string, string)>): (m: map<string, string>)
    ensures forall i | 0 <= i < |pairs| :: pairs[i].0 in m
    ensures forall k | k in m :: exists i | 0 <= i < |pairs| :: pairs[i].0 == k
  {
    if |pairs| == 0 then map[]
    else
      var last := pairs[|pairs| - 1];
      var m := ToMap(pairs[..|pairs| - 1]);
      assert forall i | 0 <= i < |pairs| - 1 :: pairs[..|pairs| - 1][i] == pairs[i];
      m[last.0 := last.1]
  }

  /** A key maps to the value of its last pair. */
  lemma {:induction false} ToMapLastWins(pairs: seq<(string, string)>, i: nat)
    requires i < |pairs|
    requires forall j | i < j < |pairs| :: pairs[j].0 != pairs[i].0
    ensures ToMap(pairs)[pairs[i].0] == pairs[i].1
  {
    if i < |pairs| - 1 {
      var init := pairs[..|pairs| - 1];
      assert init[i] == pairs[i];
      assert forall j | i < j < |init| :: init[j] == pairs[j];
      ToMapLastWins(init, i);
    }
  }

  function ParseLabels(s: string): map<string, string> {
    ToMap(ScanLabels(s))
  }

  // ---------------------------------------------------------------------
  // parseMetrics
  // ---------------------------------------------------------------------

  datatype Sample = Sample(labels: map<string, string>, value: Num)

  datatype Family = Family(help: string, kind: string, values: seq<Sample>)

  type Metrics = map<string, Family>

  const NewFamily := Family("", "", [])

  /** The family of a name, a fresh one when absent. */
  function Entry(m: Metrics, name: string): Family {
    if name in m then m[name] else NewFamily
  }

  /** `!line.trim()`: nothing but white space. */
  predicate Blank(line: string) {
    forall k | 0 <= k < |line| :: IsJsSpace(line[k])
  }

  /** Blank lines and comments other than HELP and TYPE. */
  predicate Skipped(line: string) {
    Blank(line) || (HasPrefix(line, "#") && !HasPrefix(line, "# HELP") && !HasPrefix(line, "# TYPE"))
  }

  function SampleValue(text: string, parseFloat: string -> Num): (r: Num)
    ensures text == "NaN" ==> r == NaN
  {
    if text == "NaN" then NaN else parseFloat(text)
  }

  /** Which branch of the loop body a line takes. */
  datatype LineKind = SkipLine | HelpDirective | TypeDirective | SampleCandidate

  function KindOf(line: string): (r: LineKind)
    ensures r == SkipLine <==> Skipped(line)
    ensures r == HelpDirective <==> !Skipped(line) && HasPrefix(line, "# HELP")
    ensures r == TypeDirective <==> !Skipped(line) && !HasPrefix(line, "# HELP") && HasPrefix(line, "# TYPE")
  {
    if Skipped(line) then SkipLine
    else if HasPrefix(line, "# HELP") then HelpDirective
    else if HasPrefix(line, "# TYPE") then TypeDirective
    else SampleCandidate
  }

  /** One pass of the loop over the lines. */
  function ParseLine(m: Metrics, line: string, parseFloat: string -> Num): (r: Metrics)
    ensures Skipped(line) ==> r == m
    ensures m.Keys <= r.Keys && |r.Keys - m.Keys| <= 1
  {
    match KindOf(line)
    case SkipLine => m
    case HelpDirective =>
      (match MatchHelp(line)
       case None => m
       case Some((name, help)) => m[name := Entry(m, name).(help := help)])
    case TypeDirective =>
      (match MatchType(line)
       case None => m
       case Some((name, kind)) => m[name := Entry(m, name).(kind := kind)])
    case SampleCandidate =>
      match MatchSample(line)
      case None => m
      case Some(s) =>
        var labels := if s.labels.Some? then ParseLabels(s.labels.value) else map[];
        var e := Entry(m, s.name);
        m[s.name := e.(values := e.values + [Sample(labels, SampleValue(s.value, parseFloat))])]
  }

  function ParseLines(lines: seq<string>, m: Metrics, parseFloat: string -> Num): (r: Metrics)
    ensures m.Keys <= r.Keys
  {
    if |lines| == 0 then m else ParseLines(lines[1..], ParseLine(m, lines[0], parseFloat), parseFloat)
  }

  /** parseMetrics */
  function ParseMetrics(text: string, parseFloat: string -> Num): Metrics {
    ParseLines(Split(text, '\n'), map[], parseFloat)
  }

  /** The lines are processed in order: parsing a concatenation continues
      from the first part's result. */
  lemma {:induction false} ParseLinesAppend(a: seq<string>, b: seq<string>, m: Metrics, parseFloat: string -> Num)
    ensures ParseLines(a + b, m, parseFloat) == ParseLines(b, ParseLines(a, m, parseFloat), parseFloat)
  {
    if |a| > 0 {
      assert (a + b)[0] == a[0] && (a + b)[1..] == a[1..] + b;
      ParseLinesAppend(a[1..], b, ParseLine(m, a[0], parseFloat), parseFloat);
    } else {
      assert a + b == b;
    }
  }

  lemma UpdateOnly(m: Metrics, name: string, f: Family)
    ensures var r := m[name := f];
            r.Keys == m.Keys + {name} && r[name] == f && forall k | k in m && k != name :: r[k] == m[k]
  {
  }

  lemma HelpKind(line: string)
    requires HasPrefix(line, "# HELP")
    ensures KindOf(line) == HelpDirective
  {
    assert !Blank(line) by {
      assert !IsJsSpace(line[0]);
    }
  }

  lemma TypeKind(line: string)
    requires HasPrefix(line, "# TYPE")
    ensures KindOf(line) == TypeDirective
  {
    assert !Blank(line) by {
      assert !IsJsSpace(line[0]);
    }
    assert !HasPrefix(line, "# HELP") by {
      assert line[2] == 'T';
    }
  }

  lemma HelpStep(m: Metrics, line: string, parseFloat: string -> Num)
    requires KindOf(line) == HelpDirective && MatchHelp(line).Some?
    ensures ParseLine(m, line, parseFloat)
            == m[MatchHelp(line).value.0 := Entry(m, MatchHelp(line).value.0).(help := MatchHelp(line).value.1)]
  {
    hide KindOf, MatchHelp, MatchType, MatchSample, ParseLabels;
  }

  lemma TypeStep(m: Metrics, line: string, parseFloat: string -> Num)
    requires KindOf(line) == TypeDirective && MatchType(line).Some?
    ensures ParseLine(m, line, parseFloat)
            == m[MatchType(line).value.0 := Entry(m, MatchType(line).value.0).(kind := MatchType(line).value.1)]
  {
    hide KindOf, MatchHelp, MatchType, MatchSample, ParseLabels;
  }

  /** A HELP line that matches sets the help text of its family, creating
      the family if needed, and changes nothing else. */
  lemma HelpSetsOnlyHelp(m: Metrics, line: string, parseFloat: string -> Num)
    requires HasPrefix(line, "# HELP") && MatchHelp(line).Some?
    ensures var (name, help) := MatchHelp(line).value;
            var r := ParseLine(m, line, parseFloat);
            && r.Keys == m.Keys + {name}
            && r[name] == Entry(m, name).(help := help)
            && forall k | k in m && k != name :: r[k] == m[k]
  {
    HelpKind(line);
    HelpStep(m, line, parseFloat);
    var (name, help) := MatchHelp(line).value;
    UpdateOnly(m, name, Entry(m, name).(help := help));
  }

  /** A TYPE line that matches sets the type of its family, creating the
      family if needed, and changes nothing else. */
  lemma TypeSetsOnlyType(m: Metrics, line: string, parseFloat: string -> Num)
    requires HasPrefix(line, "# TYPE") && MatchType(line).Some?
    ensures var (name, kind) := MatchType(line).value;
            var r := ParseLine(m, line, parseFloat);
            && r.Keys == m.Keys + {name}
            && r[name] == Entry(m, name).(kind := kind)
            && forall k | k in m && k != name :: r[k] == m[k]
  {
    TypeKind(line);
    TypeStep(m, line, parseFloat);
    var (name, kind) := MatchType(line).value;
    UpdateOnly(m, name, Entry(m, name).(kind := kind));
  }

  // ---------------------------------------------------------------------
  // Lines as an exporter writes them
  // ---------------------------------------------------------------------

  predicate MetricName(n: string) {
    |n| > 0 && IsNameStart(n[0]) && forall k | 0 <= k < |n| :: IsNameChar(n[k])
  }

  predicate LabelName(k: string) {
    |k| > 0 && forall i | 0 <= i < |k| :: IsWordChar(k[i])
  }

  /** A label value that fits between the quotes and the braces. */
  predicate LabelValue(v: string) {
    forall i | 0 <= i < |v| :: v[i] != '"' && v[i] != '}' && !IsLineTerminator(v[i])
  }

  predicate LabelPairs(ps: seq<(string, string)>) {
    forall i | 0 <= i < |ps| :: LabelName(ps[i].0) && LabelValue(ps[i].1)
  }

  /** A value token: non-empty, no white space. */
  predicate Token(v: string) {
    |v| > 0 && forall i | 0 <= i < |v| :: !IsJsSpace(v[i])
  }

  predicate Timestamp(ts: string) {
    |ts| > 0 && forall i | 0 <= i < |ts| :: IsDigit(ts[i])
  }

  function PairText(p: (string, string)): string {
    p.0 + ("=\"" + (p.1 + "\""))
  }

  function PairsText(ps: seq<(string, string)>): string
    requires |ps| > 0
  {
    if |ps| == 1 then PairText(ps[0]) else PairText(ps[0]) + ("," + PairsText(ps[1..]))
  }

  function LabelBlock(ps: seq<(string, string)>): string {
    if |ps| == 0 then "" else "{" + (PairsText(ps) + "}")
  }

  /** " value" or " value timestamp". */
  function ValuePart(value: string, ts: string): string {
    " " + (value + (if ts == "" then "" else " " + ts))
  }

  function SampleLine(name: string, ps: seq<(string, string)>, value: string, ts: string): string {
    name + (LabelBlock(ps) + ValuePart(value, ts))
  }

  function HelpLine(name: string, help: string): string {
    HelpTag + (name + (" " + help))
  }

  function TypeLine(name: string, kind: string): string {
    TypeTag + (name + (" " + kind))
  }

  lemma DirectiveOf(tag: string, tail: char -> bool, name: string, text: string)
    requires |name| > 0 && forall i | 0 <= i < |name| :: !IsJsSpace(name[i])
    requires |text| > 0 && forall i | 0 <= i < |text| :: tail(text[i])
    ensures DirectiveAt(tag, tail, tag + (name + (" " + text))) == Some((name, text))
  {
    var t := tag + (name + (" " + text));
    assert t[..|tag|] == tag;
    var u := t[|tag|..];
    assert u == name + (" " + text);
    SpanOf(name, " " + text, NotSpace);
    assert u[..|name|] == name && u[|name|] == ' ';
    var v := u[|name| + 1..];
    assert v == text + [];
    SpanOf(text, [], tail);
    assert v[..|text|] == text;
  }

  /** A HELP line written by an exporter is read back as its name and
      text. */
  lemma HelpLineRoundTrip(name: string, help: string)
    requires |name| > 0 && forall i | 0 <= i < |name| :: !IsJsSpace(name[i])
    requires |help| > 0 && forall i | 0 <= i < |help| :: !IsLineTerminator(help[i])
    ensures MatchHelp(HelpLine(name, help)) == Some((name, help))
  {
    DirectiveOf(HelpTag, NotLineTerminator, name, help);
  }

  lemma TypeLineRoundTrip(name: string, kind: string)
    requires |name| > 0 && forall i | 0 <= i < |name| :: !IsJsSpace(name[i])
    requires Token(kind)
    ensures MatchType(TypeLine(name, kind)) == Some((name, kind))
  {
    DirectiveOf(TypeTag, NotSpace, name, kind);
  }

  lemma {:induction false} LazyValueStops(value: string, rest: string, m: nat)
    requires Token(value) && 1 <= m <= |value|
    requires TimestampOrEnd(rest)
    ensures LazyValue(value + rest, m) == Some(value)
    decreases |value| - m
  {
    var u := value + rest;
    assert u[m - 1] == value[m - 1];
    if m < |value| {
      assert u[m..] == value[m..] + rest;
      assert u[m..][0] == value[m];
      assert Span(u[m..], IsJsSpace) == 0;
      LazyValueStops(value, rest, m + 1);
    } else {
      assert u[..m] == value && u[m..] == rest;
    }
  }

  /** The value is the token after the space, with or without a
      timestamp after it. */
  lemma TailOf(value: string, ts: string)
    requires Token(value) && (ts == "" || Timestamp(ts))
    ensures MatchTail(ValuePart(value, ts)) == Some(value)
  {
    var rest := if ts == "" then "" else " " + ts;
    var t := ValuePart(value, ts);
    assert t == " " + (value + rest);
    SpanOf(" ", value + rest, IsJsSpace);
    assert t[1..] == value + rest;
    if ts != "" {
      SpanOf(" ", ts, IsJsSpace);
    }
    LazyValueStops(value, rest, 1);
  }

  predicate BraceFree(s: string) {
    forall i | 0 <= i < |s| :: s[i] != '}' && !IsLineTerminator(s[i])
  }

  lemma BraceFreeAppend(a: string, b: string)
    requires BraceFree(a) && BraceFree(b)
    ensures BraceFree(a + b)
  {
    assert forall i | |a| <= i < |a + b| :: (a + b)[i] == b[i - |a|];
  }

  lemma {:induction false} PairsBraceFree(ps: seq<(string, string)>)
    requires |ps| > 0 && LabelPairs(ps)
    ensures BraceFree(PairsText(ps))
  {
    var p := ps[0];
    assert LabelName(p.0) && LabelValue(p.1);
    assert BraceFree(p.0);
    assert BraceFree("=\"");
    assert BraceFree(p.1);
    assert BraceFree("\"");
    BraceFreeAppend(p.1, "\"");
    BraceFreeAppend("=\"", p.1 + "\"");
    BraceFreeAppend(p.0, "=\"" + (p.1 + "\""));
    if |ps| > 1 {
      PairsBraceFree(ps[1..]);
      BraceFreeAppend(",", PairsText(ps[1..]));
      BraceFreeAppend(PairText(p), "," + PairsText(ps[1..]));
    }
  }

  lemma {:induction false} BracesSkip(t: string, j: nat, c: nat)
    requires 1 <= j <= c < |t| && t[c] == '}'
    requires forall k | j <= k < c :: t[k] != '}' && !IsLineTerminator(t[k])
    requires MatchTail(t[c + 1..]).Some?
    ensures Braces(t, j) == Some((c, MatchTail(t[c + 1..]).value))
    decreases c - j
  {
    if j < c {
      BracesSkip(t, j + 1, c);
    }
  }

  /** The label block ends at its own closing brace. */
  lemma BracesOf(ps: seq<(string, string)>, value: string, ts: string)
    requires |ps| > 0 && LabelPairs(ps)
    requires Token(value) && (ts == "" || Timestamp(ts))
    ensures var t := LabelBlock(ps) + ValuePart(value, ts);
            Braces(t, 1) == Some((|PairsText(ps)| + 1, value))
  {
    hide Braces, PairsText, ValuePart, MatchTail, LabelPairs, Token, Timestamp;
    var t := LabelBlock(ps) + ValuePart(value, ts);
    PairsBraceFree(ps);
    BlockSlices(PairsText(ps), ValuePart(value, ts));
    assert t == "{" + (PairsText(ps) + ("}" + ValuePart(value, ts)));
    TailOf(value, ts);
    BracesSkip(t, 1, |PairsText(ps)| + 1);
  }

  /** In `{p}u` with `p` brace-free, the first '}' is the one after `p`. */
  lemma BlockSlices(p: string, u: string)
    requires BraceFree(p)
    ensures var t := "{" + (p + ("}" + u)); var c := |p| + 1;
            && c < |t| && t[c] == '}' && t[c + 1..] == u
            && forall k | 1 <= k < c :: t[k] != '}' && !IsLineTerminator(t[k])
  {
    var t := "{" + (p + ("}" + u));
    var c := |p| + 1;
    assert forall k | 1 <= k < c :: t[k] == p[k - 1];
    assert t[c + 1..] == u;
  }

  /** A sample line written by an exporter is matched as its name, label
      block and value. */
  lemma SampleLineMatches(name: string, ps: seq<(string, string)>, value: string, ts: string)
    requires MetricName(name) && LabelPairs(ps)
    requires Token(value) && (ts == "" || Timestamp(ts))
    ensures MatchSample(SampleLine(name, ps, value, ts))
            == Some(SampleMatch(name, if ps == [] then None else Some(LabelBlock(ps)), value))
  {
    var line := SampleLine(name, ps, value, ts);
    var t := LabelBlock(ps) + ValuePart(value, ts);
    assert line == name + t;
    assert t[0] == (if ps == [] then ' ' else '{');
    SpanOf(name, t, IsNameChar);
    assert line[0] == name[0];
    assert line[..|name|] == name && line[|name|..] == t;
    if ps == [] {
      assert t == ValuePart(value, ts);
      TailOf(value, ts);
    } else {
      BracesOf(ps, value, ts);
      assert t[..|PairsText(ps)| + 2] == LabelBlock(ps);
    }
  }

  /** One written pair is one match, after which scanning goes on right
      behind its closing quote. */
  lemma ScanPair(p: (string, string), rest: string)
    requires LabelName(p.0) && LabelValue(p.1)
    ensures ScanLabels(PairText(p) + rest) == [p] + ScanLabels(rest)
  {
    hide LabelAt, PairText, LabelName, LabelValue;
    var t := PairText(p) + rest;
    LabelAtPair(p, rest);
    PairTextSlices(p, rest);
    ScanMatch(t);
  }

  /** Where a match is found, scanning records it and goes on after it. */
  lemma ScanMatch(t: string)
    requires LabelAt(t).Some?
    ensures var m := LabelAt(t).value;
            ScanLabels(t) == [(m.0, m.1)] + ScanLabels(t[m.2..])
  {
  }

  /** The pieces of a written pair followed by `rest`. */
  lemma PairTextSlices(p: (string, string), rest: string)
    ensures var t := PairText(p) + rest;
            && t == p.0 + ("=\"" + (p.1 + ("\"" + rest)))
            && t[|p.0|] == '=' && t[|p.0| + 1] == '"' && t[..|p.0|] == p.0
            && t[|p.0| + 2..] == p.1 + ("\"" + rest)
            && t[|p.0| + |p.1| + 3..] == rest
  {
    var t := PairText(p) + rest;
    assert t == p.0 + ("=\"" + (p.1 + ("\"" + rest)));
    assert t[|p.0| + |p.1| + 3..] == rest;
  }

  /** The label pattern reads a written pair as its key and value. */
  lemma LabelAtPair(p: (string, string), rest: string)
    requires LabelName(p.0) && LabelValue(p.1)
    ensures LabelAt(PairText(p) + rest) == Some((p.0, p.1, |p.0| + |p.1| + 3))
  {
    hide PairText;
    var t := PairText(p) + rest;
    PairTextSlices(p, rest);
    SpanOf(p.0, "=\"" + (p.1 + ("\"" + rest)), IsWordChar);
    var v := t[|p.0| + 2..];
    SpanOf(p.1, "\"" + rest, NotQuote);
    assert v[..|p.1|] == p.1;
  }

  lemma ScanSeparator(c: char, rest: string)
    requires !IsWordChar(c)
    ensures ScanLabels([c] + rest) == ScanLabels(rest)
  {
    assert ([c] + rest)[1..] == rest;
  }

  lemma {:induction false} ScanPairs(ps: seq<(string, string)>)
    requires |ps| > 0 && LabelPairs(ps)
    ensures ScanLabels(PairsText(ps) + "}") == ps
  {
    var p := ps[0];
    assert LabelName(p.0) && LabelValue(p.1);
    if |ps| == 1 {
      ScanPair(p, "}");
      ScanSeparator('}', []);
      assert "}" == ['}'] + [];
    } else {
      assert LabelPairs(ps[1..]);
      ScanPairs(ps[1..]);
      ScanPairsStep(ps);
    }
  }

  /** The first pair, the comma, then the rest of the block. */
  lemma ScanPairsStep(ps: seq<(string, string)>)
    requires |ps| > 1 && LabelName(ps[0].0) && LabelValue(ps[0].1)
    requires ScanLabels(PairsText(ps[1..]) + "}") == ps[1..]
    ensures ScanLabels(PairsText(ps) + "}") == ps
  {
    hide ScanLabels, PairText, PairsText, LabelName, LabelValue;
    var tail := PairsText(ps[1..]) + "}";
    PairsTextCons(ps);
    ScanPair(ps[0], "," + tail);
    ScanSeparator(',', tail);
    assert ps == [ps[0]] + ps[1..];
  }

  lemma PairsTextCons(ps: seq<(string, string)>)
    requires |ps| > 1
    ensures PairsText(ps) + "}" == PairText(ps[0]) + ("," + (PairsText(ps[1..]) + "}"))
  {
  }

  /** parseLabels on a written label block gives back the pairs, a later
      duplicate key winning. */
  lemma LabelsRoundTrip(ps: seq<(string, string)>)
    requires LabelPairs(ps)
    ensures ParseLabels(LabelBlock(ps)) == ToMap(ps)
  {
    if |ps| > 0 {
      var t := LabelBlock(ps);
      assert LabelAt(t) == None;
      assert t[1..] == PairsText(ps) + "}";
      ScanPairs(ps);
    }
  }

  lemma SampleKind(name: string, ps: seq<(string, string)>, value: string, ts: string)
    requires MetricName(name)
    ensures KindOf(SampleLine(name, ps, value, ts)) == SampleCandidate
  {
    var line := SampleLine(name, ps, value, ts);
    assert line[0] == name[0];
    assert !Blank(line) && !HasPrefix(line, "#");
  }

  /** Reading a written sample line appends its labels and value to its
      family, creating it if needed; nothing else changes. */
  lemma SampleLineAppends(m: Metrics, name: string, ps: seq<(string, string)>, value: string, ts: string,
                          parseFloat: string -> Num)
    requires MetricName(name) && LabelPairs(ps)
    requires Token(value) && (ts == "" || Timestamp(ts))
    ensures var r := ParseLine(m, SampleLine(name, ps, value, ts), parseFloat);
            && r.Keys == m.Keys + {name}
            && r[name] == Entry(m, name).(values := Entry(m, name).values
                                          + [Sample(ToMap(ps), SampleValue(value, parseFloat))])
            && forall k | k in m && k != name :: r[k] == m[k]
  {
    var line := SampleLine(name, ps, value, ts);
    SampleLineMatches(name, ps, value, ts);
    SampleKind(name, ps, value, ts);
    if ps != [] {
      LabelsRoundTrip(ps);
    }
    hide SampleLine, KindOf, MatchSample, ParseLabels, ToMap;
    var f := Entry(m, name).(values := Entry(m, name).values + [Sample(ToMap(ps), SampleValue(value, parseFloat))]);
    SampleStep(m, line, parseFloat, name, ToMap(ps), value);
    UpdateOnly(m, name, f);
  }

  lemma SampleStep(m: Metrics, line: string, parseFloat: string -> Num, name: string, labels: map<string, string>, value: string)
    requires KindOf(line) == SampleCandidate && MatchSample(line).Some?
    requires MatchSample(line).value.name == name && MatchSample(line).value.value == value
    requires (if MatchSample(line).value.labels.Some? then ParseLabels(MatchSample(line).value.labels.value) else map[]) == labels
    ensures ParseLine(m, line, parseFloat)
            == m[name := Entry(m, name).(values := Entry(m, name).values + [Sample(labels, SampleValue(value, parseFloat))])]
  {
    hide KindOf, MatchHelp, MatchType, MatchSample, ParseLabels;
  }

  /** parseMetrics reads the lines of a text joined by newlines one after
      another, from an empty result. */
  lemma ParseMetricsOfLines(lines: seq<string>, parseFloat: string -> Num)
    requires |lines| >= 1 && forall k | 0 <= k < |lines| :: '\n' !in lines[k]
    ensures ParseMetrics(JoinWith(lines, '\n'), parseFloat) == ParseLines(lines, map[], parseFloat)
  {
    SplitJoin(lines, '\n');
  }

  /** A family as an exporter writes it, HELP then TYPE then one sample,
      is read back as that family and nothing else. */
  lemma FamilyRoundTrip(name: string, help: string, kind: string, ps: seq<(string, string)>, value: string, ts: string,
                        parseFloat: string -> Num)
    requires MetricName(name) && LabelPairs(ps)
    requires |help| > 0 && forall i | 0 <= i < |help| :: !IsLineTerminator(help[i])
    requires Token(kind) && Token(value) && (ts == "" || Timestamp(ts))
    ensures ParseMetrics(JoinWith([HelpLine(name, help), TypeLine(name, kind), SampleLine(name, ps, value, ts)], '\n'), parseFloat)
            == map[name := Family(help, kind, [Sample(ToMap(ps), SampleValue(value, parseFloat))])]
  {
    FamilyLines(name, help, kind, ps, value, ts, parseFloat);
    FamilyUpdates(name, help, kind, ps, value, ts, parseFloat);
  }

  lemma FamilyLines(name: string, help: string, kind: string, ps: seq<(string, string)>, value: string, ts: string,
                    parseFloat: string -> Num)
    requires MetricName(name) && LabelPairs(ps)
    requires |help| > 0 && forall i | 0 <= i < |help| :: !IsLineTerminator(help[i])
    requires Token(kind) && Token(value) && (ts == "" || Timestamp(ts))
    ensures ParseMetrics(JoinWith([HelpLine(name, help), TypeLine(name, kind), SampleLine(name, ps, value, ts)], '\n'), parseFloat)
            == ParseLine(ParseLine(ParseLine(map[], HelpLine(name, help), parseFloat), TypeLine(name, kind), parseFloat),
                         SampleLine(name, ps, value, ts), parseFloat)
  {
    var l1, l2, l3 := HelpLine(name, help), TypeLine(name, kind), SampleLine(name, ps, value, ts);
    NoNewlines(name, help, kind, ps, value, ts);
    ParseMetricsOfLines([l1, l2, l3], parseFloat);
    ParseThree(l1, l2, l3, map[], parseFloat);
  }

  lemma FamilyUpdates(name: string, help: string, kind: string, ps: seq<(string, string)>, value: string, ts: string,
                      parseFloat: string -> Num)
    requires MetricName(name) && LabelPairs(ps)
    requires |help| > 0 && forall i | 0 <= i < |help| :: !IsLineTerminator(help[i])
    requires Token(kind) && Token(value) && (ts == "" || Timestamp(ts))
    ensures ParseLine(ParseLine(ParseLine(map[], HelpLine(name, help), parseFloat), TypeLine(name, kind), parseFloat),
                      SampleLine(name, ps, value, ts), parseFloat)
            == map[name := Family(help, kind, [Sample(ToMap(ps), SampleValue(value, parseFloat))])]
  {
    var l1, l2, l3 := HelpLine(name, help), TypeLine(name, kind), SampleLine(name, ps, value, ts);
    DirectivePrefixes(name, help, kind);
    assert forall i | 0 <= i < |name| :: !IsJsSpace(name[i]);
    HelpLineRoundTrip(name, help);
    TypeLineRoundTrip(name, kind);
    hide HelpLine, TypeLine, SampleLine, MatchHelp, MatchType, MatchSample;
    HelpSetsOnlyHelp(map[], l1, parseFloat);
    var m1 := ParseLine(map[], l1, parseFloat);
    TypeSetsOnlyType(m1, l2, parseFloat);
    var m2 := ParseLine(m1, l2, parseFloat);
    SampleLineAppends(m2, name, ps, value, ts, parseFloat);
    var m3 := ParseLine(m2, l3, parseFloat);
    hide ParseLine, SampleValue, ToMap;
    ThreeUpdates(m1, m2, m3, name, help, kind, Sample(ToMap(ps), SampleValue(value, parseFloat)));
  }

  lemma ThreeUpdates(m1: Metrics, m2: Metrics, m3: Metrics, name: string, help: string, kind: string, s: Sample)
    requires m1.Keys == {} + {name} && m1[name] == NewFamily.(help := help)
    requires m2.Keys == m1.Keys + {name} && m2[name] == Entry(m1, name).(kind := kind)
    requires m3.Keys == m2.Keys + {name} && m3[name] == Entry(m2, name).(values := Entry(m2, name).values + [s])
    ensures m3 == map[name := Family(help, kind, [s])]
  {
    assert Entry(m1, name) == Family(help, "", []);
    assert Entry(m2, name) == Family(help, kind, []);
    assert m3.Keys == {name} && m3[name] == Family(help, kind, [s]);
  }

  lemma DirectivePrefixes(name: string, help: string, kind: string)
    ensures HasPrefix(HelpLine(name, help), "# HELP") && HasPrefix(TypeLine(name, kind), "# TYPE")
  {
    assert HelpLine(name, help)[..6] == "# HELP";
    assert TypeLine(name, kind)[..6] == "# TYPE";
  }

  lemma ParseThree(l1: string, l2: string, l3: string, m: Metrics, parseFloat: string -> Num)
    ensures ParseLines([l1, l2, l3], m, parseFloat)
            == ParseLine(ParseLine(ParseLine(m, l1, parseFloat), l2, parseFloat), l3, parseFloat)
  {
    hide *;
    var m1 := ParseLine(m, l1, parseFloat);
    var m2 := ParseLine(m1, l2, parseFloat);
    ParseLinesCons([l1, l2, l3], m, parseFloat);
    ParseLinesCons([l2, l3], m1, parseFloat);
    ParseLinesCons([l3], m2, parseFloat);
    ParseLinesCons([], ParseLine(m2, l3, parseFloat), parseFloat);
    assert [l1, l2, l3][1..] == [l2, l3] && [l2, l3][1..] == [l3] && [l3][1..] == [];
  }

  lemma ParseLinesCons(lines: seq<string>, m: Metrics, parseFloat: string -> Num)
    ensures |lines| == 0 ==> ParseLines(lines, m, parseFloat) == m
    ensures |lines| > 0 ==> ParseLines(lines, m, parseFloat)
                            == ParseLines(lines[1..], ParseLine(m, lines[0], parseFloat), parseFloat)
  {
  }

  lemma NoNewlines(name: string, help: string, kind: string, ps: seq<(string, string)>, value: string, ts: string)
    requires MetricName(name) && LabelPairs(ps)
    requires forall i | 0 <= i < |help| :: !IsLineTerminator(help[i])
    requires Token(kind) && Token(value) && (ts == "" || Timestamp(ts))
    ensures '\n' !in HelpLine(name, help) && '\n' !in TypeLine(name, kind) && '\n' !in SampleLine(name, ps, value, ts)
  {
    if ps != [] {
      PairsBraceFree(ps);
      assert '\n' !in PairsText(ps);
    }
    assert '\n' !in LabelBlock(ps);
    assert '\n' !in ValuePart(value, ts);
  }
}
