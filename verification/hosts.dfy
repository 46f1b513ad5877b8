/** ValidateIsHostFileFormat (internal/util/hosts.go): a hosts file is
    accepted when every line is blank, a comment, or has at least two
    fields; the result lists the second field of every entry line. */
module Hosts {
  import opened Wrappers
  import opened Text

  /** A line without the one carriage return bufio.ScanLines drops. */
  function DropCR(l: string): (r: string)
    ensures |l| > 0 && l[|l| - 1] == '\r' ==> r + "\r" == l
    ensures !(|l| > 0 && l[|l| - 1] == '\r') ==> r == l
  {
    if |l| > 0 && l[|l| - 1] == '\r' then l[..|l| - 1] else l
  }

  /** bufio.ScanLines: the text between newlines, with no empty line after
      a final newline. */
  function Lines(s: string): (r: seq<string>)
    ensures |r| <= |Split(s, '\n')|
  {
    var parts := Split(s, '\n');
    var kept := if parts[|parts| - 1] == "" then parts[..|parts| - 1] else parts;
    seq(|kept|, i requires 0 <= i < |kept| => DropCR(kept[i]))
  }

  /** What the loop makes of one line: blank and comment lines are
      skipped, an entry line gives its second field, any other line fails
      the whole file. */
  datatype LineKind = Skip | Host(name: string) | Bad

  function Classify(line: string): (k: LineKind)
    ensures k.Skip? <==> TrimSpace(line) == "" || HasPrefix(TrimSpace(line), "#")
  {
    var t := TrimSpace(line);
    if t == "" || HasPrefix(t, "#") then Skip
    else
      var f := Fields(t);
      if |f| < 2 then Bad else Host(f[1])
  }

  /** The loop over the lines: None is `(nil, false)`. */
  function HostsOf(lines: seq<string>): (r: Option<seq<string>>)
    ensures r.Some? ==> |r.value| <= |lines|
  {
    if |lines| == 0 then Some([])
    else
      var rest := HostsOf(lines[1..]);
      match Classify(lines[0])
      case Skip => rest
      case Bad => None
      case Host(h) =>
        match rest
        case None => None
        case Some(hs) => Some([h] + hs)
  }

  /** The file is accepted exactly when no line is bad. */
  lemma {:induction false} HostsOfAccepts(lines: seq<string>)
    ensures HostsOf(lines).Some? <==> forall i | 0 <= i < |lines| :: !Classify(lines[i]).Bad?
  {
    hide Classify, TrimSpace, Fields, IsGoSpace;
    if |lines| > 0 {
      HostsOfAccepts(lines[1..]);
      assert forall i | 1 <= i < |lines| :: lines[1..][i - 1] == lines[i];
    }
  }

  /** ValidateIsHostFileFormat */
  function ValidateHosts(content: string): (r: Option<seq<string>>)
    ensures r.Some? ==> |r.value| <= |Lines(content)|
  {
    HostsOf(Lines(content))
  }

  lemma ValidateAccepts(content: string)
    ensures ValidateHosts(content).Some? <==> forall l | l in Lines(content) :: !Classify(l).Bad?
  {
    var ls := Lines(content);
    assert forall i | 0 <= i < |ls| :: ls[i] in ls;
    HostsOfAccepts(ls);
  }

  /** Empty input, or only blank and comment lines, is accepted with no
      hosts. */
  lemma {:induction false} OnlySkippedLines(lines: seq<string>)
    requires forall i | 0 <= i < |lines| :: Classify(lines[i]).Skip?
    ensures HostsOf(lines) == Some([])
  {
    if |lines| > 0 {
      OnlySkippedLines(lines[1..]);
    }
  }

  lemma EmptyFile()
    ensures ValidateHosts("") == Some([])
  {
    assert Split("", '\n') == [""];
  }

  // ---------------------------------------------------------------------
  // Round trip through a rendered hosts file
  // ---------------------------------------------------------------------

  datatype Entry = Entry(address: string, name: string)

  predicate Renderable(e: Entry) {
    IsWord(e.address) && IsWord(e.name) && e.address[0] != '#'
  }

  function EntryLine(e: Entry): string {
    e.address + " " + e.name
  }

  function EntryLines(es: seq<Entry>): (r: seq<string>)
    ensures |r| == |es| && forall i | 0 <= i < |es| :: r[i] == EntryLine(es[i])
  {
    seq(|es|, i requires 0 <= i < |es| => EntryLine(es[i]))
  }

  function Names(es: seq<Entry>): (r: seq<string>)
    ensures |r| == |es| && forall i | 0 <= i < |es| :: r[i] == es[i].name
  {
    seq(|es|, i requires 0 <= i < |es| => es[i].name)
  }

  /** A hosts file with one "address name" line per entry. */
  function Render(es: seq<Entry>): string {
    JoinWith(EntryLines(es) + [""], '\n')
  }

  lemma {:induction false} WordLengthOf(w: string, rest: string)
    requires IsWord(w) && |rest| > 0 && IsGoSpace(rest[0])
    ensures WordLength(w + rest) == |w|
    decreases |w|
  {
    if |w| > 1 {
      assert (w + rest)[1..] == w[1..] + rest;
      WordLengthOf(w[1..], rest);
    }
  }

  lemma WordLengthWhole(w: string)
    requires IsWord(w)
    ensures WordLength(w) == |w|
  {
    WordLengthOf(w, " ");
    assert (w + " ")[..|w|] == w;
    WordLengthPrefix(w + " ", |w|);
  }

  lemma {:induction false} WordLengthPrefix(s: string, n: nat)
    requires n <= |s| && WordLength(s) == n
    ensures WordLength(s[..n]) == n
    decreases n
  {
    if n > 0 {
      assert s[..n][1..] == s[1..][..n - 1];
      WordLengthPrefix(s[1..], n - 1);
    }
  }

  lemma TrimmedAlready(l: string)
    requires |l| > 0 && !IsGoSpace(l[0]) && !IsGoSpace(l[|l| - 1])
    ensures TrimSpace(l) == l
  {
    assert TrimLeftSpace(l) == l;
  }

  lemma FieldsAfterSpace(s: string)
    requires |s| > 0 && IsGoSpace(s[0])
    ensures Fields(s) == Fields(s[1..])
  {
    assert TrimLeftSpace(s) == TrimLeftSpace(s[1..]);
  }

  lemma FieldsOfWord(a: string, rest: string)
    requires IsWord(a) && (rest == [] || IsGoSpace(rest[0]))
    ensures Fields(a + rest) == [a] + Fields(rest)
  {
    var l := a + rest;
    assert TrimLeftSpace(l) == l;
    if rest == [] {
      assert l == a;
      WordLengthWhole(a);
    } else {
      WordLengthOf(a, rest);
    }
    assert l[..|a|] == a && l[|a|..] == rest;
  }

  lemma SpaceThen(a: string, b: string)
    ensures IsGoSpace((" " + b)[0]) && (" " + b)[1..] == b
    ensures a + " " + b == a + (" " + b) && b + [] == b
  {
  }

  lemma FieldsEmpty()
    ensures Fields([]) == []
  {
  }

  lemma TwoFields(a: string, b: string)
    requires IsWord(a) && IsWord(b)
    ensures Fields(a + " " + b) == [a, b]
  {
    hide *;
    SpaceThen(a, b);
    FieldsEmpty();
    FieldsOfWord(a, " " + b);
    FieldsAfterSpace(" " + b);
    FieldsOfWord(b, []);
  }

  /** "address name" is an entry line with the name as its host. */
  lemma EntryLineHost(e: Entry)
    requires Renderable(e)
    ensures Classify(EntryLine(e)) == Host(e.name)
  {
    var l := EntryLine(e);
    assert l[0] == e.address[0] && l[|l| - 1] == e.name[|e.name| - 1];
    assert !IsGoSpace(l[0]) && !IsGoSpace(l[|l| - 1]);
    TrimmedAlready(l);
    TwoFields(e.address, e.name);
    NoHashPrefix(l);
    ClassifyEntry(l, e.address, e.name);
  }

  lemma NoHashPrefix(l: string)
    requires |l| > 0 && l[0] != '#'
    ensures !HasPrefix(l, "#")
  {
    assert l[..1] != "#" by { assert l[..1][0] == l[0]; }
  }

  /** A trimmed, non-comment line of two fields is an entry. */
  lemma ClassifyEntry(l: string, a: string, b: string)
    requires TrimSpace(l) == l && l != "" && !HasPrefix(l, "#") && Fields(l) == [a, b]
    ensures Classify(l) == Host(b)
  {
    hide TrimSpace, Fields, HasPrefix;
  }

  lemma HostsOfCons(lines: seq<string>, h: string, hs: seq<string>)
    requires |lines| > 0 && Classify(lines[0]) == Host(h) && HostsOf(lines[1..]) == Some(hs)
    ensures HostsOf(lines) == Some([h] + hs)
  {
    hide Classify;
  }

  lemma {:induction false} HostsOfEntries(es: seq<Entry>)
    requires forall i | 0 <= i < |es| :: Renderable(es[i])
    ensures HostsOf(EntryLines(es)) == Some(Names(es))
    decreases |es|
  {
    hide Classify, EntryLine, Renderable, IsWord, IsGoSpace, Fields, TrimSpace;
    if |es| > 0 {
      EntryLineHost(es[0]);
      assert EntryLines(es)[1..] == EntryLines(es[1..]);
      assert forall i | 0 <= i < |es[1..]| :: es[1..][i] == es[i + 1];
      HostsOfEntries(es[1..]);
      assert Names(es) == [es[0].name] + Names(es[1..]);
      HostsOfCons(EntryLines(es), es[0].name, Names(es[1..]));
    }
  }

  /** Validating a rendered file gives back the names, in order. */
  lemma RenderRoundTrip(es: seq<Entry>)
    requires forall i | 0 <= i < |es| :: Renderable(es[i])
    ensures ValidateHosts(Render(es)) == Some(Names(es))
  {
    var parts := EntryLines(es) + [""];
    forall k | 0 <= k < |parts| ensures '\n' !in parts[k] {
      if k < |es| {
        assert IsWord(es[k].address) && IsWord(es[k].name);
        assert parts[k] == es[k].address + " " + es[k].name;
      }
    }
    SplitJoin(parts, '\n');
    assert parts[..|parts| - 1] == EntryLines(es);
    forall i | 0 <= i < |es| ensures DropCR(EntryLines(es)[i]) == EntryLines(es)[i] {
      var l := EntryLine(es[i]);
      assert l[|l| - 1] == es[i].name[|es[i].name| - 1];
    }
    assert Lines(Render(es)) == EntryLines(es);
    HostsOfEntries(es);
  }
}
