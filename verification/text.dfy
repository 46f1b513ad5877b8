/** String helpers with the semantics of Go's `strings` package and of the
    JavaScript `String.prototype` methods the model needs. */
module Text {

  // ---------------------------------------------------------------------
  // Prefixes, substrings
  // ---------------------------------------------------------------------

  predicate HasPrefix<T(==)>(s: seq<T>, p: seq<T>) {
    |p| <= |s| && s[..|p|] == p
  }

  predicate HasSuffix<T(==)>(s: seq<T>, p: seq<T>) {
    |p| <= |s| && s[|s| - |p|..] == p
  }

  /** strings.Contains */
  predicate Contains<T(==)>(s: seq<T>, sub: seq<T>)
    decreases |s|
  {
    HasPrefix(s, sub) || (|s| > 0 && Contains(s[1..], sub))
  }

  /** strings.TrimPrefix */
  function TrimPrefix<T(==)>(s: seq<T>, p: seq<T>): (r: seq<T>)
    ensures HasPrefix(s, p) ==> p + r == s
    ensures !HasPrefix(s, p) ==> r == s
  {
    if HasPrefix(s, p) then s[|p|..] else s
  }

  // ---------------------------------------------------------------------
  // Split and Join
  // ---------------------------------------------------------------------

  /** Index of the first occurrence of `x` in `s`. */
  function IndexOf<T(==)>(s: seq<T>, x: T): (i: nat)
    requires x in s
    ensures i < |s| && s[i] == x
    ensures x !in s[..i]
  {
    if s[0] == x then 0 else 1 + IndexOf(s[1..], x)
  }

  /** The inverse of Split: the parts with one `sep` between neighbours. */
  function JoinWith<T>(parts: seq<seq<T>>, sep: T): seq<T>
    requires |parts| >= 1
  {
    if |parts| == 1 then parts[0] else parts[0] + [sep] + JoinWith(parts[1..], sep)
  }

  /** strings.Split with a one-element separator. */
  function Split<T(==)>(s: seq<T>, sep: T): (r: seq<seq<T>>)
    ensures |r| >= 1
    ensures forall k | 0 <= k < |r| :: sep !in r[k]
    ensures JoinWith(r, sep) == s
    decreases |s|
  {
    if sep !in s then [s]
    else
      var i := IndexOf(s, sep);
      assert s == s[..i] + [sep] + s[i + 1..];
      [s[..i]] + Split(s[i + 1..], sep)
  }

  /** Splitting a sequence that holds no separator gives it back whole. */
  lemma SplitNoSep<T>(s: seq<T>, sep: T)
    requires sep !in s
    ensures Split(s, sep) == [s]
  {
  }

  /** The first separator of `a + [sep] + rest` is the one after `a`. */
  lemma {:induction false} IndexOfAfterPrefix<T>(a: seq<T>, sep: T, rest: seq<T>)
    requires sep !in a
    ensures sep in a + [sep] + rest
    ensures IndexOf(a + [sep] + rest, sep) == |a|
    decreases |a|
  {
    var s := a + [sep] + rest;
    assert s[|a|] == sep;
    if |a| > 0 {
      assert s[1..] == a[1..] + [sep] + rest;
      IndexOfAfterPrefix(a[1..], sep, rest);
    }
  }

  /** Split is the left inverse of JoinWith over separator-free parts. */
  lemma {:induction false} SplitJoin<T>(parts: seq<seq<T>>, sep: T)
    requires |parts| >= 1
    requires forall k | 0 <= k < |parts| :: sep !in parts[k]
    ensures Split(JoinWith(parts, sep), sep) == parts
    decreases |parts|
  {
    if |parts| > 1 {
      var rest := JoinWith(parts[1..], sep);
      var s := parts[0] + [sep] + rest;
      IndexOfAfterPrefix(parts[0], sep, rest);
      assert s[..|parts[0]|] == parts[0];
      assert s[|parts[0]| + 1..] == rest;
      SplitJoin(parts[1..], sep);
    }
  }

  /** strings.Join with a string separator. */
  function Join(parts: seq<string>, sep: string): string {
    if |parts| == 0 then ""
    else if |parts| == 1 then parts[0]
    else parts[0] + sep + Join(parts[1..], sep)
  }

  // ---------------------------------------------------------------------
  // White space
  // ---------------------------------------------------------------------

  /** unicode.IsSpace: the set Go's strings.TrimSpace and strings.Fields use. */
  predicate IsGoSpace(c: char) {
    c == '\t' || c == '\n' || c == '\U{000B}' || c == '\U{000C}' || c == '\r' || c == ' '
    || c == '\U{0085}' || c == '\U{00A0}' || c == '\U{1680}'
    || ('\U{2000}' <= c <= '\U{200A}')
    || c == '\U{2028}' || c == '\U{2029}' || c == '\U{202F}' || c == '\U{205F}' || c == '\U{3000}'
  }

  function TrimLeftSpace(s: string): (r: string)
    ensures |r| <= |s| && s[|s| - |r|..] == r
    ensures |r| > 0 ==> !IsGoSpace(r[0])
    ensures forall i | 0 <= i < |s| - |r| :: IsGoSpace(s[i])
  {
    if |s| > 0 && IsGoSpace(s[0]) then TrimLeftSpace(s[1..]) else s
  }

  function TrimRightSpace(s: string): (r: string)
    ensures |r| <= |s| && s[..|r|] == r
    ensures |r| > 0 ==> !IsGoSpace(r[|r| - 1])
    ensures forall i | |r| <= i < |s| :: IsGoSpace(s[i])
  {
    if |s| > 0 && IsGoSpace(s[|s| - 1]) then TrimRightSpace(s[..|s| - 1]) else s
  }

  /** strings.TrimSpace */
  function TrimSpace(s: string): (r: string)
    ensures |r| > 0 ==> !IsGoSpace(r[0]) && !IsGoSpace(r[|r| - 1])
    ensures r == "" <==> forall i | 0 <= i < |s| :: IsGoSpace(s[i])
  {
    var l := TrimLeftSpace(s);
    TrimRightSpace(l)
  }

  /** Length of the longest prefix of `s` free of white space. */
  function WordLength(s: string): (n: nat)
    ensures n <= |s|
    ensures forall i | 0 <= i < n :: !IsGoSpace(s[i])
    ensures n < |s| ==> IsGoSpace(s[n])
  {
    if |s| == 0 || IsGoSpace(s[0]) then 0 else 1 + WordLength(s[1..])
  }

  /** A non-empty run free of white space. */
  predicate IsWord(w: string) {
    |w| > 0 && forall i | 0 <= i < |w| :: !IsGoSpace(w[i])
  }

  /** strings.Fields: the maximal runs of non-space characters, in order. */
  function Fields(s: string): (r: seq<string>)
    ensures |r| <= |s|
    decreases |s|
  {
    var t := TrimLeftSpace(s);
    if |t| == 0 then []
    else
      var n := WordLength(t);
      [t[..n]] + Fields(t[n..])
  }

  /** The word at the head of a text that starts with a non-space. */
  lemma WordPrefix(t: string)
    requires |t| > 0 && !IsGoSpace(t[0])
    ensures IsWord(t[..WordLength(t)])
  {
    var n := WordLength(t);
    assert n >= 1;
    assert forall i | 0 <= i < n :: t[..n][i] == t[i];
  }

  lemma WordsCons(w: string, rest: seq<string>)
    requires IsWord(w) && forall k | 0 <= k < |rest| :: IsWord(rest[k])
    ensures forall k | 0 <= k < |[w] + rest| :: IsWord(([w] + rest)[k])
  {
    forall k | 0 <= k < |[w] + rest| ensures IsWord(([w] + rest)[k]) {
      if k > 0 {
        assert ([w] + rest)[k] == rest[k - 1];
      }
    }
  }

  /** Every field is a non-empty run free of white space. */
  lemma {:induction false} FieldsAreWords(s: string)
    ensures forall k | 0 <= k < |Fields(s)| :: IsWord(Fields(s)[k])
    decreases |s|
  {
    var t := TrimLeftSpace(s);
    if |t| > 0 {
      var n := WordLength(t);
      WordPrefix(t);
      FieldsAreWords(t[n..]);
      assert Fields(s) == [t[..n]] + Fields(t[n..]);
      hide Fields, IsWord, WordLength, TrimLeftSpace;
      WordsCons(t[..n], Fields(t[n..]));
    }
  }
}
