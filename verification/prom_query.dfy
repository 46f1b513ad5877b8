/** The queries of PrometheusMetricsService in
    internal/web/ui/src/lib/prometheus/prom.js. Each query fetches the
    exposition text and parses it; the fetched text is a parameter, as are
    parseFloat and the floating-point division the histogram average
    performs. */
module PromQuery {
  import opened Wrappers
  import opened Text
  import opened PromParse

  // ---------------------------------------------------------------------
  // The sort comparator
  // ---------------------------------------------------------------------

  /** `a - b < 0`, the comparator `(a, b) => a.upperBound - b.upperBound`
      asking for a before b. The sign of a floating-point difference is
      the sign of the exact one; a NaN difference (a NaN operand, or two
      infinities of one sign) counts as equal. */
  predicate Less(a: Num, b: Num) {
    match (a, b)
    case (Finite(x), Finite(y)) => x < y
    case (Infinity(n), Finite(_)) => n
    case (Finite(_), Infinity(n)) => !n
    case (Infinity(n), Infinity(m)) => n && !m
    case _ => false
  }

  /** Without NaN the comparator is a strict total order. */
  lemma LessOrder(a: Num, b: Num, c: Num)
    ensures !Less(a, a)
    ensures Less(a, b) && Less(b, c) ==> Less(a, c)
    ensures !a.NaN? && !b.NaN? ==> Less(a, b) || Less(b, a) || a == b
  {
  }

  // ---------------------------------------------------------------------
  // Buckets
  // ---------------------------------------------------------------------

  datatype Bucket = Bucket(upperBound: Num, count: Num)

  /** `v.labels.le !== "+Inf"` fails. */
  predicate InfBucket(s: Sample) {
    "le" in s.labels && s.labels["le"] == "+Inf"
  }

  /** `{ upperBound: parseFloat(v.labels.le), count: v.value }`; a missing
      `le` is parseFloat(undefined), NaN. */
  function BucketOf(s: Sample, parseFloat: string -> Num): Bucket {
    Bucket(if "le" in s.labels then parseFloat(s.labels["le"]) else NaN, s.value)
  }

  /** The filter and the map, before sorting. */
  function Candidates(values: seq<Sample>, parseFloat: string -> Num): (r: seq<Bucket>)
    ensures |r| <= |values|
  {
    if |values| == 0 then []
    else (if InfBucket(values[0]) then [] else [BucketOf(values[0], parseFloat)]) + Candidates(values[1..], parseFloat)
  }

  /** A bucket is a candidate exactly when it is made from a sample whose
      `le` is not "+Inf". */
  lemma {:induction false} CandidatesIff(values: seq<Sample>, parseFloat: string -> Num, b: Bucket)
    ensures b in Candidates(values, parseFloat)
            <==> exists i | 0 <= i < |values| :: !InfBucket(values[i]) && BucketOf(values[i], parseFloat) == b
  {
    if |values| > 0 {
      CandidatesIff(values[1..], parseFloat, b);
      assert forall i | 1 <= i < |values| :: values[1..][i - 1] == values[i];
      if b in Candidates(values[1..], parseFloat) {
        var i :| 0 <= i < |values[1..]| && !InfBucket(values[1..][i]) && BucketOf(values[1..][i], parseFloat) == b;
        assert values[i + 1] == values[1..][i];
      }
    }
  }

  /** Stable insertion of x into a sequence already in order: after every
      bucket it does not precede. */
  function Insert(x: Bucket, s: seq<Bucket>): (r: seq<Bucket>)
    ensures multiset(r) == multiset(s) + multiset{x}
  {
    if |s| == 0 then [x]
    else if Less(x.upperBound, s[0].upperBound) then [x] + s
    else
      assert s == [s[0]] + s[1..];
      [s[0]] + Insert(x, s[1..])
  }

  /** `.sort(...)`, as the insertion of each bucket in turn. */
  function SortBuckets(s: seq<Bucket>): (r: seq<Bucket>)
    ensures multiset(r) == multiset(s)
  {
    if |s| == 0 then []
    else
      assert s == s[..|s| - 1] + [s[|s| - 1]];
      Insert(s[|s| - 1], SortBuckets(s[..|s| - 1]))
  }

  predicate Sorted(s: seq<Bucket>) {
    forall i, j | 0 <= i < j < |s| :: !Less(s[j].upperBound, s[i].upperBound)
  }

  predicate NoNaN(s: seq<Bucket>) {
    forall b | b in s :: !b.upperBound.NaN?
  }

  lemma {:induction false} InsertSorted(x: Bucket, s: seq<Bucket>)
    requires Sorted(s) && NoNaN(s) && !x.upperBound.NaN?
    ensures Sorted(Insert(x, s))
  {
    if |s| > 0 {
      var r := Insert(x, s);
      if Less(x.upperBound, s[0].upperBound) {
        forall j | 0 <= j < |s| ensures !Less(s[j].upperBound, x.upperBound) {
          LessOrder(s[j].upperBound, x.upperBound, s[0].upperBound);
        }
      } else {
        InsertSorted(x, s[1..]);
        var t := Insert(x, s[1..]);
        forall k | 0 <= k < |t| ensures !Less(t[k].upperBound, s[0].upperBound) {
          assert t[k] in multiset(s[1..]) + multiset{x};
          if t[k] != x {
            assert t[k] in s[1..];
          }
        }
      }
    }
  }

  lemma {:induction false} SortSorted(s: seq<Bucket>)
    requires NoNaN(s)
    ensures Sorted(SortBuckets(s))
  {
    if |s| > 0 {
      var p := s[..|s| - 1];
      assert forall b | b in p :: b in s;
      SortSorted(p);
      var q := SortBuckets(p);
      assert forall b | b in q :: b in multiset(p);
      assert s[|s| - 1] in s;
      InsertSorted(s[|s| - 1], q);
    }
  }

  /** The buckets whose upper bound is v, in order. */
  function Keep(s: seq<Bucket>, v: Num): seq<Bucket> {
    if |s| == 0 then [] else (if s[0].upperBound == v then [s[0]] else []) + Keep(s[1..], v)
  }

  lemma {:induction false} KeepAppend(a: seq<Bucket>, b: seq<Bucket>, v: Num)
    ensures Keep(a + b, v) == Keep(a, v) + Keep(b, v)
  {
    if |a| > 0 {
      assert (a + b)[0] == a[0] && (a + b)[1..] == a[1..] + b;
      KeepAppend(a[1..], b, v);
    } else {
      assert a + b == b;
    }
  }

  lemma {:induction false} KeepNone(s: seq<Bucket>, v: Num)
    requires forall j | 0 <= j < |s| :: s[j].upperBound != v
    ensures Keep(s, v) == []
  {
    if |s| > 0 {
      KeepNone(s[1..], v);
    }
  }

  /** Nothing in a sorted sequence has a bound below its first one. */
  lemma NoneBelow(x: Bucket, s: seq<Bucket>)
    requires |s| > 0 && Sorted(s) && NoNaN(s) && Less(x.upperBound, s[0].upperBound)
    ensures Keep(s, x.upperBound) == []
  {
    forall j | 0 <= j < |s| ensures s[j].upperBound != x.upperBound {
      assert s[0] in s && s[j] in s;
      LessOrder(s[0].upperBound, s[j].upperBound, x.upperBound);
      LessOrder(x.upperBound, s[0].upperBound, s[j].upperBound);
    }
    KeepNone(s, x.upperBound);
  }

  lemma KeepOne(x: Bucket, v: Num)
    ensures Keep([x], v) == (if x.upperBound == v then [x] else [])
  {
    assert [x][1..] == [];
  }

  lemma InsertCases(x: Bucket, s: seq<Bucket>)
    ensures |s| == 0 ==> Insert(x, s) == [x]
    ensures |s| > 0 && Less(x.upperBound, s[0].upperBound) ==> Insert(x, s) == [x] + s
    ensures |s| > 0 && !Less(x.upperBound, s[0].upperBound) ==> Insert(x, s) == [s[0]] + Insert(x, s[1..])
  {
  }

  lemma SortedTail(s: seq<Bucket>)
    requires |s| > 0 && Sorted(s) && NoNaN(s)
    ensures Sorted(s[1..]) && NoNaN(s[1..]) && s == [s[0]] + s[1..]
  {
    assert forall b | b in s[1..] :: b in s;
  }

  lemma {:induction false} InsertKeep(x: Bucket, s: seq<Bucket>, v: Num)
    requires Sorted(s) && NoNaN(s) && !x.upperBound.NaN?
    ensures Keep(Insert(x, s), v) == Keep(s, v) + (if x.upperBound == v then [x] else [])
  {
    hide *;
    InsertCases(x, s);
    if |s| == 0 {
      KeepOne(x, v);
      KeepNone(s, v);
    } else if Less(x.upperBound, s[0].upperBound) {
      InsertKeepFront(x, s, v);
    } else {
      SortedTail(s);
      InsertKeep(x, s[1..], v);
      InsertKeepStep(x, s, v);
    }
  }

  /** Inserting in front of larger bounds adds `x` after the kept buckets,
      which are none when `x`'s bound is the one kept. */
  lemma InsertKeepFront(x: Bucket, s: seq<Bucket>, v: Num)
    requires |s| > 0 && Sorted(s) && NoNaN(s) && !x.upperBound.NaN? && Less(x.upperBound, s[0].upperBound)
    ensures Keep([x] + s, v) == Keep(s, v) + (if x.upperBound == v then [x] else [])
  {
    KeepOne(x, v);
    KeepAppend([x], s, v);
    if x.upperBound == v {
      NoneBelow(x, s);
    }
  }

  /** Inserting past the first bucket keeps it in front. */
  lemma InsertKeepStep(x: Bucket, s: seq<Bucket>, v: Num)
    requires |s| > 0 && Insert(x, s) == [s[0]] + Insert(x, s[1..])
    requires Keep(Insert(x, s[1..]), v) == Keep(s[1..], v) + (if x.upperBound == v then [x] else [])
    ensures Keep(Insert(x, s), v) == Keep(s, v) + (if x.upperBound == v then [x] else [])
  {
    hide *;
    var tl: seq<Bucket> := if x.upperBound == v then [x] else [];
    var a := Keep([s[0]], v);
    var k1 := Keep(s[1..], v);
    KeepAppend([s[0]], Insert(x, s[1..]), v);
    KeepAppend([s[0]], s[1..], v);
    assert [s[0]] + s[1..] == s;
    assert a + (k1 + tl) == (a + k1) + tl;
  }

  /** The sort is stable: the buckets sharing any one bound keep their
      order. */
  lemma {:induction false} SortStable(s: seq<Bucket>, v: Num)
    requires NoNaN(s)
    ensures Keep(SortBuckets(s), v) == Keep(s, v)
  {
    if |s| > 0 {
      var p, x := s[..|s| - 1], s[|s| - 1];
      SortStep(s);
      var q := SortBuckets(p);
      hide SortBuckets, NoNaN, Sorted, Insert;
      SortStable(p, v);
      InsertKeep(x, q, v);
      KeepAppend(p, [x], v);
      KeepOne(x, v);
      hide Keep;
    }
  }

  /** One step of the sort, with what the insertion needs. */
  lemma SortStep(s: seq<Bucket>)
    requires |s| > 0 && NoNaN(s)
    ensures var p := s[..|s| - 1];
            && s == p + [s[|s| - 1]] && NoNaN(p)
            && SortBuckets(s) == Insert(s[|s| - 1], SortBuckets(p))
            && Sorted(SortBuckets(p)) && NoNaN(SortBuckets(p)) && !s[|s| - 1].upperBound.NaN?
  {
    var p := s[..|s| - 1];
    assert forall b | b in p :: b in s;
    SortSorted(p);
    var q := SortBuckets(p);
    assert forall b | b in q :: b in multiset(p);
    assert s[|s| - 1] in s;
  }

  /** Buckets already in order are left as they are. */
  lemma {:induction false} SortedUnchanged(s: seq<Bucket>)
    requires Sorted(s)
    ensures SortBuckets(s) == s
  {
    if |s| > 0 {
      var p, x := s[..|s| - 1], s[|s| - 1];
      SortedUnchanged(p);
      InsertLast(x, p);
      assert s == p + [x];
    }
  }

  lemma {:induction false} InsertLast(x: Bucket, s: seq<Bucket>)
    requires forall i | 0 <= i < |s| :: !Less(x.upperBound, s[i].upperBound)
    ensures Insert(x, s) == s + [x]
  {
    if |s| > 0 {
      InsertLast(x, s[1..]);
      assert s == [s[0]] + s[1..];
    }
  }

  // ---------------------------------------------------------------------
  // Number conversions
  // ---------------------------------------------------------------------

  /** The falsy numbers: NaN, 0 and -0. */
  predicate Truthy(n: Num) {
    !n.NaN? && n != Finite(0.0)
  }

  /** `x > 0` */
  predicate Positive(n: Num) {
    (n.Finite? && n.x > 0.0) || n == Infinity(false)
  }

  /** `allMetrics[key]?.values[0]?.value`, None for undefined. */
  function FirstValue(all: Metrics, key: string): (r: Option<Num>)
    ensures r.Some? <==> key in all && |all[key].values| > 0
  {
    if key in all && |all[key].values| > 0 then Some(all[key].values[0].value) else None
  }

  /** `... || 0` */
  function OrZero(v: Option<Num>): (r: Num)
    ensures Truthy(r) || r == Finite(0.0)
    ensures v.Some? && Truthy(v.value) <==> Truthy(r)
  {
    if v.Some? && Truthy(v.value) then v.value else Finite(0.0)
  }

  // ---------------------------------------------------------------------
  // getHistogram
  // ---------------------------------------------------------------------

  datatype Histogram = Histogram(buckets: seq<Bucket>, sum: Num, count: Num, average: Num)

  function HistogramOf(all: Metrics, name: string, parseFloat: string -> Num, divide: (Num, Num) -> Num): (r: Histogram)
    ensures multiset(r.buckets) == multiset(Candidates(Entry(all, name + "_bucket").values, parseFloat))
    ensures NoNaN(Candidates(Entry(all, name + "_bucket").values, parseFloat)) ==> Sorted(r.buckets)
    ensures Truthy(r.sum) <==> (var v := FirstValue(all, name + "_sum"); v.Some? && Truthy(v.value) && r.sum == v.value)
    ensures Truthy(r.count) <==> (var v := FirstValue(all, name + "_count"); v.Some? && Truthy(v.value) && r.count == v.value)
    ensures !Truthy(r.sum) ==> r.sum == Finite(0.0)
    ensures !Truthy(r.count) ==> r.count == Finite(0.0)
    ensures !Positive(r.count) ==> r.average == Finite(0.0)
    ensures Positive(r.count) ==> r.average == divide(r.sum, r.count)
  {
    var values := if name + "_bucket" in all then all[name + "_bucket"].values else [];
    var candidates := Candidates(values, parseFloat);
    assert NoNaN(candidates) ==> Sorted(SortBuckets(candidates)) by {
      if NoNaN(candidates) {
        SortSorted(candidates);
      }
    }
    var sum := OrZero(FirstValue(all, name + "_sum"));
    var count := OrZero(FirstValue(all, name + "_count"));
    Histogram(SortBuckets(candidates), sum, count, if Positive(count) then divide(sum, count) else Finite(0.0))
  }

  /** getHistogram */
  function GetHistogram(text: string, name: string, parseFloat: string -> Num, divide: (Num, Num) -> Num): Histogram {
    HistogramOf(ParseMetrics(text, parseFloat), name, parseFloat, divide)
  }

  /** Buckets with equal bounds come out in the order the text lists them,
      and buckets listed in order come out unchanged. */
  lemma HistogramStable(all: Metrics, name: string, parseFloat: string -> Num, divide: (Num, Num) -> Num, v: Num)
    requires NoNaN(Candidates(Entry(all, name + "_bucket").values, parseFloat))
    ensures var c := Candidates(Entry(all, name + "_bucket").values, parseFloat);
            && Keep(HistogramOf(all, name, parseFloat, divide).buckets, v) == Keep(c, v)
            && (Sorted(c) ==> HistogramOf(all, name, parseFloat, divide).buckets == c)
  {
    var c := Candidates(Entry(all, name + "_bucket").values, parseFloat);
    SortStable(c, v);
    if Sorted(c) {
      SortedUnchanged(c);
    }
  }

  /** The "+Inf" bucket never appears, and every other bucket does. */
  lemma HistogramBuckets(all: Metrics, name: string, parseFloat: string -> Num, divide: (Num, Num) -> Num, b: Bucket)
    ensures var values := Entry(all, name + "_bucket").values;
            b in HistogramOf(all, name, parseFloat, divide).buckets
            <==> exists i | 0 <= i < |values| :: !InfBucket(values[i]) && BucketOf(values[i], parseFloat) == b
  {
    var values := Entry(all, name + "_bucket").values;
    CandidatesIff(values, parseFloat, b);
    assert b in HistogramOf(all, name, parseFloat, divide).buckets <==> b in multiset(Candidates(values, parseFloat));
  }

  // ---------------------------------------------------------------------
  // getGauge, getCounter, getCounterVec, getMetric, getMetrics
  // ---------------------------------------------------------------------

  /** The first value of a family, 0 when it is missing or has none. */
  function FirstOrZero(all: Metrics, name: string): (r: Num)
    ensures FirstValue(all, name).None? ==> r == Finite(0.0)
    ensures FirstValue(all, name).Some? ==> r == FirstValue(all, name).value
  {
    if name !in all || |all[name].values| == 0 then Finite(0.0) else all[name].values[0].value
  }

  /** getGauge */
  function GetGauge(text: string, name: string, parseFloat: string -> Num): (r: Num)
    ensures FirstValue(ParseMetrics(text, parseFloat), name).None? ==> r == Finite(0.0)
    ensures FirstValue(ParseMetrics(text, parseFloat), name).Some? ==> r == FirstValue(ParseMetrics(text, parseFloat), name).value
  {
    FirstOrZero(ParseMetrics(text, parseFloat), name)
  }

  /** getCounter */
  function GetCounter(text: string, name: string, parseFloat: string -> Num): (r: Num)
    ensures FirstValue(ParseMetrics(text, parseFloat), name).None? ==> r == Finite(0.0)
    ensures FirstValue(ParseMetrics(text, parseFloat), name).Some? ==> r == FirstValue(ParseMetrics(text, parseFloat), name).value
  {
    FirstOrZero(ParseMetrics(text, parseFloat), name)
  }

  /** getCounterVec: the samples of the family, none when it is missing. */
  function GetCounterVec(text: string, name: string, parseFloat: string -> Num): (r: seq<Sample>)
    ensures r == Entry(ParseMetrics(text, parseFloat), name).values
  {
    var all := ParseMetrics(text, parseFloat);
    if name !in all || |all[name].values| == 0 then [] else all[name].values
  }

  /** getMetric: the family, None for null. */
  function GetMetric(text: string, name: string, parseFloat: string -> Num): (r: Option<Family>)
    ensures r.Some? <==> name in ParseMetrics(text, parseFloat)
    ensures r.Some? ==> r.value == ParseMetrics(text, parseFloat)[name]
  {
    var all := ParseMetrics(text, parseFloat);
    if name in all then Some(all[name]) else None
  }

  /** The loop of getMetrics over the names. */
  function Collect(all: Metrics, names: seq<string>): (r: map<string, Option<Family>>)
    ensures r.Keys == set n | n in names
  {
    if |names| == 0 then map[]
    else
      var n := names[|names| - 1];
      var rest := Collect(all, names[..|names| - 1]);
      assert forall k :: k in names <==> k in names[..|names| - 1] || k == n;
      rest[n := if n in all then Some(all[n]) else None]
  }

  /** getMetrics: one parse, and an entry for every name asked. */
  function GetMetrics(text: string, names: seq<string>, parseFloat: string -> Num): (r: map<string, Option<Family>>)
    ensures r.Keys == set n | n in names
  {
    Collect(ParseMetrics(text, parseFloat), names)
  }

  lemma {:induction false} CollectLookup(all: Metrics, names: seq<string>, n: string)
    requires n in names
    ensures Collect(all, names)[n] == (if n in all then Some(all[n]) else None)
  {
    var last := names[|names| - 1];
    if n != last {
      assert n in names[..|names| - 1] by {
        var i :| 0 <= i < |names| && names[i] == n;
        assert names[..|names| - 1][i] == n;
      }
      CollectLookup(all, names[..|names| - 1], n);
    }
  }

  /** Every name asked for maps to what getMetric answers for it. */
  lemma GetMetricsAgrees(text: string, names: seq<string>, parseFloat: string -> Num, n: string)
    requires n in names
    ensures n in GetMetrics(text, names, parseFloat)
    ensures GetMetrics(text, names, parseFloat)[n] == GetMetric(text, n, parseFloat)
  {
    CollectLookup(ParseMetrics(text, parseFloat), names, n);
  }

  /** getGauge and getCounter are the same query. */
  lemma GaugeIsCounter(text: string, name: string, parseFloat: string -> Num)
    ensures GetGauge(text, name, parseFloat) == GetCounter(text, name, parseFloat)
  {
  }

  /** The histogram's sum and count differ from a counter only in turning
      NaN into 0. */
  lemma SumIsCounterUnlessNaN(text: string, name: string, parseFloat: string -> Num, divide: (Num, Num) -> Num)
    ensures var c := GetCounter(text, name + "_sum", parseFloat);
            GetHistogram(text, name, parseFloat, divide).sum == (if c.NaN? then Finite(0.0) else c)
  {
  }

  // ---------------------------------------------------------------------
  // Queries over an exported family
  // ---------------------------------------------------------------------

  /** The text of one family: HELP, TYPE and one sample. */
  function FamilyText(name: string, help: string, kind: string, ps: seq<(string, string)>, value: string, ts: string): string {
    JoinWith([HelpLine(name, help), TypeLine(name, kind), SampleLine(name, ps, value, ts)], '\n')
  }

  predicate Exported(name: string, help: string, kind: string, ps: seq<(string, string)>, value: string, ts: string) {
    && MetricName(name) && LabelPairs(ps)
    && |help| > 0 && (forall i | 0 <= i < |help| :: !IsLineTerminator(help[i]))
    && Token(kind) && Token(value) && (ts == "" || Timestamp(ts))
  }

  /** A gauge or counter reads as the value its sample line carries. */
  lemma GaugeOfFamily(name: string, help: string, kind: string, ps: seq<(string, string)>, value: string, ts: string,
                      parseFloat: string -> Num)
    requires Exported(name, help, kind, ps, value, ts)
    ensures GetGauge(FamilyText(name, help, kind, ps, value, ts), name, parseFloat) == SampleValue(value, parseFloat)
    ensures GetCounter(FamilyText(name, help, kind, ps, value, ts), name, parseFloat) == SampleValue(value, parseFloat)
  {
    FamilyRoundTrip(name, help, kind, ps, value, ts, parseFloat);
  }

  /** A counter vector reads as its labels and value. */
  lemma CounterVecOfFamily(name: string, help: string, kind: string, ps: seq<(string, string)>, value: string, ts: string,
                           parseFloat: string -> Num)
    requires Exported(name, help, kind, ps, value, ts)
    ensures GetCounterVec(FamilyText(name, help, kind, ps, value, ts), name, parseFloat)
            == [Sample(ToMap(ps), SampleValue(value, parseFloat))]
  {
    FamilyRoundTrip(name, help, kind, ps, value, ts, parseFloat);
  }

  /** getMetric finds the family with its help and type, and no other. */
  lemma MetricOfFamily(name: string, help: string, kind: string, ps: seq<(string, string)>, value: string, ts: string,
                       parseFloat: string -> Num, other: string)
    requires Exported(name, help, kind, ps, value, ts)
    ensures GetMetric(FamilyText(name, help, kind, ps, value, ts), name, parseFloat)
            == Some(Family(help, kind, [Sample(ToMap(ps), SampleValue(value, parseFloat))]))
    ensures other != name ==> GetMetric(FamilyText(name, help, kind, ps, value, ts), other, parseFloat) == None
  {
    FamilyRoundTrip(name, help, kind, ps, value, ts, parseFloat);
  }
}
