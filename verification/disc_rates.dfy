/** Discount rates: a series of (year, rate) entries held as two parallel
    sequences, paired by position. The module models the size check, the
    keyed merge of two series (`append`), the selection of the entries of a
    year range, and the net present value of a cash-flow series. */
module DiscountRates {
  import opened Wrappers
  import opened Checker
  import opened Years
  import Tags

  datatype DiscRates = DiscRates(tag: Tags.Tag, years: seq<int>, rates: seq<real>)

  /** The series of an entity constructed from no source. */
  const Empty: DiscRates := DiscRates(Tags.Empty, [], [])

  /** The invariant `check` enforces: one rate per year. */
  predicate Valid(d: DiscRates) {
    |d.rates| == |d.years|
  }

  /** `check`: the rates must have as many entries as the years; otherwise the
      error names `DiscRates.rates` with the year count as the expected size. */
  function Check(d: DiscRates): (r: Outcome<SizeError>)
    ensures r.Pass? <==> Valid(d)
    ensures r.Fail? ==> r.error == SizeError("DiscRates.rates", |d.years|, |d.rates|)
  {
    Validate([SizeCheck("DiscRates.rates", |d.years|, |d.rates|)])
  }

  lemma RatesSizeText()
    ensures LogLine(SizeError("DiscRates.rates", 1, 2)) == "Invalid DiscRates.rates size: 1 != 2."
  {
  }

  /** Two rates for one year: the check fails and logs the sizes. */
  lemma CheckWrongRatesExample(d: DiscRates)
    requires d.years == [1] && d.rates == [3.0, 4.0]
    ensures Check(d).Fail? && LogLine(Check(d).error) == "Invalid DiscRates.rates size: 1 != 2."
  {
    RatesSizeText();
  }

  // ---------------------------------------------------------------------------
  // The series seen as a dictionary

  /** The series as a year-to-rate dictionary, filled in index order, so a
      later entry for a year overrides an earlier one. */
  function AsMap(years: seq<int>, rates: seq<real>): (m: map<int, real>)
    requires |years| == |rates|
    ensures m.Keys == Elems(years)
  {
    if |years| == 0 then map[]
    else
      var n := |years| - 1;
      assert Elems(years) == Elems(years[..n]) + {years[n]};
      AsMap(years[..n], rates[..n])[years[n] := rates[n]]
  }

  /** An entry that no later entry repeats gives its year's dictionary rate. */
  lemma {:induction false} AsMapLastEntry(years: seq<int>, rates: seq<real>, i: nat)
    requires |years| == |rates| && i < |years|
    requires forall j :: i < j < |years| ==> years[j] != years[i]
    ensures AsMap(years, rates)[years[i]] == rates[i]
  {
    var n := |years| - 1;
    if i < n {
      AsMapLastEntry(years[..n], rates[..n], i);
    }
  }

  /** With ascending years every entry is its year's dictionary rate. */
  lemma AsMapIncreasing(years: seq<int>, rates: seq<real>)
    requires |years| == |rates| && Increasing(years)
    ensures forall i :: 0 <= i < |years| ==> AsMap(years, rates)[years[i]] == rates[i]
  {
    forall i | 0 <= i < |years|
      ensures AsMap(years, rates)[years[i]] == rates[i]
    {
      AsMapLastEntry(years, rates, i);
    }
  }

  /** Ascending years tabulating a dictionary over exactly those years read
      back as that dictionary. */
  lemma AsMapOfTabulation(years: seq<int>, rates: seq<real>, m: map<int, real>)
    requires |years| == |rates| && Increasing(years)
    requires m.Keys == Elems(years)
    requires forall i :: 0 <= i < |years| ==> rates[i] == m[years[i]]
    ensures AsMap(years, rates) == m
  {
    AsMapIncreasing(years, rates);
    var a := AsMap(years, rates);
    forall y | y in m
      ensures a[y] == m[y]
    {
      var i :| 0 <= i < |years| && years[i] == y;
    }
  }

  /** Ascending series are equal exactly when their dictionaries are. */
  lemma AsMapDetermines(y1: seq<int>, r1: seq<real>, y2: seq<int>, r2: seq<real>)
    requires |y1| == |r1| && Increasing(y1)
    requires |y2| == |r2| && Increasing(y2)
    requires AsMap(y1, r1) == AsMap(y2, r2)
    ensures y1 == y2 && r1 == r2
  {
    IncreasingUnique(y1, y2);
    AsMapIncreasing(y1, r1);
    AsMapIncreasing(y2, r2);
    forall i | 0 <= i < |r1|
      ensures r1[i] == r2[i]
    {
      assert r1[i] == AsMap(y1, r1)[y1[i]];
    }
  }

  // ---------------------------------------------------------------------------
  // append

  /** The ascending union of two year sequences, each year once. */
  function MergedYears(a: seq<int>, b: seq<int>): (ys: seq<int>)
    ensures Increasing(ys)
    ensures Elems(ys) == Elems(a) + Elems(b)
    ensures |ys| == |Elems(a) + Elems(b)|
  {
    var ys := SortedDistinct(a + b);
    assert Elems(a + b) == Elems(a) + Elems(b);
    IncreasingCard(ys);
    ys
  }

  /** The rates a dictionary gives to ascending years covering its keys. */
  function Tabulate(ys: seq<int>, m: map<int, real>): (rs: seq<real>)
    requires Increasing(ys) && Elems(ys) == m.Keys
    ensures |rs| == |ys|
    ensures AsMap(ys, rs) == m
  {
    var rs := seq(|ys|, i requires 0 <= i < |ys| => m[ys[i]]);
    AsMapOfTabulation(ys, rs, m);
    rs
  }

  /** `append`: merges `other` into the receiver keyed by year. An empty
      receiver becomes a copy of `other`. Otherwise the years are the
      ascending union of both year sets; a year present in `other` takes its
      rate from `other`, any other year keeps the receiver's rate. */
  function Append(self: DiscRates, other: DiscRates): (r: DiscRates)
    requires Valid(self) && Valid(other)
    ensures Valid(r) && Check(r) == Pass
    ensures r.tag == Tags.Merge(self.tag, other.tag)
    ensures Elems(r.years) == Elems(self.years) + Elems(other.years)
    ensures AsMap(r.years, r.rates) == AsMap(self.years, self.rates) + AsMap(other.years, other.rates)
    ensures |self.years| == 0 ==> r.years == other.years && r.rates == other.rates
    ensures |self.years| > 0 ==> Increasing(r.years) && |r.years| == |Elems(self.years) + Elems(other.years)|
  {
    var m := AsMap(self.years, self.rates) + AsMap(other.years, other.rates);
    if |self.years| == 0 then
      assert m == AsMap(other.years, other.rates);
      other.(tag := Tags.Merge(self.tag, other.tag))
    else
      var ys := MergedYears(self.years, other.years);
      DiscRates(Tags.Merge(self.tag, other.tag), ys, Tabulate(ys, m))
  }

  /** An entry of `other` that no later entry of `other` repeats is in the
      merge with its own rate. */
  lemma AppendOtherWins(self: DiscRates, other: DiscRates, j: nat)
    requires Valid(self) && Valid(other)
    requires j < |other.years| && forall i :: j < i < |other.years| ==> other.years[i] != other.years[j]
    ensures exists k :: (0 <= k < |Append(self, other).years|
      && Append(self, other).years[k] == other.years[j] && Append(self, other).rates[k] == other.rates[j])
  {
    var r := Append(self, other);
    if |self.years| == 0 {
      assert r.years[j] == other.years[j] && r.rates[j] == other.rates[j];
    } else {
      AsMapLastEntry(other.years, other.rates, j);
      EntryOfDictionary(r.years, r.rates, other.years[j], other.rates[j]);
    }
  }

  /** An entry of the receiver whose year neither a later receiver entry nor
      `other` repeats is in the merge with the receiver's rate. */
  lemma AppendReceiverKept(self: DiscRates, other: DiscRates, j: nat)
    requires Valid(self) && Valid(other)
    requires j < |self.years| && forall i :: j < i < |self.years| ==> self.years[i] != self.years[j]
    requires self.years[j] !in other.years
    ensures exists k :: (0 <= k < |Append(self, other).years|
      && Append(self, other).years[k] == self.years[j] && Append(self, other).rates[k] == self.rates[j])
  {
    var r := Append(self, other);
    var y := self.years[j];
    AsMapLastEntry(self.years, self.rates, j);
    assert y !in Elems(other.years);
    EntryOfDictionary(r.years, r.rates, y, self.rates[j]);
  }

  /** On ascending years, every dictionary entry is an entry of the series. */
  lemma EntryOfDictionary(years: seq<int>, rates: seq<real>, y: int, rate: real)
    requires |years| == |rates| && Increasing(years)
    requires y in AsMap(years, rates) && AsMap(years, rates)[y] == rate
    ensures exists k :: 0 <= k < |years| && years[k] == y && rates[k] == rate
  {
    var k :| 0 <= k < |years| && years[k] == y;
    AsMapLastEntry(years, rates, k);
  }

  /** Appending two series with the same ascending years and rates leaves the
      series unchanged; only the tags are merged. */
  lemma AppendSameSeries(self: DiscRates, other: DiscRates)
    requires Valid(self) && Increasing(self.years)
    requires other.years == self.years && other.rates == self.rates
    ensures Append(self, other).years == self.years
    ensures Append(self, other).rates == self.rates
    ensures Append(self, other).tag == Tags.Merge(self.tag, other.tag)
  {
    if |self.years| > 0 {
      var r := Append(self, other);
      var m := AsMap(self.years, self.rates);
      assert AsMap(other.years, other.rates) == m;
      assert m + m == m;
      assert AsMap(r.years, r.rates) == m;
      AsMapDetermines(r.years, r.rates, self.years, self.rates);
    }
  }

  /** Appending an entity with ascending years to a copy of itself gives it
      back. */
  lemma AppendIdentical(d: DiscRates)
    requires Valid(d) && Increasing(d.years)
    ensures Append(d, d) == d
  {
    AppendSameSeries(d, d);
    Tags.MergeIdempotent(d.tag);
  }

  /** A non-empty series whose years are not ascending comes back reordered
      when appended to itself: the merge sorts the years. */
  lemma AppendIdenticalSorts(d: DiscRates)
    requires Valid(d) && |d.years| > 0 && !Increasing(d.years)
    ensures Append(d, d).years != d.years
    ensures Elems(Append(d, d).years) == Elems(d.years)
  {
  }

  /** Appending a series to an empty entity copies it exactly. */
  lemma AppendToEmpty(other: DiscRates)
    requires Valid(other)
    ensures Append(Empty, other) == other
  {
  }

  lemma ExampleUnion(a: seq<int>, b: seq<int>)
    requires a == [2000, 2001, 2002] && b == [2000, 2001, 2003]
    ensures Elems(MergedYears(a, b)) == {2000, 2001, 2002, 2003}
  {
    assert Elems(a) == {2000, 2001, 2002};
    assert Elems(b) == {2000, 2001, 2003};
  }

  lemma ExampleMergedYears(ys: seq<int>)
    requires ys == [2000, 2001, 2002, 2003]
    ensures Elems(ys) == {2000, 2001, 2002, 2003} && Increasing(ys)
  {
  }

  /** The years of the merge of two files with shared and new years. */
  lemma ExampleYears(a: seq<int>, b: seq<int>)
    requires a == [2000, 2001, 2002] && b == [2000, 2001, 2003]
    ensures MergedYears(a, b) == [2000, 2001, 2002, 2003]
  {
    var ys: seq<int> := [2000, 2001, 2002, 2003];
    ExampleUnion(a, b);
    ExampleMergedYears(ys);
    IncreasingUnique(MergedYears(a, b), ys);
  }

  lemma ExampleReceiverMap(ys: seq<int>, rs: seq<real>)
    requires ys == [2000, 2001, 2002] && rs == [0.1, 0.2, 0.3]
    ensures 2002 in AsMap(ys, rs) && AsMap(ys, rs)[2002] == 0.3
  {
    AsMapIncreasing(ys, rs);
    assert ys[2] == 2002;
  }

  lemma ExampleAppendedMap(ys: seq<int>, rs: seq<real>)
    requires ys == [2000, 2001, 2003] && rs == [0.11, 0.22, 0.33]
    ensures var m := AsMap(ys, rs);
      2002 !in m && m.Keys == {2000, 2001, 2003} && m[2000] == 0.11 && m[2001] == 0.22 && m[2003] == 0.33
  {
    AsMapIncreasing(ys, rs);
    assert ys[0] == 2000 && ys[1] == 2001 && ys[2] == 2003;
    assert Elems(ys) == {2000, 2001, 2003};
  }

  lemma ExampleTags(t1: Tags.Tag, t2: Tags.Tag)
    requires t1 == Tags.Tag("file1.txt", "descr1") && t2 == Tags.Tag("file2.txt", "descr2")
    ensures Tags.Merge(t1, t2) == Tags.Tag("file1.txt + file2.txt", "descr1 + descr2")
  {
    assert t1.fileName[4] != t2.fileName[4];
    assert t1.description[5] != t2.description[5];
    assert Tags.Merge(t1, t2).fileName == t1.fileName + Tags.Separator + t2.fileName;
    assert Tags.Merge(t1, t2).description == t1.description + Tags.Separator + t2.description;
    ExampleTagTexts();
  }

  lemma ExampleTagTexts()
    ensures "file1.txt" + Tags.Separator + "file2.txt" == "file1.txt + file2.txt"
    ensures "descr1" + Tags.Separator + "descr2" == "descr1 + descr2"
  {
  }

  /** Each rate merged onto a non-empty receiver is the dictionary union's
      rate for its year. */
  lemma AppendRateAt(self: DiscRates, other: DiscRates, k: nat)
    requires Valid(self) && Valid(other) && |self.years| > 0
    requires k < |Append(self, other).years|
    ensures Append(self, other).rates[k]
      == (AsMap(self.years, self.rates) + AsMap(other.years, other.rates))[Append(self, other).years[k]]
  {
    var r := Append(self, other);
    AsMapIncreasing(r.years, r.rates);
  }

  lemma ExampleSeries(self: DiscRates, other: DiscRates)
    requires self.years == [2000, 2001, 2002] && self.rates == [0.1, 0.2, 0.3]
    requires other.years == [2000, 2001, 2003] && other.rates == [0.11, 0.22, 0.33]
    ensures Append(self, other).years == [2000, 2001, 2002, 2003]
    ensures Append(self, other).rates == [0.11, 0.22, 0.3, 0.33]
  {
    var r := Append(self, other);
    ExampleYears(self.years, other.years);
    ExampleReceiverMap(self.years, self.rates);
    ExampleAppendedMap(other.years, other.rates);
    AppendRateAt(self, other, 0);
    AppendRateAt(self, other, 1);
    AppendRateAt(self, other, 2);
    AppendRateAt(self, other, 3);
    assert r.years == [2000, 2001, 2002, 2003];
    FourRates(r.rates, 0.11, 0.22, 0.3, 0.33);
  }

  lemma FourRates(s: seq<real>, a: real, b: real, c: real, d: real)
    requires |s| == 4 && s[0] == a && s[1] == b && s[2] == c && s[3] == d
    ensures s == [a, b, c, d]
  {
  }

  /** The merge of two files with shared and new years: shared years take the
      appended file's rates, and the provenance texts are joined. */
  lemma AppendOverrideExample(self: DiscRates, other: DiscRates)
    requires self == DiscRates(Tags.Tag("file1.txt", "descr1"), [2000, 2001, 2002], [0.1, 0.2, 0.3])
    requires other == DiscRates(Tags.Tag("file2.txt", "descr2"), [2000, 2001, 2003], [0.11, 0.22, 0.33])
    ensures Append(self, other)
      == DiscRates(Tags.Tag("file1.txt + file2.txt", "descr1 + descr2"), [2000, 2001, 2002, 2003], [0.11, 0.22, 0.3, 0.33])
  {
    ExampleSeries(self, other);
    ExampleTags(self.tag, other.tag);
  }

  /** An entity read from several sources: the first initializes an empty
      entity and each further one is appended on top, in order. */
  function FromSources(parts: seq<DiscRates>): (r: DiscRates)
    requires forall i :: 0 <= i < |parts| ==> Valid(parts[i])
    ensures Valid(r)
    ensures Elems(r.years) == AllYears(parts)
    ensures (forall i :: 0 <= i < |parts| ==> Increasing(parts[i].years)) ==> Increasing(r.years)
  {
    if |parts| == 0 then Empty
    else
      var n := |parts| - 1;
      assert forall i :: 0 <= i < n ==> parts[..n][i] == parts[i];
      Append(FromSources(parts[..n]), parts[n])
  }

  /** Every year of every part. */
  function AllYears(parts: seq<DiscRates>): set<int> {
    if |parts| == 0 then {} else AllYears(parts[..|parts| - 1]) + Elems(parts[|parts| - 1].years)
  }

  /** Two sources: the first initializes an empty entity, the second is
      appended to it. */
  lemma FromTwoSources(p1: DiscRates, p2: DiscRates)
    requires Valid(p1) && Valid(p2)
    ensures FromSources([p1, p2]) == Append(Append(Empty, p1), p2)
  {
    var one := [p1];
    assert one[..0] == [];
    assert FromSources(one) == Append(FromSources([]), p1);
    var two := [p1, p2];
    assert two[..1] == one;
  }

  /** Two reads of the same file, differing only in their descriptions: the
      entity built from them keeps the file name once, joins the descriptions
      and keeps the set of years; ascending years come back unchanged. */
  lemma ReadSameFileTwice(p1: DiscRates, p2: DiscRates)
    requires Valid(p1) && p1.tag.fileName != "" && p1.tag.description != p2.tag.description
    requires p2.years == p1.years && p2.rates == p1.rates && p2.tag.fileName == p1.tag.fileName
    ensures FromSources([p1, p2]).tag.fileName == p1.tag.fileName
    ensures FromSources([p1, p2]).tag.description == p1.tag.description + " + " + p2.tag.description
    ensures Elems(FromSources([p1, p2]).years) == Elems(p1.years)
    ensures Increasing(p1.years) ==> FromSources([p1, p2]).years == p1.years
  {
    FromTwoSources(p1, p2);
    AppendToEmpty(p1);
    AppendSameFile(p1, p2);
  }

  /** Appending a second read of the same file: the file name is kept once,
      the descriptions are joined and the set of years is kept. */
  lemma AppendSameFile(p1: DiscRates, p2: DiscRates)
    requires Valid(p1) && p1.tag.fileName != "" && p1.tag.description != p2.tag.description
    requires p2.years == p1.years && p2.rates == p1.rates && p2.tag.fileName == p1.tag.fileName
    ensures Append(p1, p2).tag.fileName == p1.tag.fileName
    ensures Append(p1, p2).tag.description == p1.tag.description + " + " + p2.tag.description
    ensures Elems(Append(p1, p2).years) == Elems(p1.years)
    ensures Increasing(p1.years) ==> Append(p1, p2).years == p1.years
  {
    if Increasing(p1.years) {
      AppendSameSeries(p1, p2);
    }
  }

  // ---------------------------------------------------------------------------
  // select

  /** The entries as (year, rate) pairs, in position order. */
  function Pairs(d: DiscRates): (ps: seq<(int, real)>)
    requires Valid(d)
    ensures |ps| == |d.years|
    ensures forall i :: 0 <= i < |ps| ==> ps[i] == (d.years[i], d.rates[i])
  {
    seq(|d.years|, i requires 0 <= i < |d.years| => (d.years[i], d.rates[i]))
  }

  /** Builds a series from (year, rate) pairs. */
  function FromPairs(tag: Tags.Tag, ps: seq<(int, real)>): (d: DiscRates)
    ensures Valid(d) && Pairs(d) == ps && d.tag == tag
  {
    DiscRates(tag, seq(|ps|, i requires 0 <= i < |ps| => ps[i].0), seq(|ps|, i requires 0 <= i < |ps| => ps[i].1))
  }

  /** `a` is `b` with some entries dropped, the rest in the same order. */
  predicate IsSubsequence<T(==)>(a: seq<T>, b: seq<T>)
    decreases |b|
  {
    if |a| == 0 then true
    else if |b| == 0 then false
    else (a[0] == b[0] && IsSubsequence(a[1..], b[1..])) || IsSubsequence(a, b[1..])
  }

  lemma {:induction false} SubsequenceMembers<T>(a: seq<T>, b: seq<T>)
    requires IsSubsequence(a, b)
    ensures forall x :: x in a ==> x in b
    decreases |b|
  {
    if |a| > 0 {
      if a[0] == b[0] && IsSubsequence(a[1..], b[1..]) {
        SubsequenceMembers(a[1..], b[1..]);
        assert forall x :: x in a ==> x == a[0] || x in a[1..];
      } else {
        SubsequenceMembers(a, b[1..]);
      }
    }
  }

  /** The pairs whose year is in `yearRange`, in their original order. */
  function FilterIn(ps: seq<(int, real)>, yearRange: seq<int>): seq<(int, real)> {
    if |ps| == 0 then []
    else if ps[0].0 in yearRange then [ps[0]] + FilterIn(ps[1..], yearRange)
    else FilterIn(ps[1..], yearRange)
  }

  /** The filter drops entries and keeps the order of the rest. */
  lemma {:induction false} FilterInSubsequence(ps: seq<(int, real)>, yearRange: seq<int>)
    ensures IsSubsequence(FilterIn(ps, yearRange), ps)
  {
    if |ps| > 0 {
      var t := FilterIn(ps[1..], yearRange);
      FilterInSubsequence(ps[1..], yearRange);
      if ps[0].0 in yearRange {
        assert ([ps[0]] + t)[1..] == t;
      } else {
        assert |t| > 0 ==> IsSubsequence(t, ps[1..]);
      }
    }
  }

  /** Every kept pair has its year in range. */
  lemma {:induction false} FilterInInRange(ps: seq<(int, real)>, yearRange: seq<int>)
    ensures forall k :: 0 <= k < |FilterIn(ps, yearRange)| ==> FilterIn(ps, yearRange)[k].0 in yearRange
  {
    if |ps| > 0 {
      FilterInInRange(ps[1..], yearRange);
    }
  }

  /** A pair with its year in range is kept as often as it occurs. */
  lemma {:induction false} FilterInCounts(ps: seq<(int, real)>, yearRange: seq<int>, p: (int, real))
    requires p.0 in yearRange
    ensures multiset(FilterIn(ps, yearRange))[p] == multiset(ps)[p]
  {
    if |ps| > 0 {
      FilterInCounts(ps[1..], yearRange, p);
      assert ps == [ps[0]] + ps[1..];
    }
  }

  /** Nothing survives the filter exactly when no pair's year is in range. */
  lemma {:induction false} FilterInEmpty(ps: seq<(int, real)>, yearRange: seq<int>)
    ensures FilterIn(ps, yearRange) == [] <==> forall i :: 0 <= i < |ps| ==> ps[i].0 !in yearRange
  {
    if |ps| > 0 {
      FilterInEmpty(ps[1..], yearRange);
      assert forall i :: 1 <= i < |ps| ==> ps[i] == ps[1..][i - 1];
    }
  }

  /** `select`: the entries whose year is a member of `yearRange`, in their
      original order and with their rates, or none when no year matches. */
  function Select(d: DiscRates, yearRange: seq<int>): (r: Option<DiscRates>)
    requires Valid(d)
    ensures r.None? <==> forall i :: 0 <= i < |d.years| ==> d.years[i] !in yearRange
    ensures r.Some? ==> Valid(r.value) && r.value.tag == d.tag && |r.value.years| > 0
    ensures r.Some? ==> IsSubsequence(Pairs(r.value), Pairs(d))
    ensures r.Some? ==> forall k :: 0 <= k < |r.value.years| ==> r.value.years[k] in yearRange
    ensures r.Some? ==> forall p: (int, real) :: p.0 in yearRange ==> multiset(Pairs(r.value))[p] == multiset(Pairs(d))[p]
  {
    var ps := FilterIn(Pairs(d), yearRange);
    FilterInEmpty(Pairs(d), yearRange);
    FilterInSubsequence(Pairs(d), yearRange);
    FilterInInRange(Pairs(d), yearRange);
    assert forall p: (int, real) :: p.0 in yearRange ==> multiset(ps)[p] == multiset(Pairs(d))[p] by {
      forall p: (int, real) | p.0 in yearRange
        ensures multiset(ps)[p] == multiset(Pairs(d))[p]
      {
        FilterInCounts(Pairs(d), yearRange, p);
      }
    }
    if ps == [] then None else Some(FromPairs(d.tag, ps))
  }

  /** Filtering keeps exactly a contiguous block when membership in the range
      is decided by position `lo <= i < hi`. */
  lemma {:induction false} FilterInBlock(ps: seq<(int, real)>, yearRange: seq<int>, lo: nat, hi: nat)
    requires lo <= hi <= |ps|
    requires forall i :: 0 <= i < |ps| ==> (ps[i].0 in yearRange <==> lo <= i < hi)
    ensures FilterIn(ps, yearRange) == ps[lo..hi]
  {
    if |ps| > 0 {
      var tail := ps[1..];
      if lo > 0 {
        FilterInBlock(tail, yearRange, lo - 1, hi - 1);
        assert tail[lo - 1..hi - 1] == ps[lo..hi];
      } else if hi > 0 {
        FilterInBlock(tail, yearRange, 0, hi - 1);
        assert [ps[0]] + tail[0..hi - 1] == ps[0..hi];
      } else {
        FilterInBlock(tail, yearRange, 0, 0);
      }
    }
  }

  /** The consecutive years from `start`, `count` of them. */
  function Consecutive(start: int, count: nat): (r: seq<int>)
    ensures |r| == count
    ensures forall k :: 0 <= k < count ==> r[k] == start + k
    ensures forall y :: y in r <==> start <= y < start + count
  {
    var r := seq(count, i requires 0 <= i < count => start + i);
    forall y | start <= y < start + count
      ensures y in r
    {
      assert r[y - start] == y;
    }
    r
  }

  /** When the years in range are exactly those at positions `lo <= i < hi`,
      the selection is that block of the series. */
  lemma SelectBlock(d: DiscRates, yearRange: seq<int>, lo: nat, hi: nat)
    requires Valid(d)
    requires lo < hi <= |d.years|
    requires forall i :: 0 <= i < |d.years| ==> (d.years[i] in yearRange <==> lo <= i < hi)
    ensures Select(d, yearRange) == Some(DiscRates(d.tag, d.years[lo..hi], d.rates[lo..hi]))
  {
    FilterInBlock(Pairs(d), yearRange, lo, hi);
    var sel := FromPairs(d.tag, Pairs(d)[lo..hi]);
    assert sel.years == d.years[lo..hi];
    assert sel.rates == d.rates[lo..hi];
  }

  /** On a series of consecutive years, selecting a consecutive range inside
      it returns that range with the rates at the matching positions. */
  lemma SelectConsecutive(d: DiscRates, first: int, start: int, count: nat)
    requires Valid(d)
    requires forall i :: 0 <= i < |d.years| ==> d.years[i] == first + i
    requires first <= start && start + count <= first + |d.years| && count > 0
    ensures Select(d, Consecutive(start, count)).Some?
    ensures Select(d, Consecutive(start, count)).value.tag == d.tag
    ensures Select(d, Consecutive(start, count)).value.years == Consecutive(start, count)
    ensures Select(d, Consecutive(start, count)).value.rates == d.rates[start - first..start - first + count]
  {
    ConsecutiveBlock(d.years, first, start, count);
    SelectBlockFields(d, Consecutive(start, count), start - first, start - first + count,
      Consecutive(start, count), d.rates[start - first..start - first + count]);
  }

  /** `SelectBlock` field by field, with the block's years and rates named
      `ys` and `rs`. */
  lemma SelectBlockFields(d: DiscRates, yearRange: seq<int>, lo: nat, hi: nat, ys: seq<int>, rs: seq<real>)
    requires Valid(d)
    requires lo < hi <= |d.years|
    requires forall i :: 0 <= i < |d.years| ==> (d.years[i] in yearRange <==> lo <= i < hi)
    requires d.years[lo..hi] == ys && d.rates[lo..hi] == rs
    ensures Select(d, yearRange).Some?
    ensures Select(d, yearRange).value.tag == d.tag
    ensures Select(d, yearRange).value.years == ys
    ensures Select(d, yearRange).value.rates == rs
  {
    SelectBlock(d, yearRange, lo, hi);
  }

  /** In a run of consecutive years from `first`, the years of a consecutive
      range inside it are exactly those at the matching block of positions. */
  lemma ConsecutiveBlock(years: seq<int>, first: int, start: int, count: nat)
    requires forall i :: 0 <= i < |years| ==> years[i] == first + i
    requires first <= start && start + count <= first + |years|
    ensures forall i :: 0 <= i < |years| ==>
      (years[i] in Consecutive(start, count) <==> start - first <= i < start - first + count)
    ensures years[start - first..start - first + count] == Consecutive(start, count)
  {
    var range := Consecutive(start, count);
    var lo := start - first;
    forall i | 0 <= i < |years|
      ensures years[i] in range <==> lo <= i < lo + count
    {
      assert years[i] == first + i;
    }
    forall k | 0 <= k < count
      ensures years[lo..lo + count][k] == range[k]
    {
      assert years[lo + k] == first + lo + k;
      assert range[k] == start + k;
    }
  }

  /** Selecting 2010..2019 from rates 0..49 over 2000..2049. */
  lemma SelectExample()
    ensures
      var d := DiscRates(Tags.Tag("file1.txt", "descr1"), Consecutive(2000, 50), seq(50, i => i as real));
      Select(d, Consecutive(2010, 10)) == Some(d.(years := Consecutive(2010, 10), rates := d.rates[10..20]))
  {
    var d := DiscRates(Tags.Tag("file1.txt", "descr1"), Consecutive(2000, 50), seq(50, i => i as real));
    SelectFrom2000(d);
  }

  /** Selecting 2010..2019 from any series over 2000..2049. */
  lemma SelectFrom2000(d: DiscRates)
    requires Valid(d) && d.years == Consecutive(2000, 50)
    ensures Select(d, Consecutive(2010, 10)) == Some(d.(years := Consecutive(2010, 10), rates := d.rates[10..20]))
  {
    assert forall i :: 0 <= i < 50 ==> d.years[i] == 2000 + i;
    SelectConsecutive(d, 2000, 2010, 10);
    var sel := Select(d, Consecutive(2010, 10)).value;
    assert sel == d.(years := Consecutive(2010, 10), rates := d.rates[10..20]);
  }

  /** Selecting 2050..2059 from a series over 2000..2049 finds nothing. */
  lemma SelectDisjointExample()
    ensures
      var d := DiscRates(Tags.Tag("file1.txt", "descr1"), Consecutive(2000, 50), seq(50, i => i as real));
      Select(d, Consecutive(2050, 10)) == None
  {
    var d := DiscRates(Tags.Tag("file1.txt", "descr1"), Consecutive(2000, 50), seq(50, i => i as real));
    assert forall i :: 0 <= i < 50 ==> d.years[i] == 2000 + i;
  }

  // ---------------------------------------------------------------------------
  // net present value

  function Pow(x: real, n: nat): real {
    if n == 0 then 1.0 else x * Pow(x, n - 1)
  }

  lemma {:induction false} PowPositive(x: real, n: nat)
    requires x > 0.0
    ensures Pow(x, n) > 0.0
  {
    if n > 0 {
      PowPositive(x, n - 1);
    }
  }

  /** The first `n` cash flows, the one at offset `i` divided by one plus its
      rate compounded `i` times, summed from the first year on. Non-negative
      cash flows have a non-negative discounted value. */
  function Discounted(values: seq<real>, rates: seq<real>, n: nat): (r: real)
    requires n <= |values| && n <= |rates|
    requires forall i :: 0 <= i < |rates| ==> rates[i] > -1.0
    ensures (forall i :: 0 <= i < |values| ==> values[i] >= 0.0) ==> r >= 0.0
  {
    if n == 0 then 0.0
    else
      PowPositive(1.0 + rates[n - 1], n - 1);
      Discounted(values, rates, n - 1) + values[n - 1] / Pow(1.0 + rates[n - 1], n - 1)
  }

  function Sum(values: seq<real>): real {
    if |values| == 0 then 0.0 else Sum(values[..|values| - 1]) + values[|values| - 1]
  }

  /** With all rates zero nothing is discounted: the value is the plain sum. */
  lemma {:induction false} DiscountedZeroRates(values: seq<real>, rates: seq<real>, n: nat)
    requires n <= |values| && n <= |rates|
    requires forall i :: 0 <= i < |rates| ==> rates[i] == 0.0
    ensures Discounted(values, rates, n) == Sum(values[..n])
  {
    if n > 0 {
      var k := n - 1;
      DiscountedZeroRates(values, rates, k);
      assert 1.0 + rates[k] == 1.0;
      assert Pow(1.0, k) == 1.0 by { PowOne(k); }
      assert Discounted(values, rates, n) == Discounted(values, rates, k) + values[k];
      assert values[..n][..k] == values[..k];
      assert Sum(values[..n]) == Sum(values[..k]) + values[k];
    }
  }

  lemma {:induction false} PowOne(n: nat)
    ensures Pow(1.0, n) == 1.0
  {
    if n > 0 {
      PowOne(n - 1);
    }
  }

  /** The years from `yearStart` to `yearEnd`, both included. */
  function YearSpan(yearStart: int, yearEnd: int): (r: seq<int>)
    ensures forall y :: y in r <==> yearStart <= y <= yearEnd
  {
    if yearEnd < yearStart then [] else Consecutive(yearStart, yearEnd - yearStart + 1)
  }

  /** `net_present_value`: discounts one cash flow per year of
      `yearStart..yearEnd` with the rates of those years; none when the
      series has no year in the range. */
  function NetPresentValue(d: DiscRates, yearStart: int, yearEnd: int, values: seq<real>): (r: Option<real>)
    requires Valid(d)
    requires |values| == yearEnd - yearStart + 1
    requires forall i :: 0 <= i < |d.rates| ==> d.rates[i] > -1.0
    ensures r.None? <==> forall i :: 0 <= i < |d.years| ==> !(yearStart <= d.years[i] <= yearEnd)
  {
    match Select(d, YearSpan(yearStart, yearEnd))
    case None => None
    case Some(sel) =>
      SelectedRatesInSource(d, sel);
      Some(Discounted(values, sel.rates, Min(|values|, |sel.rates|)))
  }

  function Min(a: nat, b: nat): nat {
    if a < b then a else b
  }

  /** Non-negative cash flows have a non-negative net present value. */
  lemma NetPresentValueNonNegative(d: DiscRates, yearStart: int, yearEnd: int, values: seq<real>)
    requires Valid(d)
    requires |values| == yearEnd - yearStart + 1
    requires forall i :: 0 <= i < |d.rates| ==> d.rates[i] > -1.0
    requires forall i :: 0 <= i < |values| ==> values[i] >= 0.0
    ensures NetPresentValue(d, yearStart, yearEnd, values).Some? ==> NetPresentValue(d, yearStart, yearEnd, values).value >= 0.0
  {
    match Select(d, YearSpan(yearStart, yearEnd))
    case None =>
    case Some(sel) =>
      SelectedRatesInSource(d, sel);
  }

  /** When the years in range are exactly those at the `|values|` positions
      `lo <= i < hi`, the net present value discounts the cash flows with the
      rates of that block. */
  lemma NetPresentValueOfBlock(d: DiscRates, yearStart: int, yearEnd: int, values: seq<real>, lo: nat, hi: nat)
    requires Valid(d)
    requires |values| == yearEnd - yearStart + 1
    requires forall i :: 0 <= i < |d.rates| ==> d.rates[i] > -1.0
    requires lo < hi <= |d.years| && hi - lo == |values|
    requires forall i :: 0 <= i < |d.years| ==> (yearStart <= d.years[i] <= yearEnd <==> lo <= i < hi)
    ensures forall i :: 0 <= i < hi - lo ==> d.rates[lo..hi][i] > -1.0
    ensures NetPresentValue(d, yearStart, yearEnd, values) == Some(Discounted(values, d.rates[lo..hi], |values|))
  {
    var sel := DiscRates(d.tag, d.years[lo..hi], d.rates[lo..hi]);
    SliceAboveMinusOne(d.rates, lo, hi);
    SelectBlock(d, YearSpan(yearStart, yearEnd), lo, hi);
    NetPresentValueOfSelection(d, yearStart, yearEnd, values, sel);
    assert sel.rates == d.rates[lo..hi];
    assert Min(|values|, |sel.rates|) == |values|;
  }

  /** On ascending years the block of the range holds the range's years
      themselves, one per position: the cash flow at offset `i - lo` is
      discounted with the rate of its own year. */
  lemma BlockYearsAscending(years: seq<int>, yearStart: int, yearEnd: int, lo: nat, hi: nat)
    requires Increasing(years)
    requires lo < hi <= |years| && hi - lo == yearEnd - yearStart + 1
    requires forall i :: 0 <= i < |years| ==> (yearStart <= years[i] <= yearEnd <==> lo <= i < hi)
    ensures forall i :: lo <= i < hi ==> years[i] == yearStart + (i - lo)
  {
    forall i | lo <= i < hi
      ensures years[i] == yearStart + (i - lo)
    {
      StepUp(years, lo, i);
      StepUp(years, i, hi - 1);
    }
  }

  lemma SliceAboveMinusOne(rates: seq<real>, lo: nat, hi: nat)
    requires lo <= hi <= |rates|
    requires forall i :: 0 <= i < |rates| ==> rates[i] > -1.0
    ensures forall i :: 0 <= i < hi - lo ==> rates[lo..hi][i] > -1.0
  {
    assert forall i :: 0 <= i < hi - lo ==> rates[lo..hi][i] == rates[lo + i];
  }

  /** The net present value discounts the cash flows with the selection's rates. */
  lemma NetPresentValueOfSelection(d: DiscRates, yearStart: int, yearEnd: int, values: seq<real>, sel: DiscRates)
    requires Valid(d)
    requires |values| == yearEnd - yearStart + 1
    requires forall i :: 0 <= i < |d.rates| ==> d.rates[i] > -1.0
    requires Select(d, YearSpan(yearStart, yearEnd)) == Some(sel)
    ensures forall i :: 0 <= i < |sel.rates| ==> sel.rates[i] > -1.0
    ensures NetPresentValue(d, yearStart, yearEnd, values) == Some(Discounted(values, sel.rates, Min(|values|, |sel.rates|)))
  {
    SelectedRatesInSource(d, sel);
  }

  /** With all rates zero, when the years in range are exactly those at the
      `|values|` positions `lo <= i < hi`, the net present value is the plain
      sum of all the cash flows. */
  lemma NetPresentValueZeroRates(d: DiscRates, yearStart: int, yearEnd: int, values: seq<real>, lo: nat, hi: nat)
    requires Valid(d)
    requires |values| == yearEnd - yearStart + 1
    requires forall i :: 0 <= i < |d.rates| ==> d.rates[i] == 0.0
    requires lo < hi <= |d.years| && hi - lo == |values|
    requires forall i :: 0 <= i < |d.years| ==> (yearStart <= d.years[i] <= yearEnd <==> lo <= i < hi)
    ensures NetPresentValue(d, yearStart, yearEnd, values) == Some(Sum(values))
  {
    NetPresentValueOfBlock(d, yearStart, yearEnd, values, lo, hi);
    SliceAllZero(d.rates, lo, hi);
    DiscountedZeroRates(values, d.rates[lo..hi], |values|);
    assert values[..|values|] == values;
  }

  lemma SliceAllZero(rates: seq<real>, lo: nat, hi: nat)
    requires lo <= hi <= |rates|
    requires forall i :: 0 <= i < |rates| ==> rates[i] == 0.0
    ensures forall i :: 0 <= i < |rates[lo..hi]| ==> rates[lo..hi][i] == 0.0
  {
    assert forall i :: 0 <= i < hi - lo ==> rates[lo..hi][i] == rates[lo + i];
  }

  /** Every selected rate is a rate of the source series. */
  lemma SelectedRatesInSource(d: DiscRates, sel: DiscRates)
    requires Valid(d) && Valid(sel)
    requires IsSubsequence(Pairs(sel), Pairs(d))
    ensures forall k :: 0 <= k < |sel.rates| ==> exists i :: 0 <= i < |d.rates| && sel.rates[k] == d.rates[i]
  {
    SubsequenceMembers(Pairs(sel), Pairs(d));
    forall k | 0 <= k < |sel.rates|
      ensures exists i :: 0 <= i < |d.rates| && sel.rates[k] == d.rates[i]
    {
      assert Pairs(sel)[k] in Pairs(d);
      var i :| 0 <= i < |Pairs(d)| && Pairs(d)[i] == Pairs(sel)[k];
    }
  }

  /** A range after the last year of 2000..2049 has no net present value. */
  lemma NetPresentValueDisjointExample(values: seq<real>)
    requires |values| == 11
    ensures
      var d := DiscRates(Tags.Tag("file1.txt", "descr1"), Consecutive(2000, 50), seq(50, i => i as real));
      NetPresentValue(d, 2050, 2060, values) == None
  {
    var d := DiscRates(Tags.Tag("file1.txt", "descr1"), Consecutive(2000, 50), seq(50, i => i as real));
    assert forall i :: 0 <= i < 50 ==> d.years[i] == 2000 + i;
  }
}
