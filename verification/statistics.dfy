/** The length statistics of the corpus: count, shortest, longest, mean
    and median word length. */
module Statistics {
  import opened Wrappers
  import opened Sequences
  import opened CorpusStore

  /** Absent fields are `None`, as the view reports them for an empty corpus. */
  datatype LengthStats = LengthStats(
    totalWords: nat,
    minLength: Option<int>,
    maxLength: Option<int>,
    averageLength: Option<real>,
    medianLength: Option<real>)

  /** `values_list("length", flat=True)`. */
  function Lengths(c: Corpus): (ls: seq<int>)
    ensures |ls| == |c|
    ensures forall i :: 0 <= i < |c| ==> ls[i] == c[i].length
  {
    seq(|c|, i requires 0 <= i < |c| => c[i].length)
  }

  /** Lengths compare as integers. */
  function IntRank(x: int): int { x }

  lemma IntRankInjective()
    ensures Injective(IntRank)
  {
  }

  /** `order_by("length")` on the lengths. */
  function Ascending(ls: seq<int>): (s: seq<int>)
    ensures |s| == |ls|
    ensures SortedBy(s, IntRank)
    ensures multiset(s) == multiset(ls)
  {
    var s := SortBy(ls, IntRank);
    assert |s| == |multiset(s)| == |multiset(ls)| == |ls|;
    s
  }

  /** The median of lengths in ascending order: the middle one for an odd
      count, the mean of the two middle ones for an even count. */
  function Median(s: seq<int>): (m: real)
    requires |s| > 0
    requires SortedBy(s, IntRank)
    ensures s[0] as real <= m <= s[|s| - 1] as real
    ensures |s| % 2 == 1 ==> m == s[|s| / 2] as real
    ensures |s| % 2 == 0 ==> s[|s| / 2 - 1] as real <= m <= s[|s| / 2] as real
  {
    var n := |s|;
    if n % 2 == 1 then s[n / 2] as real
    else (s[n / 2 - 1] + s[n / 2]) as real / 2.0
  }

  /** `a` is the exact mean of `ls`: their total spread evenly. */
  ghost predicate IsMeanOf(a: real, ls: seq<int>)
  {
    a * |ls| as real == Sum(ls) as real
  }

  /** Integer bounds on a total carry over to the exact mean. */
  lemma MeanBounds(lo: int, hi: int, total: int, n: int)
    requires n > 0
    requires n * lo <= total <= n * hi
    ensures lo as real <= total as real / n as real <= hi as real
    ensures (total as real / n as real) * n as real == total as real
  {
    var r := n as real;
    assert (n * lo) as real == lo as real * r;
    assert (n * hi) as real == hi as real * r;
  }

  /** The mean length: the total length spread evenly over the words. */
  function Average(ls: seq<int>): (a: real)
    requires |ls| > 0
    ensures IsMeanOf(a, ls)
    ensures MinOf(ls) as real <= a <= MaxOf(ls) as real
  {
    MeanOfLengths(ls);
    Sum(ls) as real / |ls| as real
  }

  /** The total spread over the count is the mean and lies between the
      extremes. */
  lemma MeanOfLengths(ls: seq<int>)
    requires |ls| > 0
    ensures IsMeanOf(Sum(ls) as real / |ls| as real, ls)
    ensures MinOf(ls) as real <= Sum(ls) as real / |ls| as real <= MaxOf(ls) as real
  {
    SumBounds(ls, MinOf(ls), MaxOf(ls));
    MeanBounds(MinOf(ls), MaxOf(ls), Sum(ls), |ls|);
  }

  /** The ends of an ascending arrangement are the minimum and maximum. */
  lemma AscendingEnds(ls: seq<int>)
    requires |ls| > 0
    ensures var s := Ascending(ls);
      |s| == |ls| && s[0] == MinOf(ls) && s[|s| - 1] == MaxOf(ls)
  {
    var s := Ascending(ls);
    assert |s| == |multiset(s)| == |multiset(ls)| == |ls|;
    assert s[0] in multiset(ls) && s[|s| - 1] in multiset(ls);
    assert MinOf(ls) in multiset(s) && MaxOf(ls) in multiset(s);
  }

  /** `get_word_length_statistics`: the aggregates over the stored lengths
      and the median of the ascending lengths; only the count for an empty
      corpus. */
  function Stats(c: Corpus): (s: LengthStats)
    ensures s.totalWords == |c|
    ensures |c| == 0 ==>
      s.minLength.None? && s.maxLength.None? && s.averageLength.None? && s.medianLength.None?
    ensures |c| > 0 ==>
      && s.minLength.Some? && s.maxLength.Some? && s.averageLength.Some? && s.medianLength.Some?
      && (forall e :: e in c ==> s.minLength.value <= e.length <= s.maxLength.value)
      && (exists e :: e in c && e.length == s.minLength.value)
      && (exists e :: e in c && e.length == s.maxLength.value)
      && IsMeanOf(s.averageLength.value, Lengths(c))
      && s.minLength.value as real <= s.averageLength.value <= s.maxLength.value as real
      && s.minLength.value as real <= s.medianLength.value <= s.maxLength.value as real
    ensures |c| > 0 ==>
      var a, n := Ascending(Lengths(c)), |c|;
      s.medianLength.value ==
        if n % 2 == 1 then a[n / 2] as real else (a[n / 2 - 1] + a[n / 2]) as real / 2.0
  {
    if |c| == 0 then LengthStats(0, None, None, None, None)
    else
      var ls := Lengths(c);
      var lo := MinOf(ls);
      var hi := MaxOf(ls);
      var sorted := Ascending(ls);
      AscendingEnds(ls);
      var median := Median(sorted);
      assert lo as real <= median <= hi as real;
      var average := Average(ls);
      LengthsBound(c);
      LengthStats(|c|, Some(lo), Some(hi), Some(average), Some(median))
  }

  /** Bounds of the lengths transfer to the rows holding them. */
  lemma LengthsBound(c: Corpus)
    requires |c| > 0
    ensures forall e :: e in c ==> MinOf(Lengths(c)) <= e.length <= MaxOf(Lengths(c))
    ensures exists e :: e in c && e.length == MinOf(Lengths(c))
    ensures exists e :: e in c && e.length == MaxOf(Lengths(c))
  {
    var ls := Lengths(c);
    forall e | e in c ensures MinOf(ls) <= e.length <= MaxOf(ls) {
      var i :| 0 <= i < |c| && c[i] == e;
      assert ls[i] == e.length;
    }
    var i :| 0 <= i < |ls| && ls[i] == MinOf(ls);
    assert c[i] in c;
    var j :| 0 <= j < |ls| && ls[j] == MaxOf(ls);
    assert c[j] in c;
  }

  lemma {:induction false} SumInsert(x: int, s: seq<int>)
    requires SortedBy(s, IntRank)
    ensures Sum(Insert(x, s, IntRank)) == x + Sum(s)
  {
    if |s| > 0 && x > s[0] {
      SumInsert(x, s[1..]);
    }
  }

  lemma {:induction false} SumAscending(ls: seq<int>)
    ensures Sum(Ascending(ls)) == Sum(ls)
  {
    if |ls| > 0 {
      SumAscending(ls[1..]);
      SumInsert(ls[0], Ascending(ls[1..]));
    }
  }

  /** The extremes are determined by the multiset of values. */
  lemma ExtremesIgnoreOrder(a: seq<int>, b: seq<int>)
    requires |a| > 0
    requires multiset(a) == multiset(b)
    ensures |b| > 0 && MinOf(a) == MinOf(b) && MaxOf(a) == MaxOf(b)
  {
    assert |a| == |multiset(a)| == |multiset(b)| == |b|;
    assert MinOf(a) in multiset(b) && MinOf(b) in multiset(a);
    assert MaxOf(a) in multiset(b) && MaxOf(b) in multiset(a);
  }

  /** The rows carry no order the statistics could depend on: corpora
      holding the same lengths in any arrangement get the same report. */
  lemma StatsIgnoreOrder(c1: Corpus, c2: Corpus)
    requires multiset(Lengths(c1)) == multiset(Lengths(c2))
    ensures Stats(c1) == Stats(c2)
  {
    var a, b := Lengths(c1), Lengths(c2);
    assert |c1| == |a| == |multiset(a)| == |multiset(b)| == |b| == |c2|;
    if |a| > 0 {
      ExtremesIgnoreOrder(a, b);
      IntRankInjective();
      SortedUnique(Ascending(a), Ascending(b), IntRank);
      SumAscending(a);
      SumAscending(b);
    }
  }
}
