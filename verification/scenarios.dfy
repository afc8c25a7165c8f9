/** Concrete situations from the project's own test cases, stated over any
    corpus that fits them. */
module Scenarios {
  import opened Wrappers
  import opened Sequences
  import opened Keys
  import opened CorpusStore
  import opened Queries
  import opened Statistics

  // ----- letter case in queries ---------------------------------------------

  /** A query that differs from a stored word only in letter case finds
      that word: "Zab" finds "zab", because the query key is taken after
      lower-casing. */
  lemma CaseOnlyDifferenceMatches(c: Corpus, e: Entry, q: string)
    requires WellFormed(c)
    requires e in c && Lower(q) == Lower(e.word) && q != e.word
    ensures AnagramsFor(c, q, None, false).Success?
    ensures e.word in AnagramsFor(c, q, None, false).value
  {
    RowKeyOf(c, e);
  }

  /** "Zab" and "zab" differ only in letter case. */
  lemma ZabLowersToZab()
    ensures Lower("Zab") == Lower("zab") == "zab" && "Zab" != "zab"
  {
  }

  /** Hence, once "zab" is stored, the query "Zab" reports it. */
  lemma ZabFindsZab(c: Corpus, e: Entry)
    requires WellFormed(c)
    requires e in c && e.word == "zab"
    ensures AnagramsFor(c, "Zab", None, false).Success?
    ensures "zab" in AnagramsFor(c, "Zab", None, false).value
  {
    ZabLowersToZab();
    CaseOnlyDifferenceMatches(c, e, "Zab");
  }

  // ----- proper nouns --------------------------------------------------------

  /** Spellings that count as proper nouns. */
  lemma TitleExamples()
    ensures IsTitle("Food") && IsTitle("F") && IsTitle("New York")
  {
    assert TitleScan("York", false, true);
    assert TitleScan("New York", false, false);
    assert TitleScan("Food", false, false);
  }

  /** Spellings that do not: no capital, all capitals, no letter, or a
      capital straight after a letter. */
  lemma NotTitleExamples()
    ensures !IsTitle("food") && !IsTitle("FOOD") && !IsTitle("") && !IsTitle("McDonald")
  {
  }

  // ----- limits --------------------------------------------------------------

  /** With two anagrams stored, the limits 1, 2, 5 and 0 return 1, 2, 2 and
      0 words, and no limit returns both. */
  lemma LimitExamples(c: Corpus, q: string)
    requires |AnagramsFor(c, q, None, false).value| == 2
    ensures |AnagramsFor(c, q, Some(1), false).value| == 1
    ensures |AnagramsFor(c, q, Some(2), false).value| == 2
    ensures |AnagramsFor(c, q, Some(5), false).value| == 2
    ensures |AnagramsFor(c, q, Some(0), false).value| == 0
  {
    LimitTruncates(c, q, 1, false);
    LimitTruncates(c, q, 2, false);
    LimitTruncates(c, q, 5, false);
    LimitTruncates(c, q, 0, false);
  }

  // ----- statistics ----------------------------------------------------------

  /** Rows with the lengths of "fo", "bard", "bazinga", "ofo", "rab",
      "zab", "oof" and "successful", which arranged in ascending order are
      2, 3, 3, 3, 3, 4, 7, 10 (the arrangement of the rows does not matter,
      by `StatsIgnoreOrder`): the median is the mean of the two middle
      lengths. */
  lemma StatsOfEightWords(c: Corpus)
    requires Ascending(Lengths(c)) == [2, 3, 3, 3, 3, 4, 7, 10]
    ensures Stats(c) == LengthStats(8, Some(2), Some(10), Some(4.375), Some(3.0))
  {
    var ls := Lengths(c);
    var s := Ascending(ls);
    assert |ls| == |multiset(ls)| == |multiset(s)| == 8;
    AscendingEnds(ls);
    assert MinOf(ls) == 2 && MaxOf(ls) == 10;
    SumAscending(ls);
    assert Sum([2, 3, 3, 3, 3, 4, 7, 10]) == 35;
    assert Average(ls) == 4.375;
    assert Median(s) == 3.0;
  }

  /** A single word of length 6: every statistic is 6. */
  lemma StatsOfOneWord(c: Corpus)
    requires |c| == 1 && c[0].length == 6
    ensures Stats(c) == LengthStats(1, Some(6), Some(6), Some(6.0), Some(6.0))
  {
    var ls := Lengths(c);
    assert ls == [6];
  }

  /** Words of lengths 5 and 6 ("first", "second"): mean and median 5.5. */
  lemma StatsOfTwoWords(c: Corpus)
    requires |c| == 2 && c[0].length == 5 && c[1].length == 6
    ensures Stats(c) == LengthStats(2, Some(5), Some(6), Some(5.5), Some(5.5))
  {
    var ls := Lengths(c);
    assert ls[0] == 5 && ls[1] == 6;
    assert SortedBy(ls, IntRank);
    IntRankInjective();
    SortedUnique(Ascending(ls), ls, IntRank);
    AscendingEnds(ls);
    assert Sum(ls[2..]) == 0;
    assert Sum(ls) == 11;
    assert Average(ls) == 5.5;
    assert Median(ls) == 5.5;
  }

  /** After deleting every word the statistics report only the zero count
      and the biggest group is empty. */
  lemma EmptyCorpusReports(c: Corpus)
    ensures Stats(DeleteAll(c)) == LengthStats(0, None, None, None, None)
    ensures BiggestGroup(DeleteAll(c)) == Group(0, [])
  {
  }
}
