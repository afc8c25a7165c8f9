/** The read-only queries over the corpus: anagrams of one word, the
    biggest anagram group, and the mutual-anagram check. */
module Queries {
  import opened Wrappers
  import opened Sequences
  import opened Keys
  import opened CorpusStore

  datatype QueryError =
    | NegativeLimit     // a queryset refuses a negative slice bound
    | FilterAfterSlice  // a queryset refuses a filter once it is sliced

  /** `values_list("word", flat=True)`. */
  function WordsOf(es: seq<Entry>): (ws: seq<string>)
    ensures |ws| == |es|
    ensures forall i :: 0 <= i < |es| ==> ws[i] == es[i].word
  {
    seq(|es|, i requires 0 <= i < |es| => es[i].word)
  }

  // ----- anagrams for a word -----------------------------------------------

  /** Rows sharing the query's lowercase key, except the row holding the
      query string itself. */
  function Matching(c: Corpus, q: string): (r: seq<Entry>)
    ensures forall e :: e in r <==> e in c && e.sortedLowercaseWord == LowercaseKey(q) && e.word != q
    ensures DistinctBy(c, WordOf) ==> DistinctBy(r, WordOf)
  {
    var matches := (e: Entry) => e.sortedLowercaseWord == LowercaseKey(q) && e.word != q;
    FilterKeepsDistinct(c, matches, WordOf);
    Filter(c, matches)
  }

  /** `exclude(is_proper_noun=True)`. */
  function CommonNouns(es: seq<Entry>): (r: seq<Entry>)
    ensures forall e :: e in r <==> e in es && !e.isProperNoun
    ensures DistinctBy(es, WordOf) ==> DistinctBy(r, WordOf)
  {
    var common := (e: Entry) => !e.isProperNoun;
    FilterKeepsDistinct(es, common, WordOf);
    Filter(es, common)
  }

  function Candidates(c: Corpus, q: string, excludeProperNouns: bool): seq<Entry>
  {
    if excludeProperNouns then CommonNouns(Matching(c, q)) else Matching(c, q)
  }

  /** A candidate is a stored row with the query's lowercase key, other
      than the query word, and not a proper noun when those are excluded. */
  lemma CandidatesMeaning(c: Corpus, q: string, excludeProperNouns: bool)
    ensures forall e :: e in Candidates(c, q, excludeProperNouns) <==>
      && e in c
      && e.sortedLowercaseWord == LowercaseKey(q)
      && e.word != q
      && (excludeProperNouns ==> !e.isProperNoun)
  {
  }

  lemma WordsOfMembership(es: seq<Entry>)
    ensures forall w :: w in WordsOf(es) <==> exists e :: e in es && e.word == w
  {
    var ws := WordsOf(es);
    forall w | w in ws ensures exists e :: e in es && e.word == w {
      var i :| 0 <= i < |ws| && ws[i] == w;
      assert es[i] in es;
    }
    forall e | e in es ensures e.word in ws {
      var i :| 0 <= i < |es| && es[i] == e;
      assert ws[i] == e.word;
    }
  }

  /** Rows holding pairwise different words give pairwise different words. */
  lemma WordsOfDistinct(es: seq<Entry>)
    ensures DistinctBy(es, WordOf) ==>
      forall i, j :: 0 <= i < j < |es| ==> WordsOf(es)[i] != WordsOf(es)[j]
  {
  }

  /** The anagrams of `q` stored in the corpus. The optional limit is
      applied after the proper-noun filter. */
  function AnagramsFor(c: Corpus, q: string, limit: Option<int>, excludeProperNouns: bool)
    : (r: Result<seq<string>, QueryError>)
    ensures r.Failure? <==> limit.Some? && limit.value < 0
    ensures r.Failure? ==> r.error == NegativeLimit
    ensures r.Success? ==> forall w :: w in r.value ==>
      && w != q
      && exists e :: e in c && e.word == w && e.sortedLowercaseWord == LowercaseKey(q)
                     && (excludeProperNouns ==> !e.isProperNoun)
    ensures r.Success? && limit.None? ==> forall e :: e in c ==>
      e.sortedLowercaseWord == LowercaseKey(q) && e.word != q && (excludeProperNouns ==> !e.isProperNoun)
      ==> e.word in r.value
    ensures r.Success? && limit.Some? ==> |r.value| <= limit.value
  {
    if limit.Some? && limit.value < 0 then Failure(NegativeLimit)
    else
      var es := Candidates(c, q, excludeProperNouns);
      var kept := if limit.Some? then Take(es, limit.value) else es;
      CandidatesMeaning(c, q, excludeProperNouns);
      WordsOfMembership(kept);
      assert forall e :: e in kept ==> e in es;
      Success(WordsOf(kept))
  }

  /** With limit `n`, the result is the first `min(n, m)` of the `m`
      unlimited results: limit 0 gives nothing. */
  lemma LimitTruncates(c: Corpus, q: string, n: nat, excludeProperNouns: bool)
    ensures var all := AnagramsFor(c, q, None, excludeProperNouns).value;
      var some := AnagramsFor(c, q, Some(n), excludeProperNouns);
      && some.Success?
      && |some.value| == (if n <= |all| then n else |all|)
      && some.value == all[..|some.value|]
  {
    var es := Candidates(c, q, excludeProperNouns);
    assert AnagramsFor(c, q, None, excludeProperNouns) == Success(WordsOf(es));
    assert AnagramsFor(c, q, Some(n), excludeProperNouns) == Success(WordsOf(Take(es, n)));
    WordsOfTake(es, n);
  }

  lemma WordsOfTake(es: seq<Entry>, n: nat)
    ensures var some := WordsOf(Take(es, n));
      && |some| == (if n <= |es| then n else |es|)
      && some == WordsOf(es)[..|some|]
  {
  }

  /** In a well-formed corpus no word is reported twice. */
  lemma AnagramsForDistinct(c: Corpus, q: string, limit: Option<int>, excludeProperNouns: bool)
    requires WellFormed(c)
    requires AnagramsFor(c, q, limit, excludeProperNouns).Success?
    ensures var ws := AnagramsFor(c, q, limit, excludeProperNouns).value;
      forall i, j :: 0 <= i < j < |ws| ==> ws[i] != ws[j]
  {
    var es := Candidates(c, q, excludeProperNouns);
    var kept := if limit.Some? then Take(es, limit.value) else es;
    TakeKeepsDistinct(es, if limit.Some? then limit.value else 0, WordOf);
    WordsOfDistinct(kept);
    assert AnagramsFor(c, q, limit, excludeProperNouns).value == WordsOf(kept);
  }

  /** Excluding proper nouns only removes words: the filtered result is
      the unfiltered one without the rows flagged as proper nouns. */
  lemma ExcludeProperNounsFilters(c: Corpus, q: string)
    ensures var all := AnagramsFor(c, q, None, false).value;
      var common := AnagramsFor(c, q, None, true).value;
      forall w :: w in common ==> w in all
  {
  }

  /** In a well-formed corpus every returned word is a true anagram of the
      query (same letters after lower-casing), and with the filter on none
      of them is title-cased. */
  lemma AnagramsAreAnagrams(c: Corpus, q: string, limit: Option<int>, excludeProperNouns: bool)
    requires WellFormed(c)
    requires AnagramsFor(c, q, limit, excludeProperNouns).Success?
    ensures forall w :: w in AnagramsFor(c, q, limit, excludeProperNouns).value ==>
      && LowercaseKey(w) == LowercaseKey(q)
      && multiset(Lower(w)) == multiset(Lower(q))
      && (excludeProperNouns ==> !IsTitle(w))
  {
    var ws := AnagramsFor(c, q, limit, excludeProperNouns).value;
    forall w | w in ws
      ensures LowercaseKey(w) == LowercaseKey(q)
      ensures multiset(Lower(w)) == multiset(Lower(q))
      ensures excludeProperNouns ==> !IsTitle(w)
    {
      var e :| e in c && e.word == w && e.sortedLowercaseWord == LowercaseKey(q)
               && (excludeProperNouns ==> !e.isProperNoun);
      var i :| 0 <= i < |c| && c[i] == e;
      assert e == MakeEntry(w);
      LowercaseKeyIffAnagram(w, q);
    }
  }

  /** The view as written: it slices first and filters the sliced
      queryset, which the ORM refuses when both options are given. */
  function AnagramsAsWritten(c: Corpus, q: string, limit: Option<int>, excludeProperNouns: bool)
    : (r: Result<seq<string>, QueryError>)
    ensures r.Failure? <==> limit.Some? && (limit.value < 0 || excludeProperNouns)
    ensures !(limit.Some? && excludeProperNouns) ==> r == AnagramsFor(c, q, limit, excludeProperNouns)
  {
    var m := Matching(c, q);
    if limit.Some? && limit.value < 0 then Failure(NegativeLimit)
    else
      var sliced := if limit.Some? then Take(m, limit.value) else m;
      if excludeProperNouns then
        if limit.Some? then Failure(FilterAfterSlice) else Success(WordsOf(CommonNouns(sliced)))
      else Success(WordsOf(sliced))
  }

  /** Asking for at most `n` anagrams without proper nouns fails as
      written, while the intended query answers with at most `n` common
      nouns. */
  lemma SliceThenFilterRejected(c: Corpus, q: string, n: nat)
    ensures AnagramsAsWritten(c, q, Some(n), true) == Failure(FilterAfterSlice)
    ensures var r := AnagramsFor(c, q, Some(n), true);
      var all := AnagramsFor(c, q, None, true).value;
      && r.Success?
      && |r.value| == (if n <= |all| then n else |all|)
      && r.value == all[..|r.value|]
  {
    LimitTruncates(c, q, n, true);
  }

  // ----- biggest anagram group ---------------------------------------------

  /** The rows of one anagram group, in corpus order. */
  function KeyGroup(c: Corpus, k: string): seq<Entry>
  {
    Filter(c, (e: Entry) => e.sortedLowercaseWord == k)
  }

  function GroupSize(c: Corpus, k: string): nat
  {
    |KeyGroup(c, k)|
  }

  /** `order_by("-count", "sorted_lowercase_word")`: key `a` comes no later
      than key `b`. */
  predicate Outranks(c: Corpus, a: string, b: string)
  {
    GroupSize(c, a) > GroupSize(c, b) || (GroupSize(c, a) == GroupSize(c, b) && LexLe(a, b))
  }

  lemma OutranksTotal(c: Corpus, a: string, b: string)
    ensures Outranks(c, a, b) || Outranks(c, b, a)
  {
    LexLeTotal(a, b);
  }

  /** Two different keys never tie, so `.first()` has one answer. */
  lemma OutranksAntisymmetric(c: Corpus, a: string, b: string)
    requires Outranks(c, a, b) && Outranks(c, b, a)
    ensures a == b
  {
    LexLeAntisymmetric(a, b);
  }

  lemma OutranksTransitive(c: Corpus, a: string, b: string, d: string)
    requires Outranks(c, a, b) && Outranks(c, b, d)
    ensures Outranks(c, a, d)
  {
    if GroupSize(c, a) == GroupSize(c, b) == GroupSize(c, d) {
      LexLeTransitive(a, b, d);
    }
  }

  function KeysOf(c: Corpus): (ks: seq<string>)
    ensures |ks| == |c|
    ensures forall i :: 0 <= i < |c| ==> ks[i] == c[i].sortedLowercaseWord
  {
    seq(|c|, i requires 0 <= i < |c| => c[i].sortedLowercaseWord)
  }

  /** A key that outranks one outranking every key of `ks` outranks them
      all. */
  lemma OutranksThrough(c: Corpus, a: string, b: string, ks: seq<string>)
    requires Outranks(c, a, b)
    requires forall j :: 0 <= j < |ks| ==> Outranks(c, b, ks[j])
    ensures forall j :: 0 <= j < |ks| ==> Outranks(c, a, ks[j])
  {
    forall j | 0 <= j < |ks| ensures Outranks(c, a, ks[j]) {
      OutranksTransitive(c, a, b, ks[j]);
    }
  }

  /** A key outranking the head and every key of the tail outranks all. */
  lemma OutranksCons(c: Corpus, k: string, ks: seq<string>)
    requires |ks| > 0
    requires Outranks(c, k, ks[0])
    requires forall j :: 0 <= j < |ks[1..]| ==> Outranks(c, k, ks[1..][j])
    ensures forall j :: 0 <= j < |ks| ==> Outranks(c, k, ks[j])
  {
    forall j | 0 <= j < |ks| ensures Outranks(c, k, ks[j]) {
      if j > 0 {
        assert ks[j] == ks[1..][j - 1];
      }
    }
  }

  /** `.first()` of the ordered groups: a key among `ks` that outranks
      every key in `ks`. */
  function PickBest(c: Corpus, ks: seq<string>): (k: string)
    requires |ks| > 0
    ensures k in ks
    ensures forall j :: 0 <= j < |ks| ==> Outranks(c, k, ks[j])
  {
    if |ks| == 1 then
      LexLeReflexive(ks[0]);
      ks[0]
    else
      var best := PickBest(c, ks[1..]);
      if Outranks(c, ks[0], best) then
        LexLeReflexive(ks[0]);
        OutranksThrough(c, ks[0], best, ks[1..]);
        OutranksCons(c, ks[0], ks);
        ks[0]
      else
        OutranksTotal(c, ks[0], best);
        OutranksCons(c, best, ks);
        best
  }

  datatype Group = Group(count: nat, words: seq<string>)

  /** `g` lists the group of the stored row `e`, whose key outranks every
      stored key. */
  ghost predicate TopOfGroups(c: Corpus, e: Entry, g: Group)
  {
    && e in c
    && g.words == WordsOf(KeyGroup(c, e.sortedLowercaseWord))
    && forall e' :: e' in c ==> Outranks(c, e.sortedLowercaseWord, e'.sortedLowercaseWord)
  }

  /** The chosen key belongs to a stored row and outranks the key of
      every stored row. */
  lemma BestKeyOutranksAll(c: Corpus)
    requires |c| > 0
    ensures var k := PickBest(c, KeysOf(c));
      && (exists e :: e in c && e.sortedLowercaseWord == k)
      && forall e :: e in c ==> Outranks(c, k, e.sortedLowercaseWord)
  {
    var ks := KeysOf(c);
    var k := PickBest(c, ks);
    var i :| 0 <= i < |ks| && ks[i] == k;
    assert c[i] in c;
    forall e | e in c ensures Outranks(c, k, e.sortedLowercaseWord) {
      var j :| 0 <= j < |c| && c[j] == e;
      assert ks[j] == e.sortedLowercaseWord;
    }
  }

  /** The largest anagram group, ties going to the smallest key; `(0, [])`
      for an empty corpus. */
  function BiggestGroup(c: Corpus): (g: Group)
    ensures |c| == 0 ==> g == Group(0, [])
    ensures g.count == |g.words|
    ensures |c| > 0 ==> g.count > 0
    ensures forall e :: e in c ==> GroupSize(c, e.sortedLowercaseWord) <= g.count
    ensures |c| > 0 ==> exists e :: TopOfGroups(c, e, g)
  {
    if |c| == 0 then Group(0, [])
    else
      var k := PickBest(c, KeysOf(c));
      BestKeyOutranksAll(c);
      var e :| e in c && e.sortedLowercaseWord == k;
      assert e in KeyGroup(c, k);
      var ws := WordsOf(KeyGroup(c, k));
      assert TopOfGroups(c, e, Group(|ws|, ws));
      Group(|ws|, ws)
  }

  /** In a well-formed corpus the biggest group lists exactly the stored
      words with one lowercase key. */
  lemma BiggestGroupSharesKey(c: Corpus)
    requires WellFormed(c)
    requires |c| > 0
    ensures var g := BiggestGroup(c);
      && |g.words| > 0
      && (forall w :: w in g.words ==> LowercaseKey(w) == LowercaseKey(g.words[0]))
      && (forall e :: e in c && LowercaseKey(e.word) == LowercaseKey(g.words[0]) ==> e.word in g.words)
  {
    var g := BiggestGroup(c);
    var e :| TopOfGroups(c, e, g);
    var k := e.sortedLowercaseWord;
    var grp := KeyGroup(c, k);
    StoredRowsDerived(c);
    WordsOfMembership(grp);
    assert forall w :: w in g.words ==> LowercaseKey(w) == k;
    assert g.words[0] in g.words;
  }

  // ----- anagram check -----------------------------------------------------

  /** `["".join(sorted(word.lower())) for word in words]`. */
  function LowerKeys(ws: seq<string>): (ks: seq<string>)
    ensures |ks| == |ws|
    ensures forall i :: 0 <= i < |ws| ==> ks[i] == LowercaseKey(ws[i])
  {
    seq(|ws|, i requires 0 <= i < |ws| => LowercaseKey(ws[i]))
  }

  /** `len(set(sorted_lowercase_words)) == 1`: the list is non-empty and
      every word has the lowercase key of the first. */
  function AreAnagrams(ws: seq<string>): (b: bool)
    ensures b <==> |ws| > 0 && forall i :: 0 <= i < |ws| ==> LowercaseKey(ws[i]) == LowercaseKey(ws[0])
  {
    var ks := LowerKeys(ws);
    SingletonValues(ks);
    |set k | k in ks| == 1
  }

  /** Two words pass the check exactly when their lower-cased forms are
      rearrangements of each other. */
  lemma AreAnagramsPair(a: string, b: string)
    ensures AreAnagrams([a, b]) <==> multiset(Lower(a)) == multiset(Lower(b))
  {
    var ws := [a, b];
    assert AreAnagrams(ws) <==> LowercaseKey(ws[1]) == LowercaseKey(ws[0]);
    LowercaseKeyIffAnagram(a, b);
  }

  /** The check does not depend on the order of the words. */
  lemma AreAnagramsIgnoresOrder(ws: seq<string>, vs: seq<string>)
    requires multiset(ws) == multiset(vs)
    ensures AreAnagrams(ws) == AreAnagrams(vs)
  {
    var kw := LowerKeys(ws);
    var kv := LowerKeys(vs);
    assert (set k | k in kw) == (set k | k in kv) by {
      forall k | k in kw ensures k in kv {
        var i :| 0 <= i < |ws| && kw[i] == k;
        assert ws[i] in multiset(vs);
        var j :| 0 <= j < |vs| && vs[j] == ws[i];
        assert kv[j] == k;
      }
      forall k | k in kv ensures k in kw {
        var j :| 0 <= j < |vs| && kv[j] == k;
        assert vs[j] in multiset(ws);
        var i :| 0 <= i < |ws| && ws[i] == vs[j];
        assert kw[i] == k;
      }
    }
  }

  /** The check does not depend on the case of the words. */
  lemma AreAnagramsIgnoresCase(ws: seq<string>, vs: seq<string>)
    requires |ws| == |vs|
    requires forall i :: 0 <= i < |ws| ==> Lower(ws[i]) == Lower(vs[i])
    ensures AreAnagrams(ws) == AreAnagrams(vs)
  {
    forall i | 0 <= i < |ws| ensures LowercaseKey(ws[i]) == LowercaseKey(vs[i]) {
      LowercaseKeyIgnoresCase(ws[i], vs[i]);
    }
    assert LowerKeys(ws) == LowerKeys(vs);
  }
}
