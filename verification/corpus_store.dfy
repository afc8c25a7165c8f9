/** The corpus of stored words and its three mutations: adding a list of
    words with get-or-create semantics, deleting one word, deleting all. */
module CorpusStore {
  import opened Wrappers
  import opened Sequences
  import opened Keys

  /** One stored row: the word as submitted plus the fields derived from it. */
  datatype Entry = Entry(
    word: string,
    sortedWord: string,
    sortedLowercaseWord: string,
    isProperNoun: bool,
    length: nat)

  /** The stored rows, in creation order. */
  type Corpus = seq<Entry>

  datatype StoreError = NotFound | MultipleObjectsReturned

  function WordOf(e: Entry): string { e.word }

  /** The keys `post` computes for a word before storing it. */
  function MakeEntry(w: string): (e: Entry)
    ensures e.word == w
    ensures e.length == |w|
    ensures SortedBy(e.sortedWord, CharRank) && multiset(e.sortedWord) == multiset(w)
    ensures SortedBy(e.sortedLowercaseWord, CharRank)
    ensures multiset(e.sortedLowercaseWord) == multiset(Lower(w))
    ensures e.isProperNoun <==> TitleShaped(w)
  {
    Entry(w, SortedKey(w), LowercaseKey(w), IsTitle(w), |w|)
  }

  /** Every row holds the fields derived from its word, and no word is
      stored twice. Every corpus built by the mutations below has this shape. */
  ghost predicate WellFormed(c: Corpus)
  {
    && (forall i :: 0 <= i < |c| ==> c[i] == MakeEntry(c[i].word))
    && DistinctBy(c, WordOf)
  }

  /** Every row of a well-formed corpus carries the keys of its own word. */
  lemma StoredRowsDerived(c: Corpus)
    requires WellFormed(c)
    ensures forall e :: e in c ==>
      && e == MakeEntry(e.word)
      && e.sortedWord == SortedKey(e.word)
      && e.sortedLowercaseWord == LowercaseKey(e.word)
      && e.isProperNoun == IsTitle(e.word)
      && e.length == |e.word|
  {
    forall e | e in c ensures e == MakeEntry(e.word) {
      var i :| 0 <= i < |c| && c[i] == e;
    }
  }

  /** One row of a well-formed corpus carries the keys of its own word. */
  lemma RowKeyOf(c: Corpus, e: Entry)
    requires WellFormed(c) && e in c
    ensures e.sortedLowercaseWord == LowercaseKey(e.word)
    ensures e.length == |e.word|
  {
    var i :| 0 <= i < |c| && c[i] == e;
  }

  /** A word whose row is absent from a well-formed corpus is not stored
      under any other fields either. */
  lemma AbsentWordNotStored(c: Corpus, w: string)
    requires WellFormed(c)
    requires MakeEntry(w) !in c
    ensures forall i :: 0 <= i < |c| ==> c[i].word != w
  {
    forall i | 0 <= i < |c| ensures c[i].word != w {
      assert c[i] == MakeEntry(c[i].word);
    }
  }

  /** Appending the row of a word not yet stored keeps the invariant. */
  lemma AppendFreshKeepsWellFormed(c: Corpus, w: string)
    requires MakeEntry(w) !in c
    ensures WellFormed(c) ==> WellFormed(c + [MakeEntry(w)])
  {
    var r := c + [MakeEntry(w)];
    if WellFormed(c) {
      AbsentWordNotStored(c, w);
      forall i, j | 0 <= i < j < |r| ensures WordOf(r[i]) != WordOf(r[j]) {
        if j < |c| {
          assert r[i] == c[i] && r[j] == c[j];
        }
      }
      forall i | 0 <= i < |r| ensures r[i] == MakeEntry(r[i].word) {
        if i < |c| {
          assert r[i] == c[i];
        }
      }
    }
  }

  /** `get_or_create` with every derived field: the lookup matches a row
      only when all fields agree, so the new row is appended unless an
      identical one exists. */
  function Add(c: Corpus, w: string): (r: Corpus)
    ensures MakeEntry(w) in r
    ensures |c| <= |r| <= |c| + 1
    ensures forall i :: 0 <= i < |c| ==> r[i] == c[i]
    ensures forall e :: e in r ==> e in c || e == MakeEntry(w)
    ensures WellFormed(c) ==> WellFormed(r)
  {
    if MakeEntry(w) in c then c
    else
      AppendFreshKeepsWellFormed(c, w);
      c + [MakeEntry(w)]
  }

  /** Under the corpus invariant the all-fields lookup of `get_or_create`
      is a lookup by the exact word. */
  lemma AddLooksUpByWord(c: Corpus, w: string)
    requires WellFormed(c)
    ensures MakeEntry(w) in c <==> exists e :: e in c && e.word == w
  {
    if e :| e in c && e.word == w {
      var i :| 0 <= i < |c| && c[i] == e;
    }
  }

  /** `get_or_create` raises `MultipleObjectsReturned` when its lookup
      matches two rows. A well-formed corpus holds each row at most once,
      so `Add` never meets that error. */
  lemma RowsOccurOnce(c: Corpus, e: Entry)
    requires WellFormed(c)
    ensures multiset(c)[e] <= 1
  {
    DistinctByOccursOnce(c, WordOf, e);
  }

  /** The words of a request body, added one after another. */
  function AddWords(c: Corpus, ws: seq<string>): (r: Corpus)
    ensures forall w :: w in ws ==> MakeEntry(w) in r
    ensures forall e :: e in r ==> e in c || exists w :: w in ws && e == MakeEntry(w)
    ensures |c| <= |r| <= |c| + |ws|
    ensures forall i :: 0 <= i < |c| ==> r[i] == c[i]
    ensures WellFormed(c) ==> WellFormed(r)
    decreases |ws|
  {
    if |ws| == 0 then c
    else
      var c' := Add(c, ws[0]);
      var r := AddWords(c', ws[1..]);
      assert forall w :: w in ws ==> w == ws[0] || w in ws[1..];
      assert forall e :: e in r ==> e in c || exists w :: w in ws && e == MakeEntry(w) by {
        forall e | e in r ensures e in c || exists w :: w in ws && e == MakeEntry(w) {
          if e !in c' {
            var w :| w in ws[1..] && e == MakeEntry(w);
            assert w in ws;
          } else if e !in c {
            assert ws[0] in ws;
          }
        }
      }
      r
  }

  /** The rows `post` creates for words that are all new and pairwise
      different. */
  function NewRows(ws: seq<string>): (es: seq<Entry>)
    ensures |es| == |ws|
    ensures forall i :: 0 <= i < |ws| ==> es[i] == MakeEntry(ws[i])
  {
    if |ws| == 0 then [] else [MakeEntry(ws[0])] + NewRows(ws[1..])
  }

  /** The conditions of `AddNewWords` pass from a word list to its tail
      once the first word is stored. */
  lemma NewWordsTail(c: Corpus, ws: seq<string>)
    requires |ws| > 0
    requires forall e :: e in c ==> e.word !in ws
    requires forall i, j :: 0 <= i < j < |ws| ==> ws[i] != ws[j]
    ensures forall e :: e in c + [MakeEntry(ws[0])] ==> e.word !in ws[1..]
    ensures forall i, j :: 0 <= i < j < |ws[1..]| ==> ws[1..][i] != ws[1..][j]
  {
    var t := ws[1..];
    forall e | e in c + [MakeEntry(ws[0])] ensures e.word !in t {
      if e in c {
        assert forall w :: w in t ==> w in ws;
      } else {
        forall k | 0 <= k < |t| ensures t[k] != ws[0] {
          assert t[k] == ws[k + 1];
        }
      }
    }
    forall i, j | 0 <= i < j < |t| ensures t[i] != t[j] {
      assert t[i] == ws[i + 1] && t[j] == ws[j + 1];
    }
  }

  lemma AddFreshWord(c: Corpus, w: string)
    requires forall e :: e in c ==> e.word != w
    ensures Add(c, w) == c + [MakeEntry(w)]
  {
  }

  lemma NewRowsCons(c: Corpus, ws: seq<string>)
    requires |ws| > 0
    ensures c + [MakeEntry(ws[0])] + NewRows(ws[1..]) == c + NewRows(ws)
  {
    var x, rest := MakeEntry(ws[0]), NewRows(ws[1..]);
    assert NewRows(ws) == [x] + rest;
    ConcatAssociative(c, [x], rest);
  }

  /** Words that are new and pairwise different are appended in request
      order, one row each. */
  lemma {:induction false} AddNewWords(c: Corpus, ws: seq<string>)
    requires forall e :: e in c ==> e.word !in ws
    requires forall i, j :: 0 <= i < j < |ws| ==> ws[i] != ws[j]
    ensures AddWords(c, ws) == c + NewRows(ws)
    decreases |ws|
  {
    if |ws| > 0 {
      var c' := c + [MakeEntry(ws[0])];
      assert ws[0] in ws;
      AddFreshWord(c, ws[0]);
      NewWordsTail(c, ws);
      AddNewWords(c', ws[1..]);
      NewRowsCons(c, ws);
    }
  }

  /** Adding words that are all stored already changes nothing. */
  lemma {:induction false} AddWordsPresent(c: Corpus, ws: seq<string>)
    requires forall w :: w in ws ==> MakeEntry(w) in c
    ensures AddWords(c, ws) == c
    decreases |ws|
  {
    if |ws| > 0 {
      assert ws[0] in ws;
      assert forall w :: w in ws[1..] ==> w in ws;
      AddWordsPresent(c, ws[1..]);
    }
  }

  /** Re-posting the same words does not create a second row for any of them. */
  lemma AddWordsIdempotent(c: Corpus, ws: seq<string>)
    ensures AddWords(AddWords(c, ws), ws) == AddWords(c, ws)
  {
    AddWordsPresent(AddWords(c, ws), ws);
  }

  function WithWord(c: Corpus, w: string): seq<Entry>
  {
    Filter(c, (e: Entry) => e.word == w)
  }

  function WithoutWord(c: Corpus, w: string): seq<Entry>
  {
    Filter(c, (e: Entry) => e.word != w)
  }

  /** In a well-formed corpus a word is stored at most once. */
  lemma {:induction false} StoredOnce(c: Corpus, w: string)
    requires DistinctBy(c, WordOf)
    ensures |WithWord(c, w)| == if exists e :: e in c && e.word == w then 1 else 0
  {
    if |c| > 0 {
      DistinctByTail(c, WordOf);
      StoredOnce(c[1..], w);
      assert c == [c[0]] + c[1..];
      assert forall e :: e in c <==> e == c[0] || e in c[1..];
    }
  }

  /** After adding, each added word is held by exactly one row. */
  lemma AddWordsStoresOnce(c: Corpus, ws: seq<string>, w: string)
    requires WellFormed(c)
    requires w in ws
    ensures |WithWord(AddWords(c, ws), w)| == 1
  {
    var r := AddWords(c, ws);
    assert MakeEntry(w) in r;
    StoredOnce(r, w);
  }

  /** `delete` on the word list: every row goes. */
  function DeleteAll(c: Corpus): (r: Corpus)
    ensures |r| == 0
  {
    []
  }

  /** Removing the only row that holds `w` keeps every other row and
      loses exactly that one. */
  lemma RemoveSingleRow(c: Corpus, w: string)
    requires |WithWord(c, w)| == 1
    ensures var r := WithoutWord(c, w);
      && |r| == |c| - 1
      && multiset(r) == multiset(c) - multiset{WithWord(c, w)[0]}
  {
    var hits := WithWord(c, w);
    var r := WithoutWord(c, w);
    var e := hits[0];
    SplitByWord(c, w);
    assert hits == [e];
    forall x ensures multiset(r)[x] == (multiset(c) - multiset{e})[x] {
      if x.word == w {
        assert multiset(hits)[x] == multiset(c)[x];
      }
    }
    assert multiset(r) == multiset(c) - multiset{e};
  }

  lemma {:induction false} SplitByWord(c: Corpus, w: string)
    ensures |WithWord(c, w)| + |WithoutWord(c, w)| == |c|
  {
    if |c| > 0 {
      SplitByWord(c[1..], w);
    }
  }

  lemma WithoutWordKeepsWellFormed(c: Corpus, w: string)
    ensures WellFormed(c) ==> WellFormed(WithoutWord(c, w))
  {
    if WellFormed(c) {
      var r := WithoutWord(c, w);
      FilterKeepsDistinct(c, (e: Entry) => e.word != w, WordOf);
      assert DistinctBy(r, WordOf);
      forall i | 0 <= i < |r| ensures r[i] == MakeEntry(r[i].word) {
        assert r[i] in c;
        var j :| 0 <= j < |c| && c[j] == r[i];
      }
    }
  }

  /** `get_object_or_404(Word, word=w).delete()`: fails with not-found when
      no row holds the word, with the lookup's multiple-rows error when
      several do, and otherwise removes that one row. */
  function DeleteWord(c: Corpus, w: string): (r: Result<Corpus, StoreError>)
    ensures r == Failure(NotFound) <==> forall e :: e in c ==> e.word != w
    ensures r.Success? ==>
      && |r.value| == |c| - 1
      && (forall e :: e in r.value <==> e in c && e.word != w)
      && exists e :: e in c && e.word == w && multiset(r.value) == multiset(c) - multiset{e}
    ensures WellFormed(c) ==> r.Success? || r == Failure(NotFound)
    ensures WellFormed(c) && r.Success? ==> WellFormed(r.value)
  {
    var hits := WithWord(c, w);
    if |hits| == 0 then
      assert forall e :: e in c ==> e.word != w by {
        forall e | e in c ensures e.word != w {
          assert e.word == w ==> e in hits;
        }
      }
      Failure(NotFound)
    else if |hits| > 1 then
      assert hits[0] in c;
      assert !WellFormed(c) by {
        if WellFormed(c) {
          StoredOnce(c, w);
        }
      }
      Failure(MultipleObjectsReturned)
    else
      var r := WithoutWord(c, w);
      assert hits[0] in hits;
      RemoveSingleRow(c, w);
      WithoutWordKeepsWellFormed(c, w);
      Success(r)
  }
}
