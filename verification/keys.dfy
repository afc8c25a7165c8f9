/** Key derivation for a stored word: the letters sorted by code point,
    the letters of the lower-cased word sorted, and Python's
    `str.istitle` flag, restricted to ASCII case rules. */
module Keys {
  import opened Sequences

  predicate IsUpper(c: char) { 'A' <= c <= 'Z' }
  predicate IsLower(c: char) { 'a' <= c <= 'z' }
  predicate IsCased(c: char) { IsUpper(c) || IsLower(c) }

  /** `str.lower` on one character: ASCII capitals move to small letters,
      everything else is kept. */
  function ToLower(c: char): (d: char)
    ensures IsUpper(c) ==> IsLower(d) && d as int == c as int + 32
    ensures !IsUpper(c) ==> d == c
  {
    if IsUpper(c) then (c as int + 32) as char else c
  }

  function Lower(s: string): (r: string)
    ensures |r| == |s|
    ensures forall i :: 0 <= i < |s| ==> r[i] == ToLower(s[i])
    ensures forall i :: 0 <= i < |r| ==> !IsUpper(r[i])
  {
    seq(|s|, i requires 0 <= i < |s| => ToLower(s[i]))
  }

  /** Characters compare by code point, as Python's `sorted` does. */
  function CharRank(c: char): int { c as int }

  lemma CharRankInjective()
    ensures Injective(CharRank)
  {
  }

  /** `"".join(sorted(word))`: the word's letters in code-point order. */
  function SortedKey(w: string): (k: string)
    ensures SortedBy(k, CharRank)
    ensures multiset(k) == multiset(w)
  {
    SortBy(w, CharRank)
  }

  /** `"".join(sorted(word.lower()))`: the case-insensitive grouping key. */
  function LowercaseKey(w: string): (k: string)
    ensures SortedBy(k, CharRank)
    ensures multiset(k) == multiset(Lower(w))
  {
    SortedKey(Lower(w))
  }

  /** Two words get the same sorted key exactly when one is a
      rearrangement of the other. */
  lemma SortedKeyIffPermutation(a: string, b: string)
    ensures SortedKey(a) == SortedKey(b) <==> multiset(a) == multiset(b)
  {
    if multiset(a) == multiset(b) {
      CharRankInjective();
      SortedUnique(SortedKey(a), SortedKey(b), CharRank);
    }
  }

  /** Two words share a lowercase key exactly when their lower-cased forms
      are rearrangements of each other. */
  lemma LowercaseKeyIffAnagram(a: string, b: string)
    ensures LowercaseKey(a) == LowercaseKey(b) <==> multiset(Lower(a)) == multiset(Lower(b))
  {
    SortedKeyIffPermutation(Lower(a), Lower(b));
  }

  /** The lowercase key depends only on the lower-cased word. */
  lemma LowercaseKeyIgnoresCase(a: string, b: string)
    requires Lower(a) == Lower(b)
    ensures LowercaseKey(a) == LowercaseKey(b)
  {
  }

  // ----- str.istitle -------------------------------------------------------

  /** Python's `istitle` loop: `previousCased` says whether the character
      before `s` was cased, `cased` whether a cased character was seen. */
  function TitleScan(s: string, previousCased: bool, cased: bool): bool
  {
    if |s| == 0 then cased
    else if IsUpper(s[0]) then
      if previousCased then false else TitleScan(s[1..], true, true)
    else if IsLower(s[0]) then
      if !previousCased then false else TitleScan(s[1..], true, true)
    else TitleScan(s[1..], false, cased)
  }

  /** `str.istitle`, which holds exactly for the title-shaped strings. */
  function IsTitle(s: string): (r: bool)
    ensures r <==> TitleShaped(s)
  {
    TitleScanIffTitleShaped(s);
    TitleScan(s, false, false)
  }

  /** Title case as Python documents it: at least one cased character,
      capitals only at the start or after an uncased character, small
      letters only after a cased character. */
  ghost predicate TitleShaped(s: string)
  {
    && (exists i :: 0 <= i < |s| && IsCased(s[i]))
    && (forall i :: 0 <= i < |s| && IsUpper(s[i]) ==> i == 0 || !IsCased(s[i - 1]))
    && (forall i :: 0 <= i < |s| && IsLower(s[i]) ==> 0 < i && IsCased(s[i - 1]))
  }

  function PreviousCased(s: string, before: bool, i: int): bool
    requires 0 <= i < |s|
  {
    if i == 0 then before else IsCased(s[i - 1])
  }

  /** Every letter of `s` obeys the title-case rule, where `before` says
      whether the character preceding `s` is cased. */
  ghost predicate CasedAfter(s: string, before: bool)
  {
    forall i :: 0 <= i < |s| ==>
      && (IsUpper(s[i]) ==> !PreviousCased(s, before, i))
      && (IsLower(s[i]) ==> PreviousCased(s, before, i))
  }

  ghost predicate HasCased(s: string)
  {
    exists i :: 0 <= i < |s| && IsCased(s[i])
  }

  lemma CasedAfterCons(s: string, before: bool)
    requires |s| > 0
    ensures CasedAfter(s, before) <==>
      && (IsUpper(s[0]) ==> !before)
      && (IsLower(s[0]) ==> before)
      && CasedAfter(s[1..], IsCased(s[0]))
  {
    var t := s[1..];
    if CasedAfter(s, before) {
      forall i | 0 <= i < |t|
        ensures (IsUpper(t[i]) ==> !PreviousCased(t, IsCased(s[0]), i))
        ensures (IsLower(t[i]) ==> PreviousCased(t, IsCased(s[0]), i))
      {
        assert t[i] == s[i + 1];
        assert PreviousCased(t, IsCased(s[0]), i) == PreviousCased(s, before, i + 1);
      }
    }
    if && (IsUpper(s[0]) ==> !before) && (IsLower(s[0]) ==> before) && CasedAfter(t, IsCased(s[0])) {
      forall i | 0 <= i < |s|
        ensures (IsUpper(s[i]) ==> !PreviousCased(s, before, i))
        ensures (IsLower(s[i]) ==> PreviousCased(s, before, i))
      {
        if i > 0 {
          assert s[i] == t[i - 1];
          assert PreviousCased(t, IsCased(s[0]), i - 1) == PreviousCased(s, before, i);
        }
      }
    }
  }

  lemma HasCasedCons(s: string)
    requires |s| > 0
    ensures HasCased(s) <==> IsCased(s[0]) || HasCased(s[1..])
  {
    if HasCased(s) && !IsCased(s[0]) {
      var i :| 0 <= i < |s| && IsCased(s[i]);
      assert s[1..][i - 1] == s[i];
    }
    if HasCased(s[1..]) {
      var i :| 0 <= i < |s[1..]| && IsCased(s[1..][i]);
      assert s[i + 1] == s[1..][i];
    }
  }

  lemma {:induction false} TitleScanMeaning(s: string, previousCased: bool, cased: bool)
    ensures TitleScan(s, previousCased, cased) <==> CasedAfter(s, previousCased) && (cased || HasCased(s))
    decreases |s|
  {
    if |s| > 0 {
      CasedAfterCons(s, previousCased);
      HasCasedCons(s);
      if IsUpper(s[0]) || IsLower(s[0]) {
        TitleScanMeaning(s[1..], true, true);
      } else {
        TitleScanMeaning(s[1..], false, cased);
      }
    }
  }

  /** Python's scanning `istitle` agrees with its documented meaning. */
  lemma TitleScanIffTitleShaped(s: string)
    ensures TitleScan(s, false, false) <==> TitleShaped(s)
  {
    TitleScanMeaning(s, false, false);
    assert CasedAfter(s, false) <==>
      && (forall i :: 0 <= i < |s| && IsUpper(s[i]) ==> i == 0 || !IsCased(s[i - 1]))
      && (forall i :: 0 <= i < |s| && IsLower(s[i]) ==> 0 < i && IsCased(s[i - 1]));
  }

  // ----- key order ---------------------------------------------------------

  /** Lexicographic order of keys by code point (`order_by` on a text
      column under a binary collation). */
  function LexLe(a: string, b: string): (r: bool)
    ensures |a| <= |b| && a == b[..|a|] ==> r
  {
    |a| == 0 || (|b| > 0 && (a[0] < b[0] || (a[0] == b[0] && LexLe(a[1..], b[1..]))))
  }

  lemma {:induction false} LexLeReflexive(a: string)
    ensures LexLe(a, a)
  {
    if |a| > 0 {
      LexLeReflexive(a[1..]);
    }
  }

  lemma {:induction false} LexLeTotal(a: string, b: string)
    ensures LexLe(a, b) || LexLe(b, a)
  {
    if |a| > 0 && |b| > 0 && a[0] == b[0] {
      LexLeTotal(a[1..], b[1..]);
    }
  }

  lemma {:induction false} LexLeAntisymmetric(a: string, b: string)
    requires LexLe(a, b) && LexLe(b, a)
    ensures a == b
  {
    if |a| > 0 && |b| > 0 {
      LexLeAntisymmetric(a[1..], b[1..]);
      assert a == [a[0]] + a[1..];
      assert b == [b[0]] + b[1..];
    }
  }

  lemma {:induction false} LexLeTransitive(a: string, b: string, c: string)
    requires LexLe(a, b) && LexLe(b, c)
    ensures LexLe(a, c)
  {
    if |a| > 0 && |b| > 0 && |c| > 0 && a[0] == b[0] == c[0] {
      LexLeTransitive(a[1..], b[1..], c[1..]);
    }
  }
}
