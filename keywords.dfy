/**
 * Keyword extraction (app/services/nlp_service.py): lower-case the text,
 * let the part-of-speech tagger split it into tokens, keep the lemmas of
 * long alphabetic nouns that are not stop words, count them and return
 * the `top_n` most frequent, ties going to the lemma seen first.
 */
module Keywords {
  import opened Text

  /** The attributes of one tagged token that the extractor reads. */
  datatype Token = Token(lemmaForm: string, pos: string, isStop: bool, isPunct: bool, text: string, isAlpha: bool)

  /** The part-of-speech tagger and lemmatizer, taken as given: text in, tokens out. */
  type Tagger = string -> seq<Token>

  /** The five conditions a token must meet for its lemma to be counted. */
  predicate IsKeywordToken(t: Token) {
    (t.pos == "NOUN" || t.pos == "PROPN") && !t.isStop && !t.isPunct && |t.text| > 2 && t.isAlpha
  }

  /** The list comprehension: lemmas of the kept tokens, in document order. */
  function Nouns(doc: seq<Token>): seq<string> {
    if doc == [] then []
    else (if IsKeywordToken(doc[0]) then [doc[0].lemmaForm] else []) + Nouns(doc[1..])
  }

  lemma {:induction false} NounsFromKeywordTokens(doc: seq<Token>, x: string)
    ensures x in Nouns(doc) <==> exists i :: 0 <= i < |doc| && IsKeywordToken(doc[i]) && doc[i].lemmaForm == x
  {
    if doc != [] {
      NounsFromKeywordTokens(doc[1..], x);
      var head := if IsKeywordToken(doc[0]) then [doc[0].lemmaForm] else [];
      assert Nouns(doc) == head + Nouns(doc[1..]);
      if x in Nouns(doc[1..]) {
        var i :| 0 <= i < |doc[1..]| && IsKeywordToken(doc[1..][i]) && doc[1..][i].lemmaForm == x;
        assert doc[i + 1] == doc[1..][i];
      }
      if i :| 0 < i < |doc| && IsKeywordToken(doc[i]) && doc[i].lemmaForm == x {
        assert doc[1..][i - 1] == doc[i];
      }
    }
  }

  /** The lemmas the extractor counts for `text`. */
  function Candidates(tagger: Tagger, text: string): seq<string> {
    Nouns(tagger(Lower(text)))
  }

  /** `collections.Counter`: the keys in order of first insertion and a count per key. */
  datatype Counter = Counter(keys: seq<string>, counts: map<string, nat>)

  /** `Counter(s)`: one pass over `s`, adding a key the first time it is seen. */
  function Tally(s: seq<string>): Counter {
    if s == [] then Counter([], map[])
    else
      var c := Tally(s[..|s| - 1]);
      var x := s[|s| - 1];
      if x in c.counts then Counter(c.keys, c.counts[x := c.counts[x] + 1])
      else Counter(c.keys + [x], c.counts[x := 1])
  }

  /** `counter[x]`: a missing key counts zero. */
  function Freq(c: Counter, x: string): nat {
    if x in c.counts then c.counts[x] else 0
  }

  ghost predicate Distinct(s: seq<string>) {
    forall i, j :: 0 <= i < j < |s| ==> s[i] != s[j]
  }

  /** The position where `x` first occurs in `s`. */
  function FirstIndex(s: seq<string>, x: string): (i: nat)
    requires x in s
    ensures i < |s| && s[i] == x && x !in s[..i]
  {
    if s[0] == x then 0
    else
      var j := FirstIndex(s[1..], x);
      assert s[..j + 1] == [s[0]] + s[1..][..j];
      j + 1
  }

  lemma FirstIndexOfPrefix(p: seq<string>, q: seq<string>, y: string)
    requires y in p
    ensures FirstIndex(p + q, y) == FirstIndex(p, y)
  {
    var i, j := FirstIndex(p + q, y), FirstIndex(p, y);
    assert (p + q)[j] == y;
    assert (p + q)[..j] == p[..j];
  }

  lemma FirstIndexOfLast(p: seq<string>, x: string)
    requires x !in p
    ensures FirstIndex(p + [x], x) == |p|
  {
    assert (p + [x])[..|p|] == p;
  }

  /**
   * What `Counter(s)` holds: each distinct element of `s` once, in order
   * of first occurrence, with the number of times it occurs.
   */
  lemma {:induction false} TallyContents(s: seq<string>)
    ensures Distinct(Tally(s).keys)
    ensures forall x :: x in Tally(s).keys <==> x in s
    ensures forall x :: x in Tally(s).counts <==> x in s
    ensures forall x :: Freq(Tally(s), x) == multiset(s)[x]
  {
    if s != [] {
      var p, x := s[..|s| - 1], s[|s| - 1];
      assert s == p + [x];
      TallyContents(p);
      assert multiset(s) == multiset(p) + multiset{x};
    }
  }

  /** The keys are listed in the order in which they first occur in `s`. */
  predicate FirstSeenOrder(s: seq<string>, keys: seq<string>) {
    (forall y :: y in keys ==> y in s) &&
    forall a, b :: 0 <= a < b < |keys| ==> FirstIndex(s, keys[a]) < FirstIndex(s, keys[b])
  }

  lemma FirstSeenSame(p: seq<string>, x: string, keys: seq<string>)
    requires FirstSeenOrder(p, keys)
    ensures FirstSeenOrder(p + [x], keys)
  {
    forall a, b | 0 <= a < b < |keys|
      ensures FirstIndex(p + [x], keys[a]) < FirstIndex(p + [x], keys[b])
    {
      FirstIndexOfPrefix(p, [x], keys[a]);
      FirstIndexOfPrefix(p, [x], keys[b]);
    }
  }

  lemma FirstSeenNew(p: seq<string>, x: string, keys: seq<string>)
    requires FirstSeenOrder(p, keys) && x !in p
    ensures FirstSeenOrder(p + [x], keys + [x])
  {
    FirstSeenSame(p, x, keys);
    FirstIndexOfLast(p, x);
    var s, ks := p + [x], keys + [x];
    forall a, b | 0 <= a < b < |ks| ensures FirstIndex(s, ks[a]) < FirstIndex(s, ks[b]) {
      assert ks[a] == keys[a];
      if b < |keys| {
        assert ks[b] == keys[b];
      }
    }
  }

  lemma {:induction false} TallyOrder(s: seq<string>)
    ensures FirstSeenOrder(s, Tally(s).keys)
  {
    if s != [] {
      var p, x := s[..|s| - 1], s[|s| - 1];
      assert s == p + [x];
      TallyOrder(p);
      TallyContents(p);
      if x in Tally(p).counts {
        FirstSeenSame(p, x, Tally(p).keys);
      } else {
        FirstSeenNew(p, x, Tally(p).keys);
      }
    }
  }

  /** Where `x` first occurs in `s`; past the end when it does not occur. */
  function Rank(s: seq<string>, x: string): nat {
    if x in s then FirstIndex(s, x) else |s|
  }

  /** `a` comes before `b` in `most_common`: more frequent, or as frequent and seen earlier in `s`. */
  predicate Outranks(c: Counter, s: seq<string>, a: string, b: string) {
    Freq(c, a) > Freq(c, b) || (Freq(c, a) == Freq(c, b) && Rank(s, a) < Rank(s, b))
  }

  ghost predicate Ranked(c: Counter, s: seq<string>, r: seq<string>) {
    forall i, j :: 0 <= i < j < |r| ==> Outranks(c, s, r[i], r[j])
  }

  /** Puts `x` in front of the first element that is not more frequent. */
  function Insert(c: Counter, x: string, r: seq<string>): seq<string> {
    if r == [] then [x]
    else if Freq(c, x) >= Freq(c, r[0]) then [x] + r
    else [r[0]] + Insert(c, x, r[1..])
  }

  /** A stable sort of `l` by descending count. */
  function SortByCount(c: Counter, l: seq<string>): seq<string> {
    if l == [] then [] else Insert(c, l[0], SortByCount(c, l[1..]))
  }

  /** `counter.most_common(n)`, keys only: the first `n` of the stable sort; nothing for `n <= 0`. */
  function MostCommon(c: Counter, n: int): (r: seq<string>)
    ensures |r| <= if n < 0 then 0 else n
  {
    var sorted := SortByCount(c, c.keys);
    if n <= 0 then [] else if n >= |sorted| then sorted else sorted[..n]
  }

  lemma RankedCons(c: Counter, s: seq<string>, a: string, t: seq<string>)
    requires Ranked(c, s, t)
    requires forall y :: y in t ==> Outranks(c, s, a, y)
    ensures Ranked(c, s, [a] + t)
  {
    var u := [a] + t;
    forall i, j | 0 <= i < j < |u| ensures Outranks(c, s, u[i], u[j]) {
      assert u[j] == t[j - 1];
      if i > 0 {
        assert u[i] == t[i - 1];
      }
    }
  }

  lemma RankedTail(c: Counter, s: seq<string>, r: seq<string>)
    requires Ranked(c, s, r) && r != []
    ensures Ranked(c, s, r[1..])
    ensures forall y :: y in r[1..] ==> Outranks(c, s, r[0], y)
  {
    forall y | y in r[1..] ensures Outranks(c, s, r[0], y) {
      var k :| 0 <= k < |r[1..]| && r[1..][k] == y;
      assert r[k + 1] == y;
    }
    forall i, j | 0 <= i < j < |r[1..]| ensures Outranks(c, s, r[1..][i], r[1..][j]) {
      assert r[1..][i] == r[i + 1] && r[1..][j] == r[j + 1];
    }
  }

  lemma {:induction false} InsertRanked(c: Counter, s: seq<string>, x: string, r: seq<string>)
    requires Ranked(c, s, r)
    requires forall y :: y in r ==> Rank(s, x) < Rank(s, y)
    ensures multiset(Insert(c, x, r)) == multiset(r) + multiset{x}
    ensures Ranked(c, s, Insert(c, x, r))
  {
    if r == [] {
    } else if Freq(c, x) >= Freq(c, r[0]) {
      RankedTail(c, s, r);
      assert r == [r[0]] + r[1..];
      forall y | y in r ensures Outranks(c, s, x, y) {
        if y != r[0] {
          assert Outranks(c, s, r[0], y);
        }
      }
      RankedCons(c, s, x, r);
    } else {
      RankedTail(c, s, r);
      assert r == [r[0]] + r[1..];
      InsertRanked(c, s, x, r[1..]);
      var t := Insert(c, x, r[1..]);
      forall y | y in t ensures Outranks(c, s, r[0], y) {
        assert y in multiset(t);
      }
      RankedCons(c, s, r[0], t);
    }
  }

  lemma {:induction false} SortRanked(c: Counter, s: seq<string>, l: seq<string>)
    requires forall i, j :: 0 <= i < j < |l| ==> Rank(s, l[i]) < Rank(s, l[j])
    ensures multiset(SortByCount(c, l)) == multiset(l)
    ensures Ranked(c, s, SortByCount(c, l))
  {
    if l != [] {
      assert l == [l[0]] + l[1..];
      SortRanked(c, s, l[1..]);
      var t := SortByCount(c, l[1..]);
      forall y | y in t ensures Rank(s, l[0]) < Rank(s, y) {
        assert y in multiset(l[1..]);
        var k :| 0 <= k < |l[1..]| && l[1..][k] == y;
        assert l[k + 1] == y;
      }
      InsertRanked(c, s, l[0], t);
    }
  }

  /** Outranking is strict, so a ranked list has no repeats. */
  lemma RankedDistinct(c: Counter, s: seq<string>, r: seq<string>)
    requires Ranked(c, s, r)
    ensures Distinct(r)
  {
    forall i, j | 0 <= i < j < |r| ensures r[i] != r[j] {
      assert Outranks(c, s, r[i], r[j]);
    }
  }

  lemma {:induction false} DistinctCardinality(s: seq<string>)
    requires Distinct(s)
    ensures |set x | x in s| == |s|
  {
    if s != [] {
      assert Distinct(s[1..]) by {
        forall i, j | 0 <= i < j < |s[1..]| ensures s[1..][i] != s[1..][j] {
          assert s[i + 1] != s[j + 1];
        }
      }
      DistinctCardinality(s[1..]);
      assert (set x | x in s) == {s[0]} + (set x | x in s[1..]);
      assert forall k :: 0 <= k < |s[1..]| ==> s[1..][k] == s[k + 1] && s[k + 1] != s[0];
    }
  }

  /** The number of distinct elements of `s`. */
  ghost function DistinctCount(s: seq<string>): nat {
    |set x | x in s|
  }

  /** The stable sort of `Counter(s)`'s keys: each distinct element of `s` once, ranked. */
  lemma SortedKeys(s: seq<string>)
    ensures var sorted := SortByCount(Tally(s), Tally(s).keys);
      && Ranked(Tally(s), s, sorted)
      && |sorted| == DistinctCount(s)
      && (forall x :: x in sorted <==> x in s)
  {
    var c := Tally(s);
    TallyContents(s);
    TallyOrder(s);
    forall i, j | 0 <= i < j < |c.keys| ensures Rank(s, c.keys[i]) < Rank(s, c.keys[j]) {
    }
    SortRanked(c, s, c.keys);
    var sorted := SortByCount(c, c.keys);
    assert |sorted| == |c.keys| by {
      assert |multiset(sorted)| == |multiset(c.keys)|;
    }
    assert (set x | x in c.keys) == (set x | x in s);
    DistinctCardinality(c.keys);
    forall x ensures x in sorted <==> x in s {
      assert x in sorted <==> x in multiset(c.keys);
    }
  }

  /**
   * `most_common(n)` on `Counter(s)`: min(n, distinct count) elements of `s`,
   * no repeats, ranked; everything left out is outranked by everything returned.
   */
  lemma MostCommonCorrect(s: seq<string>, n: int)
    ensures var r := MostCommon(Tally(s), n);
      && |r| == (if n <= 0 then 0 else if n < DistinctCount(s) then n else DistinctCount(s))
      && (forall k :: k in r ==> k in s)
      && Ranked(Tally(s), s, r)
      && (forall x, k :: x in s && x !in r && k in r ==> Outranks(Tally(s), s, k, x))
  {
    var c := Tally(s);
    SortedKeys(s);
    var sorted := SortByCount(c, c.keys);
    var r := MostCommon(c, n);
    assert r == sorted[..|r|];
    forall x, k | x in s && x !in r && k in r ensures Outranks(c, s, k, x) {
      var a :| 0 <= a < |sorted| && sorted[a] == x;
      var b :| 0 <= b < |r| && r[b] == k;
      assert sorted[b] == k;
      assert b < a;
    }
  }

  /** `extract_keywords(text, top_n)`. */
  function ExtractKeywords(tagger: Tagger, text: string, topN: int): (r: seq<string>)
    ensures IsBlank(text) ==> r == []
    ensures |r| <= if topN < 0 then 0 else topN
  {
    if IsBlank(text) then []
    else
      var nouns := Candidates(tagger, text);
      if nouns == [] then [] else MostCommon(Tally(nouns), topN)
  }

  /** No padding: exactly min(top_n, number of distinct counted lemmas) keywords. */
  lemma ExtractKeywordsLength(tagger: Tagger, text: string, topN: int)
    ensures var d := if IsBlank(text) then 0 else DistinctCount(Candidates(tagger, text));
      |ExtractKeywords(tagger, text, topN)| == if topN <= 0 then 0 else if topN < d then topN else d
  {
    if !IsBlank(text) {
      MostCommonCorrect(Candidates(tagger, text), topN);
    }
  }

  /** Every keyword is the lemma of a token that passed all five filter conditions. */
  lemma ExtractKeywordsSound(tagger: Tagger, text: string, topN: int, k: string)
    requires k in ExtractKeywords(tagger, text, topN)
    ensures exists i :: (0 <= i < |tagger(Lower(text))| &&
      IsKeywordToken(tagger(Lower(text))[i]) && tagger(Lower(text))[i].lemmaForm == k)
  {
    MostCommonCorrect(Candidates(tagger, text), topN);
    NounsFromKeywordTokens(tagger(Lower(text)), k);
  }

  /** When no token passes the filter there are no keywords. */
  lemma ExtractKeywordsNoNouns(tagger: Tagger, text: string, topN: int)
    requires forall t :: t in tagger(Lower(text)) ==> !IsKeywordToken(t)
    ensures ExtractKeywords(tagger, text, topN) == []
  {
    var doc := tagger(Lower(text));
    if Candidates(tagger, text) != [] {
      var x := Candidates(tagger, text)[0];
      NounsFromKeywordTokens(doc, x);
    }
  }

  /** The keywords are pairwise distinct. */
  lemma ExtractKeywordsDistinct(tagger: Tagger, text: string, topN: int)
    ensures Distinct(ExtractKeywords(tagger, text, topN))
  {
    if !IsBlank(text) {
      var nouns := Candidates(tagger, text);
      MostCommonCorrect(nouns, topN);
      RankedDistinct(Tally(nouns), nouns, MostCommon(Tally(nouns), topN));
    }
  }

  /**
   * The keywords are counted lemmas in non-increasing order of frequency,
   * equal frequencies in order of first occurrence.
   */
  lemma ExtractKeywordsOrdered(tagger: Tagger, text: string, topN: int, i: int, j: int)
    requires 0 <= i < j < |ExtractKeywords(tagger, text, topN)|
    ensures var r, nouns := ExtractKeywords(tagger, text, topN), Candidates(tagger, text);
      && r[i] in nouns && r[j] in nouns
      && (multiset(nouns)[r[i]] > multiset(nouns)[r[j]] ||
          (multiset(nouns)[r[i]] == multiset(nouns)[r[j]] && FirstIndex(nouns, r[i]) < FirstIndex(nouns, r[j])))
  {
    var nouns := Candidates(tagger, text);
    MostCommonCorrect(nouns, topN);
    TallyContents(nouns);
    TallyOrder(nouns);
    var r := ExtractKeywords(tagger, text, topN);
    assert Outranks(Tally(nouns), nouns, r[i], r[j]);
  }

  /**
   * A counted lemma left out is less frequent than every keyword, or as
   * frequent and first seen after it.
   */
  lemma ExtractKeywordsMaximal(tagger: Tagger, text: string, topN: int, x: string, k: string)
    requires x in Candidates(tagger, text)
    requires x !in ExtractKeywords(tagger, text, topN)
    requires k in ExtractKeywords(tagger, text, topN)
    ensures var nouns := Candidates(tagger, text);
      multiset(nouns)[x] < multiset(nouns)[k] ||
      (multiset(nouns)[x] == multiset(nouns)[k] && FirstIndex(nouns, k) < FirstIndex(nouns, x))
  {
    var nouns := Candidates(tagger, text);
    MostCommonCorrect(nouns, topN);
    TallyContents(nouns);
    TallyOrder(nouns);
    assert Outranks(Tally(nouns), nouns, k, x);
  }

  /** The tagger only ever sees the lower-cased text. */
  lemma ExtractKeywordsCaseInsensitive(tagger: Tagger, text: string, topN: int)
    ensures ExtractKeywords(tagger, Lower(text), topN) == ExtractKeywords(tagger, text, topN)
  {
    LowerIdempotent(text);
    LowerKeepsBlank(text);
  }
}
