/** `Counter(words).most_common(n)`: the frequency table of the story's words
    and its stable ranking by descending count. */
module Ranking {

  /** One `(word, count)` pair of `most_common`. */
  datatype Entry = Entry(word: string, count: nat)

  function Min(a: nat, b: nat): nat {
    if a <= b then a else b
  }

  /** The number of occurrences of `w` in `ws`. */
  function Count(ws: seq<string>, w: string): nat {
    multiset(ws)[w]
  }

  /** The index of the first occurrence of `w` in `ws`. */
  function FirstIndex(ws: seq<string>, w: string): (i: nat)
    requires w in ws
    ensures i < |ws| && ws[i] == w
    ensures forall k :: 0 <= k < i ==> ws[k] != w
  {
    if ws[0] == w then 0 else 1 + FirstIndex(ws[1..], w)
  }

  /** Appending a word does not move the first occurrence of a word already
      present. */
  lemma {:induction false} FirstIndexAppend(ws: seq<string>, x: string, w: string)
    requires w in ws
    ensures FirstIndex(ws + [x], w) == FirstIndex(ws, w)
  {
    if ws[0] != w {
      assert (ws + [x])[1..] == ws[1..] + [x];
      FirstIndexAppend(ws[1..], x, w);
    }
  }

  /** The keys of `Counter(ws)` in dictionary order: every distinct word once,
      in order of first occurrence. */
  function Distinct(ws: seq<string>): seq<string>
  {
    if ws == [] then []
    else
      var p, x := ws[..|ws| - 1], ws[|ws| - 1];
      if x in p then Distinct(p) else Distinct(p) + [x]
  }

  /** The items of `Counter(ws)` in dictionary order. */
  function Tally(ws: seq<string>): seq<Entry>
  {
    var d := Distinct(ws);
    seq(|d|, i requires 0 <= i < |d| => Entry(d[i], Count(ws, d[i])))
  }

  /** The position used to break ties: the first occurrence of `w` in `ws`,
      or `|ws|` for a word that does not occur. */
  function Pos(ws: seq<string>, w: string): nat {
    if w in ws then FirstIndex(ws, w) else |ws|
  }

  /** The order of `most_common`: higher count first, and among equal counts
      the word that occurs first in `ws`. */
  predicate Precedes(ws: seq<string>, a: Entry, b: Entry) {
    || a.count > b.count
    || (a.count == b.count && Pos(ws, a.word) < Pos(ws, b.word))
  }

  /** Every entry strictly precedes every later one. */
  predicate Ranked(ws: seq<string>, s: seq<Entry>) {
    forall i, j :: 0 <= i < j < |s| ==> Precedes(ws, s[i], s[j])
  }

  /** The entries are listed in order of first occurrence in `ws`. */
  predicate InFirstOccurrenceOrder(ws: seq<string>, s: seq<Entry>) {
    forall i, j :: 0 <= i < j < |s| ==> Pos(ws, s[i].word) < Pos(ws, s[j].word)
  }

  /** The keys of `Counter(ws)` are exactly the words of `ws`. */
  lemma {:induction false} DistinctMembers(ws: seq<string>)
    ensures forall w :: w in Distinct(ws) <==> w in ws
  {
    if ws != [] {
      var p, x := ws[..|ws| - 1], ws[|ws| - 1];
      assert ws == p + [x];
      DistinctMembers(p);
    }
  }

  /** The keys of `Counter(ws)` are in order of first occurrence, so each
      word is listed once. */
  lemma {:induction false} DistinctOrder(ws: seq<string>)
    ensures forall i, j :: 0 <= i < j < |Distinct(ws)| ==> Pos(ws, Distinct(ws)[i]) < Pos(ws, Distinct(ws)[j])
  {
    if ws != [] {
      var p, x := ws[..|ws| - 1], ws[|ws| - 1];
      assert ws == p + [x];
      DistinctOrder(p);
      DistinctMembers(p);
      var d := Distinct(p);
      forall w | w in p ensures Pos(ws, w) == Pos(p, w) {
        FirstIndexAppend(p, x, w);
      }
      if x !in p {
        assert Pos(ws, x) == |p| by {
          assert forall k :: 0 <= k < |p| ==> ws[k] == p[k];
        }
        forall i | 0 <= i < |d| ensures d[i] in p {
        }
      }
    }
  }

  /** The items of `Counter(ws)` are listed in order of first occurrence,
      each word once with its number of occurrences. */
  lemma TallySpec(ws: seq<string>)
    ensures |Tally(ws)| == |Distinct(ws)|
    ensures InFirstOccurrenceOrder(ws, Tally(ws))
    ensures forall e :: e in Tally(ws) ==> e.word in ws && e.count == Count(ws, e.word)
    ensures forall w :: w in ws ==> Entry(w, Count(ws, w)) in Tally(ws)
  {
    var d, t := Distinct(ws), Tally(ws);
    DistinctMembers(ws);
    DistinctOrder(ws);
    forall e | e in t ensures e.word in ws && e.count == Count(ws, e.word) {
      var a :| 0 <= a < |t| && t[a] == e;
      assert d[a] in d;
    }
    forall w | w in ws ensures Entry(w, Count(ws, w)) in t {
      var a :| 0 <= a < |d| && d[a] == w;
      assert t[a] == Entry(w, Count(ws, w));
    }
  }

  /** A ranked list stays ranked under an entry that precedes all of it. */
  lemma RankedCons(ws: seq<string>, x: Entry, s: seq<Entry>)
    requires Ranked(ws, s)
    requires forall y :: y in s ==> Precedes(ws, x, y)
    ensures Ranked(ws, [x] + s)
  {
    var r := [x] + s;
    forall i, j | 0 <= i < j < |r| ensures Precedes(ws, r[i], r[j]) {
      assert r[j] == s[j - 1] && r[j] in s;
      if i > 0 { assert r[i] == s[i - 1]; }
    }
  }

  /** The tail of a ranked list is ranked, and its head precedes the tail. */
  lemma RankedTail(ws: seq<string>, s: seq<Entry>)
    requires Ranked(ws, s) && s != []
    ensures Ranked(ws, s[1..])
    ensures forall y :: y in s[1..] ==> Precedes(ws, s[0], y)
  {
    var t := s[1..];
    forall i, j | 0 <= i < j < |t| ensures Precedes(ws, t[i], t[j]) {
      assert t[i] == s[i + 1] && t[j] == s[j + 1];
    }
    forall y | y in t ensures Precedes(ws, s[0], y) {
      var m :| 0 <= m < |t| && t[m] == y;
      assert y == s[m + 1];
    }
  }

  /** Puts `e` before the first entry whose count does not exceed its own. */
  function InsertByCount(e: Entry, s: seq<Entry>): (r: seq<Entry>)
    ensures multiset(r) == multiset(s) + multiset{e}
  {
    if s == [] || e.count >= s[0].count then [e] + s
    else
      assert s == [s[0]] + s[1..];
      [s[0]] + InsertByCount(e, s[1..])
  }

  /** `sorted(s, key=count, reverse=True)`, which is stable: an insertion
      sort that keeps entries of equal count in their original order. */
  function SortByCount(s: seq<Entry>): (r: seq<Entry>)
    ensures multiset(r) == multiset(s)
  {
    if s == [] then []
    else
      assert s == [s[0]] + s[1..];
      InsertByCount(s[0], SortByCount(s[1..]))
  }

  lemma {:induction false} InsertRanked(ws: seq<string>, e: Entry, s: seq<Entry>)
    requires Ranked(ws, s)
    requires forall x :: x in s ==> Pos(ws, e.word) < Pos(ws, x.word)
    ensures Ranked(ws, InsertByCount(e, s))
  {
    if s == [] || e.count >= s[0].count {
      if s != [] {
        RankedTail(ws, s);
        assert forall y :: y in s ==> y == s[0] || y in s[1..] by {
          assert s == [s[0]] + s[1..];
        }
      }
      RankedCons(ws, e, s);
    } else {
      RankedTail(ws, s);
      InsertRanked(ws, e, s[1..]);
      var inner := InsertByCount(e, s[1..]);
      forall y | y in inner ensures Precedes(ws, s[0], y) {
        assert y in multiset(inner);
      }
      RankedCons(ws, s[0], inner);
    }
  }

  /** The stable sort ranks entries listed in order of first occurrence. */
  lemma {:induction false} SortRanked(ws: seq<string>, s: seq<Entry>)
    requires InFirstOccurrenceOrder(ws, s)
    ensures Ranked(ws, SortByCount(s))
  {
    if s != [] {
      var t := s[1..];
      assert InFirstOccurrenceOrder(ws, t) by {
        forall i, j | 0 <= i < j < |t| ensures Pos(ws, t[i].word) < Pos(ws, t[j].word) {
          assert t[i] == s[i + 1] && t[j] == s[j + 1];
        }
      }
      SortRanked(ws, t);
      var sorted := SortByCount(t);
      forall x | x in sorted ensures Pos(ws, s[0].word) < Pos(ws, x.word) {
        assert x in multiset(sorted);
        var m :| 0 <= m < |t| && t[m] == x;
        assert x == s[m + 1];
      }
      InsertRanked(ws, s[0], sorted);
    }
  }

  /** `Counter(ws).most_common(k)`. */
  function TopWords(ws: seq<string>, k: nat): seq<Entry>
  {
    var r := SortByCount(Tally(ws));
    r[..Min(k, |r|)]
  }

  /** A story of one word ranks that word, counted once. */
  lemma TopWordsSingle(w: string, k: nat)
    requires k > 0
    ensures TopWords([w], k) == [Entry(w, 1)]
  {
    var ws, e := [w], Entry(w, 1);
    assert ws[..0] == [];
    assert Distinct(ws) == [w];
    assert Count(ws, w) == 1 by { assert multiset(ws) == multiset{w}; }
    assert Tally(ws) == [e];
    assert SortByCount([e]) == [e] by { assert [e][1..] == []; }
  }

  /** `w` is the word of one of the entries. */
  predicate Listed(top: seq<Entry>, w: string) {
    exists i :: 0 <= i < |top| && top[i].word == w
  }

  /** The sorted items of `Counter(ws)`: as many as there are distinct words,
      each with its number of occurrences, ranked, and every word present. */
  lemma SortedTally(ws: seq<string>)
    ensures |SortByCount(Tally(ws))| == |Distinct(ws)|
    ensures Ranked(ws, SortByCount(Tally(ws)))
    ensures forall e :: e in SortByCount(Tally(ws)) ==> e.word in ws && e.count == Count(ws, e.word)
    ensures forall w :: w in ws ==> Entry(w, Count(ws, w)) in SortByCount(Tally(ws))
  {
    var t := Tally(ws);
    TallySpec(ws);
    var r := SortByCount(t);
    SortRanked(ws, t);
    assert |multiset(r)| == |multiset(t)|;
    forall e | e in r ensures e in t {
      assert e in multiset(t);
    }
    forall w | w in ws ensures Entry(w, Count(ws, w)) in r {
      assert Entry(w, Count(ws, w)) in multiset(r);
    }
  }

  /** What `most_common(k)` returns: the first `k` distinct words (or all of
      them), each with its number of occurrences, by non-increasing count and
      among equal counts by first occurrence; no word left out ranks higher
      than the last one listed. */
  lemma TopWordsRanking(ws: seq<string>, k: nat)
    ensures |TopWords(ws, k)| == Min(k, |Distinct(ws)|)
    ensures forall i :: 0 <= i < |TopWords(ws, k)| ==>
              TopWords(ws, k)[i].word in ws &&
              TopWords(ws, k)[i].count == Count(ws, TopWords(ws, k)[i].word)
    ensures forall i, j :: 0 <= i < j < |TopWords(ws, k)| ==>
              TopWords(ws, k)[i].word != TopWords(ws, k)[j].word
    ensures forall i, j :: 0 <= i < j < |TopWords(ws, k)| ==>
              TopWords(ws, k)[i].count >= TopWords(ws, k)[j].count
    ensures forall i, j ::
              0 <= i < j < |TopWords(ws, k)| && TopWords(ws, k)[i].count == TopWords(ws, k)[j].count ==>
              FirstIndex(ws, TopWords(ws, k)[i].word) < FirstIndex(ws, TopWords(ws, k)[j].word)
    ensures forall w :: w in ws && !Listed(TopWords(ws, k), w) ==>
              |TopWords(ws, k)| == k &&
              (k > 0 ==> var last := TopWords(ws, k)[k - 1];
                         Count(ws, w) < last.count ||
                         (Count(ws, w) == last.count && FirstIndex(ws, last.word) < FirstIndex(ws, w)))
  {
    TopWordsEntries(ws, k);
    TopWordsOrder(ws, k);
    TopWordsOmitted(ws, k);
  }

  /** The listed entries are words of `ws` with their counts. */
  lemma TopWordsEntries(ws: seq<string>, k: nat)
    ensures |TopWords(ws, k)| == Min(k, |Distinct(ws)|)
    ensures forall i :: 0 <= i < |TopWords(ws, k)| ==>
              TopWords(ws, k)[i].word in ws &&
              TopWords(ws, k)[i].count == Count(ws, TopWords(ws, k)[i].word)
  {
    var r := SortByCount(Tally(ws));
    SortedTally(ws);
    var top := TopWords(ws, k);
    forall i | 0 <= i < |top| ensures top[i] in r {
      assert top[i] == r[i];
    }
  }

  /** The listed entries are distinct words in the order of `most_common`. */
  lemma TopWordsOrder(ws: seq<string>, k: nat)
    ensures forall i :: 0 <= i < |TopWords(ws, k)| ==> TopWords(ws, k)[i].word in ws
    ensures forall i, j :: 0 <= i < j < |TopWords(ws, k)| ==>
              TopWords(ws, k)[i].word != TopWords(ws, k)[j].word
    ensures forall i, j :: 0 <= i < j < |TopWords(ws, k)| ==>
              TopWords(ws, k)[i].count >= TopWords(ws, k)[j].count
    ensures forall i, j ::
              0 <= i < j < |TopWords(ws, k)| && TopWords(ws, k)[i].count == TopWords(ws, k)[j].count ==>
              FirstIndex(ws, TopWords(ws, k)[i].word) < FirstIndex(ws, TopWords(ws, k)[j].word)
  {
    var r := SortByCount(Tally(ws));
    SortedTally(ws);
    TopWordsEntries(ws, k);
    var top := TopWords(ws, k);
    forall i, j | 0 <= i < j < |top|
      ensures top[i].word != top[j].word
      ensures top[i].count >= top[j].count
      ensures top[i].count == top[j].count ==> FirstIndex(ws, top[i].word) < FirstIndex(ws, top[j].word)
    {
      assert top[i] == r[i] && top[j] == r[j];
      assert Precedes(ws, r[i], r[j]);
    }
  }

  /** A word left out ranks after the last one listed. */
  lemma TopWordsOmitted(ws: seq<string>, k: nat)
    ensures forall i :: 0 <= i < |TopWords(ws, k)| ==> TopWords(ws, k)[i].word in ws
    ensures forall w :: w in ws && !Listed(TopWords(ws, k), w) ==>
              |TopWords(ws, k)| == k &&
              (k > 0 ==> var last := TopWords(ws, k)[k - 1];
                         Count(ws, w) < last.count ||
                         (Count(ws, w) == last.count && FirstIndex(ws, last.word) < FirstIndex(ws, w)))
  {
    TopWordsEntries(ws, k);
    forall w | w in ws && !Listed(TopWords(ws, k), w)
      ensures |TopWords(ws, k)| == k
      ensures k > 0 ==>
                Count(ws, w) < TopWords(ws, k)[k - 1].count ||
                (Count(ws, w) == TopWords(ws, k)[k - 1].count &&
                 FirstIndex(ws, TopWords(ws, k)[k - 1].word) < FirstIndex(ws, w))
    {
      OmittedWord(ws, k, w);
    }
  }

  lemma OmittedWord(ws: seq<string>, k: nat, w: string)
    requires w in ws && !Listed(TopWords(ws, k), w)
    ensures |TopWords(ws, k)| == k
    ensures k > 0 ==>
              TopWords(ws, k)[k - 1].word in ws &&
              (Count(ws, w) < TopWords(ws, k)[k - 1].count ||
               (Count(ws, w) == TopWords(ws, k)[k - 1].count &&
                FirstIndex(ws, TopWords(ws, k)[k - 1].word) < FirstIndex(ws, w)))
  {
    var r := SortByCount(Tally(ws));
    SortedTally(ws);
    var top := TopWords(ws, k);
    var p :| 0 <= p < |r| && r[p] == Entry(w, Count(ws, w));
    ListedPrefix(r, |top|);
    assert p >= |top|;
    if k > 0 {
      assert top[k - 1] == r[k - 1] && r[k - 1] in r;
      RankedAfter(ws, r, k - 1, p);
    }
  }

  /** Every word among the first `m` entries is listed in that prefix. */
  lemma ListedPrefix(r: seq<Entry>, m: nat)
    requires m <= |r|
    ensures forall p :: 0 <= p < m ==> Listed(r[..m], r[p].word)
  {
    forall p | 0 <= p < m ensures Listed(r[..m], r[p].word) {
      assert r[..m][p] == r[p];
    }
  }

  /** In a ranked list an entry after position `m` ranks below the one at
      `m`: a lower count, or the same count and a later first occurrence. */
  lemma RankedAfter(ws: seq<string>, r: seq<Entry>, m: nat, p: nat)
    requires Ranked(ws, r) && m < p < |r|
    requires r[m].word in ws && r[p].word in ws
    ensures r[p].count < r[m].count ||
            (r[p].count == r[m].count && FirstIndex(ws, r[m].word) < FirstIndex(ws, r[p].word))
  {
    assert Precedes(ws, r[m], r[p]);
  }

  /** The frequency table as `Counter(words)` accumulates it: one pass over
      the words, adding a key the first time a word is seen and incrementing
      its count every time. */
  method CountWords(words: seq<string>) returns (keys: seq<string>, counts: map<string, nat>)
    ensures keys == Distinct(words)
    ensures forall w :: w in counts <==> w in words
    ensures forall w :: w in counts ==> counts[w] == Count(words, w)
  {
    keys, counts := [], map[];
    var i := 0;
    while i < |words|
      invariant 0 <= i <= |words|
      invariant keys == Distinct(words[..i])
      invariant forall w :: w in counts <==> w in words[..i]
      invariant forall w :: w in counts ==> counts[w] == Count(words[..i], w)
    {
      var w := words[i];
      assert words[..i + 1] == words[..i] + [w];
      assert words[..i + 1][..i] == words[..i];
      if w in counts {
        counts := counts[w := counts[w] + 1];
      } else {
        keys := keys + [w];
        counts := counts[w := 1];
      }
      i := i + 1;
    }
    assert words[..i] == words;
  }

  /** `counter.items()`: the keys in dictionary order, each with its count. */
  method Items(words: seq<string>, keys: seq<string>, counts: map<string, nat>) returns (items: seq<Entry>)
    requires keys == Distinct(words)
    requires forall w :: w in counts <==> w in words
    requires forall w :: w in counts ==> counts[w] == Count(words, w)
    ensures items == Tally(words)
  {
    DistinctMembers(words);
    ghost var tally := Tally(words);
    items := [];
    var i := 0;
    while i < |keys|
      invariant 0 <= i <= |keys|
      invariant items == tally[..i]
    {
      assert keys[i] in words;
      assert tally[i] == Entry(keys[i], counts[keys[i]]);
      assert tally[..i + 1] == tally[..i] + [tally[i]];
      items := items + [Entry(keys[i], counts[keys[i]])];
      i := i + 1;
    }
  }

  /** `Counter(words).most_common(n)`: count, list the items in dictionary
      order, sort them stably by descending count and keep the first `n`. */
  method MostCommon(words: seq<string>, n: nat) returns (top: seq<Entry>)
    ensures top == TopWords(words, n)
  {
    var keys, counts := CountWords(words);
    var items := Items(words, keys, counts);
    var sorted := SortByCount(items);
    top := sorted[..Min(n, |sorted|)];
  }

  lemma ExampleDistinct(ws: seq<string>)
    requires ws == ["a", "b", "a", "c", "b", "a"]
    ensures Distinct(ws) == ["a", "b", "c"]
  {
    var w1, w2, w3, w4, w5 := ws[..1], ws[..2], ws[..3], ws[..4], ws[..5];
    assert w1 == ["a"] && w1[..0] == [];
    assert w2 == ["a", "b"] && w2[..1] == w1;
    assert w3 == ["a", "b", "a"] && w3[..2] == w2;
    assert w4 == ["a", "b", "a", "c"] && w4[..3] == w3;
    assert w5 == ["a", "b", "a", "c", "b"] && w5[..4] == w4;
    assert Distinct(w1) == ["a"];
    assert Distinct(w2) == ["a", "b"];
    assert Distinct(w3) == ["a", "b"];
    assert Distinct(w4) == ["a", "b", "c"];
    assert Distinct(w5) == ["a", "b", "c"];
  }

  lemma ExampleCounts(ws: seq<string>)
    requires ws == ["a", "b", "a", "c", "b", "a"]
    ensures Count(ws, "a") == 3 && Count(ws, "b") == 2 && Count(ws, "c") == 1
  {
    var m := multiset(ws);
    assert m == multiset(ws[..5]) + multiset{"a"} by {
      assert ws == ws[..5] + ["a"];
    }
    assert "a" != "b" && "a" != "c" && "b" != "c";
  }

  lemma ExampleTally(ws: seq<string>)
    requires ws == ["a", "b", "a", "c", "b", "a"]
    ensures Tally(ws) == [Entry("a", 3), Entry("b", 2), Entry("c", 1)]
  {
    ExampleDistinct(ws);
    ExampleCounts(ws);
    var t := Tally(ws);
    assert t[0] == Entry("a", 3) && t[1] == Entry("b", 2) && t[2] == Entry("c", 1);
  }

  lemma ExampleSort(t: seq<Entry>)
    requires t == [Entry("a", 3), Entry("b", 2), Entry("c", 1)]
    ensures SortByCount(t) == t
  {
    assert t[1..][1..] == [Entry("c", 1)];
    assert SortByCount([Entry("c", 1)]) == [Entry("c", 1)];
    assert SortByCount(t[1..]) == InsertByCount(Entry("b", 2), [Entry("c", 1)]);
  }

  /** Ties keep their first-occurrence order: in "a b a c b a" the word "a"
      occurs three times, "b" twice and "c" once. */
  lemma MostCommonExample()
    ensures TopWords(["a", "b", "a", "c", "b", "a"], 5) ==
            [Entry("a", 3), Entry("b", 2), Entry("c", 1)]
  {
    var ws := ["a", "b", "a", "c", "b", "a"];
    ExampleTally(ws);
    ExampleSort(Tally(ws));
  }
}
