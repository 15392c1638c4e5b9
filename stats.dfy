/** The statistics file: the word count, the most common words and the most
    recent contributor, rendered as three lines of text; and a reader that
    recovers those three values from the text. */
module Stats {

  import opened Wrappers
  import opened Text
  import opened Ranking

  /** `f"{w}({c})"`. */
  function FormatEntry(e: Entry): string {
    e.word + "(" + Decimal(e.count) + ")"
  }

  function FormatEntries(top: seq<Entry>): (r: seq<string>)
    ensures |r| == |top|
    ensures forall i :: 0 <= i < |top| ==> r[i] == FormatEntry(top[i])
  {
    if top == [] then [] else [FormatEntry(top[0])] + FormatEntries(top[1..])
  }

  /** The text written to the statistics file. */
  function StatsText(wordCount: nat, top: seq<Entry>, author: string): string {
    "Word count: " + Decimal(wordCount) + "\n"
    + "Most common words: " + JoinWith(", ", FormatEntries(top)) + "\n"
    + "Most recent contributor: " + author + "\n"
  }

  // ---------------------------------------------------------------------
  // reading the statistics back

  /** The values the statistics file records. */
  datatype StatsRecord = StatsRecord(wordCount: nat, top: seq<Entry>, author: string)

  /** Python's `s.split(c)` for one character `c`. */
  function SplitOn(s: string, c: char): (r: seq<string>)
    ensures |r| >= 1
  {
    if s == [] then [""]
    else if s[0] == c then [""] + SplitOn(s[1..], c)
    else
      var rest := SplitOn(s[1..], c);
      [[s[0]] + rest[0]] + rest[1..]
  }

  lemma {:induction false} SplitOnFree(p: string, c: char)
    requires c !in p
    ensures SplitOn(p, c) == [p]
  {
    if p != [] {
      SplitOnFree(p[1..], c);
      assert [p[0]] + p[1..] == p;
    }
  }

  lemma {:induction false} SplitOnPiece(p: string, c: char, rest: string)
    requires c !in p
    ensures SplitOn(p + [c] + rest, c) == [p] + SplitOn(rest, c)
  {
    var s := p + [c] + rest;
    if p == [] {
      assert s[1..] == rest;
    } else {
      assert s[1..] == p[1..] + [c] + rest;
      SplitOnPiece(p[1..], c, rest);
      assert [p[0]] + p[1..] == p;
    }
  }

  /** Splitting `c.join(parts)` on `c` gives `parts` back when no part holds
      `c`. */
  lemma {:induction false} SplitOnJoin(parts: seq<string>, c: char)
    requires |parts| >= 1
    requires forall i :: 0 <= i < |parts| ==> c !in parts[i]
    ensures SplitOn(JoinWith([c], parts), c) == parts
  {
    if |parts| == 1 {
      SplitOnFree(parts[0], c);
    } else {
      var rest := JoinWith([c], parts[1..]);
      assert forall i :: 0 <= i < |parts[1..]| ==> c !in parts[1..][i] by {
        forall i | 0 <= i < |parts[1..]| ensures c !in parts[1..][i] {
          assert parts[1..][i] == parts[i + 1];
        }
      }
      SplitOnJoin(parts[1..], c);
      SplitOnPiece(parts[0], c, rest);
      assert JoinWith([c], parts) == parts[0] + [c] + rest;
      assert [parts[0]] + parts[1..] == parts;
    }
  }

  /** Each string with a blank in front. */
  function Spaced(ys: seq<string>): (r: seq<string>)
    ensures |r| == |ys|
    ensures forall i :: 0 <= i < |ys| ==> r[i] == " " + ys[i]
  {
    if ys == [] then [] else [" " + ys[0]] + Spaced(ys[1..])
  }

  /** `", ".join(ys)` is `",".join` of the same strings with a blank in
      front of every one but the first. */
  lemma {:induction false} SpacedJoin(ys: seq<string>)
    requires |ys| >= 1
    ensures " " + JoinWith(", ", ys) == JoinWith(",", Spaced(ys))
  {
    if |ys| > 1 {
      SpacedJoin(ys[1..]);
      assert Spaced(ys)[1..] == Spaced(ys[1..]);
    }
  }

  lemma CommaJoin(xs: seq<string>)
    requires |xs| >= 1
    ensures JoinWith(", ", xs) == JoinWith(",", [xs[0]] + Spaced(xs[1..]))
  {
    if |xs| > 1 {
      var ys := xs[1..];
      var ps := [xs[0]] + Spaced(ys);
      SpacedJoin(ys);
      assert ps[1..] == Spaced(ys);
      assert JoinWith(",", ps) == xs[0] + "," + JoinWith(",", Spaced(ys));
      ConcatSpaced(xs[0], JoinWith(", ", ys));
    }
  }

  lemma ConcatSpaced(a: string, b: string)
    ensures a + ", " + b == a + "," + (" " + b)
  {
  }

  predicate IsNumeral(s: string) {
    |s| > 0 && forall i :: 0 <= i < |s| ==> IsDigit(s[i])
  }

  /** The rest of `s` after the prefix `p`, if `s` starts with `p`. */
  function AfterPrefix(s: string, p: string): (r: Option<string>)
    ensures r.Some? ==> s == p + r.value
  {
    if |p| <= |s| && s[..|p|] == p then Some(s[|p|..]) else None
  }

  lemma AfterPrefixOf(p: string, t: string)
    ensures AfterPrefix(p + t, p) == Some(t)
  {
    assert (p + t)[..|p|] == p;
    assert (p + t)[|p|..] == t;
  }

  /** Reads one `w(c)`. */
  function ReadEntry(p: string): Option<Entry> {
    if |p| < 1 || p[|p| - 1] != ')' then None
    else
      var parts := SplitOn(p[..|p| - 1], '(');
      if |parts| != 2 || !IsNumeral(parts[1]) then None
      else Some(Entry(parts[0], DecimalValue(parts[1])))
  }

  /** Reads the entries after the first: each one follows a blank. */
  function ReadSpacedEntries(ps: seq<string>): Option<seq<Entry>> {
    if ps == [] then Some([])
    else if |ps[0]| < 1 || ps[0][0] != ' ' then None
    else
      var e, es := ReadEntry(ps[0][1..]), ReadSpacedEntries(ps[1..]);
      if e.Some? && es.Some? then Some([e.value] + es.value) else None
  }

  /** Reads the list after "Most common words: ". */
  function ReadEntries(m: string): Option<seq<Entry>> {
    if m == "" then Some([])
    else
      var ps := SplitOn(m, ',');
      var e, es := ReadEntry(ps[0]), ReadSpacedEntries(ps[1..]);
      if e.Some? && es.Some? then Some([e.value] + es.value) else None
  }

  /** Reads the three values back from the text of the statistics file. */
  function ReadStats(text: string): Option<StatsRecord> {
    var lines := SplitOn(text, '\n');
    if |lines| != 4 || lines[3] != "" then None
    else
      var n := AfterPrefix(lines[0], "Word count: ");
      var m := AfterPrefix(lines[1], "Most common words: ");
      var a := AfterPrefix(lines[2], "Most recent contributor: ");
      if n.None? || m.None? || a.None? || !IsNumeral(n.value) then None
      else
        var top := ReadEntries(m.value);
        if top.None? then None else Some(StatsRecord(DecimalValue(n.value), top.value, a.value))
  }

  /** A word whose rendering `w(c)` can be read back inside the list. */
  predicate Readable(w: string) {
    '\n' !in w && ',' !in w && '(' !in w
  }

  lemma NumeralFree(n: nat, c: char)
    requires !IsDigit(c)
    ensures c !in Decimal(n) && IsNumeral(Decimal(n))
  {
  }

  lemma ReadFormatEntry(e: Entry)
    requires Readable(e.word)
    ensures ReadEntry(FormatEntry(e)) == Some(e)
  {
    var p := FormatEntry(e);
    var d := Decimal(e.count);
    NumeralFree(e.count, '(');
    assert p[..|p| - 1] == JoinWith("(", [e.word, d]);
    SplitOnJoin([e.word, d], '(');
    DecimalRoundTrip(e.count);
  }

  lemma ReadSpacedCons(p: string, rest: seq<string>, e: Entry, es: seq<Entry>)
    requires ReadEntry(p) == Some(e) && ReadSpacedEntries(rest) == Some(es)
    ensures ReadSpacedEntries([" " + p] + rest) == Some([e] + es)
  {
    var ps := [" " + p] + rest;
    assert ps[0][1..] == p;
    assert ps[1..] == rest;
  }

  lemma {:induction false} ReadSpacedFormat(top: seq<Entry>)
    requires forall i :: 0 <= i < |top| ==> Readable(top[i].word)
    ensures ReadSpacedEntries(Spaced(FormatEntries(top))) == Some(top)
  {
    if top != [] {
      var xs := FormatEntries(top);
      ReadFormatEntry(top[0]);
      ReadSpacedFormat(top[1..]);
      assert xs == [FormatEntry(top[0])] + FormatEntries(top[1..]);
      assert Spaced(xs) == [" " + FormatEntry(top[0])] + Spaced(FormatEntries(top[1..]));
      ReadSpacedCons(FormatEntry(top[0]), Spaced(FormatEntries(top[1..])), top[0], top[1..]);
      assert [top[0]] + top[1..] == top;
    }
  }

  lemma EntryCommaFree(e: Entry)
    requires Readable(e.word)
    ensures ',' !in FormatEntry(e) && ',' !in " " + FormatEntry(e)
  {
    NumeralFree(e.count, ',');
  }

  lemma PiecesCommaFree(top: seq<Entry>)
    requires |top| >= 1
    requires forall i :: 0 <= i < |top| ==> Readable(top[i].word)
    ensures forall i :: 0 <= i < |top| ==>
              ',' !in ([FormatEntries(top)[0]] + Spaced(FormatEntries(top)[1..]))[i]
  {
    var xs := FormatEntries(top);
    var ps := [xs[0]] + Spaced(xs[1..]);
    forall i | 0 <= i < |ps| ensures ',' !in ps[i] {
      EntryCommaFree(top[i]);
      if i > 0 {
        assert ps[i] == " " + xs[1..][i - 1];
      }
    }
  }

  lemma ReadEntriesOf(m: string, p: string, rest: seq<string>, e: Entry, es: seq<Entry>)
    requires m != "" && SplitOn(m, ',') == [p] + rest
    requires ReadEntry(p) == Some(e) && ReadSpacedEntries(rest) == Some(es)
    ensures ReadEntries(m) == Some([e] + es)
  {
    assert ([p] + rest)[1..] == rest;
  }

  /** The rendered list split at its commas: the first entry, then every
      other entry behind a blank. */
  lemma CommaPieces(top: seq<Entry>)
    requires |top| >= 1
    requires forall i :: 0 <= i < |top| ==> Readable(top[i].word)
    ensures JoinWith(", ", FormatEntries(top)) != ""
    ensures SplitOn(JoinWith(", ", FormatEntries(top)), ',') ==
            [FormatEntry(top[0])] + Spaced(FormatEntries(top[1..]))
  {
    var xs := FormatEntries(top);
    var ps := [xs[0]] + Spaced(xs[1..]);
    CommaJoin(xs);
    PiecesCommaFree(top);
    SplitOnJoin(ps, ',');
    JoinPrefix(", ", xs);
    assert xs[1..] == FormatEntries(top[1..]);
  }

  lemma ReadEntriesFormat(top: seq<Entry>)
    requires forall i :: 0 <= i < |top| ==> Readable(top[i].word)
    ensures ReadEntries(JoinWith(", ", FormatEntries(top))) == Some(top)
  {
    if top != [] {
      CommaPieces(top);
      HeadPiece(top);
      TailPieces(top);
      ReadEntriesOf(JoinWith(", ", FormatEntries(top)), FormatEntry(top[0]), Spaced(FormatEntries(top[1..])),
                    top[0], top[1..]);
      assert [top[0]] + top[1..] == top;
    }
  }

  lemma HeadPiece(top: seq<Entry>)
    requires |top| >= 1
    requires forall i :: 0 <= i < |top| ==> Readable(top[i].word)
    ensures ReadEntry(FormatEntry(top[0])) == Some(top[0])
  {
    ReadFormatEntry(top[0]);
  }

  lemma TailPieces(top: seq<Entry>)
    requires |top| >= 1
    requires forall i :: 0 <= i < |top| ==> Readable(top[i].word)
    ensures ReadSpacedEntries(Spaced(FormatEntries(top[1..]))) == Some(top[1..])
  {
    ReadSpacedFormat(top[1..]);
  }

  /** The first part is a prefix of the joined string. */
  lemma JoinPrefix(sep: string, xs: seq<string>)
    requires |xs| >= 1
    ensures |JoinWith(sep, xs)| >= |xs[0]| && JoinWith(sep, xs)[..|xs[0]|] == xs[0]
  {
  }

  /** The statistics text is its three lines joined by newlines, with an
      empty last piece after the final newline. */
  lemma StatsTextLines(wordCount: nat, top: seq<Entry>, author: string)
    ensures StatsText(wordCount, top, author) ==
              JoinWith("\n", ["Word count: " + Decimal(wordCount),
                              "Most common words: " + JoinWith(", ", FormatEntries(top)),
                              "Most recent contributor: " + author, ""])
  {
    var l1 := "Word count: " + Decimal(wordCount);
    var l2 := "Most common words: " + JoinWith(", ", FormatEntries(top));
    var l3 := "Most recent contributor: " + author;
    var ls := [l1, l2, l3, ""];
    assert ls[1..] == [l2, l3, ""] && ls[1..][1..] == [l3, ""] && ls[1..][1..][1..] == [""];
    assert JoinWith("\n", [l3, ""]) == l3 + "\n";
  }

  /** Split at its newlines, the statistics text gives back its lines. */
  lemma StatsLines(wordCount: nat, top: seq<Entry>, author: string)
    requires '\n' !in author
    requires forall i :: 0 <= i < |top| ==> Readable(top[i].word)
    ensures SplitOn(StatsText(wordCount, top, author), '\n') ==
              ["Word count: " + Decimal(wordCount),
               "Most common words: " + JoinWith(", ", FormatEntries(top)),
               "Most recent contributor: " + author, ""]
  {
    var l1 := "Word count: " + Decimal(wordCount);
    var l2 := "Most common words: " + JoinWith(", ", FormatEntries(top));
    var l3 := "Most recent contributor: " + author;
    assert '\n' !in l1 by {
      NumeralFree(wordCount, '\n');
    }
    assert '\n' !in l2 by {
      ListFree(top, '\n');
    }
    StatsTextLines(wordCount, top, author);
    SplitLines(l1, l2, l3);
  }

  /** Three lines free of newlines, each followed by a newline, split back
      into the three lines and an empty last piece. */
  lemma SplitLines(l1: string, l2: string, l3: string)
    requires '\n' !in l1 && '\n' !in l2 && '\n' !in l3
    ensures SplitOn(JoinWith("\n", [l1, l2, l3, ""]), '\n') == [l1, l2, l3, ""]
  {
    SplitOnJoin([l1, l2, l3, ""], '\n');
  }

  /** The statistics file can be read back: its text records exactly the
      word count, the ranked words with their counts and the contributor,
      provided the contributor's name is a single line and no listed word
      contains a newline, a comma or an opening parenthesis. */
  lemma StatsRoundTrip(wordCount: nat, top: seq<Entry>, author: string)
    requires '\n' !in author
    requires forall i :: 0 <= i < |top| ==> Readable(top[i].word)
    ensures ReadStats(StatsText(wordCount, top, author)) == Some(StatsRecord(wordCount, top, author))
  {
    StatsLines(wordCount, top, author);
    AfterPrefixOf("Word count: ", Decimal(wordCount));
    AfterPrefixOf("Most common words: ", JoinWith(", ", FormatEntries(top)));
    AfterPrefixOf("Most recent contributor: ", author);
    NumeralFree(wordCount, '\n');
    DecimalRoundTrip(wordCount);
    ReadEntriesFormat(top);
  }

  /** A character that is in none of the listed words and is not a digit,
      a parenthesis, a comma or a blank is not in the rendered list. */
  lemma {:induction false} ListFree(top: seq<Entry>, c: char)
    requires forall i :: 0 <= i < |top| ==> c !in top[i].word
    requires !IsDigit(c) && c != '(' && c != ')' && c != ',' && c != ' '
    ensures c !in JoinWith(", ", FormatEntries(top))
  {
    if top != [] {
      NumeralFree(top[0].count, c);
      assert c !in FormatEntry(top[0]);
      if |top| > 1 {
        ListFree(top[1..], c);
        assert FormatEntries(top)[1..] == FormatEntries(top[1..]);
      }
    }
  }
}
