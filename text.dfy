/** The string operations of Python that the story script relies on:
    `str.isspace`, `str.strip()`, `str.split()`, `sep.join(...)`,
    `str.replace` of one character, `str(n)` for a natural number and the
    search for a literal substring. */
module Text {

  import opened Wrappers

  /** Python's whitespace for `str.split()` and `str.strip()` without
      arguments: the characters for which `str.isspace()` holds. */
  predicate IsSpace(c: char) {
    || ('\t' <= c <= '\r')
    || ('\U{1C}' <= c <= '\U{1F}')
    || c == ' '
    || c == '\U{85}'
    || c == '\U{A0}'
    || c == '\U{1680}'
    || ('\U{2000}' <= c <= '\U{200A}')
    || c == '\U{2028}'
    || c == '\U{2029}'
    || c == '\U{202F}'
    || c == '\U{205F}'
    || c == '\U{3000}'
  }

  predicate NoSpace(s: string) {
    forall i :: 0 <= i < |s| ==> !IsSpace(s[i])
  }

  predicate AllSpace(s: string) {
    forall i :: 0 <= i < |s| ==> IsSpace(s[i])
  }

  /** A token of `str.split()`: non-empty and free of whitespace. */
  predicate IsToken(s: string) {
    |s| > 0 && NoSpace(s)
  }

  /** Neither begins nor ends with whitespace: what `str.strip()` returns. */
  predicate IsStripped(s: string) {
    s == [] || (!IsSpace(s[0]) && !IsSpace(s[|s| - 1]))
  }

  // ---------------------------------------------------------------------
  // strip

  function TrimLeft(s: string): (r: string)
    ensures |r| <= |s| && r == s[|s| - |r|..]
    ensures AllSpace(s[..|s| - |r|])
    ensures r == [] || !IsSpace(r[0])
  {
    if s != [] && IsSpace(s[0]) then
      var t := s[1..];
      var r := TrimLeft(t);
      assert s[..|s| - |r|] == [s[0]] + t[..|t| - |r|];
      assert s[|s| - |r|..] == t[|t| - |r|..];
      r
    else s
  }

  function TrimRight(s: string): (r: string)
    ensures |r| <= |s| && r == s[..|r|]
    ensures AllSpace(s[|r|..])
    ensures r == [] || !IsSpace(r[|r| - 1])
  {
    if s != [] && IsSpace(s[|s| - 1]) then
      var t := s[..|s| - 1];
      var r := TrimRight(t);
      assert s[|r|..] == t[|r|..] + [s[|s| - 1]];
      assert s[..|r|] == t[..|r|];
      r
    else s
  }

  /** Python's `s.strip()`: whitespace removed from both ends. */
  function Strip(s: string): (r: string)
    ensures IsStripped(r)
  {
    TrimRight(TrimLeft(s))
  }

  /** Stripping drops only whitespace: a string that already neither begins
      nor ends with whitespace is its own strip. */
  lemma StripStripped(s: string)
    requires IsStripped(s)
    ensures Strip(s) == s
  {
    assert TrimLeft(s) == s;
  }

  /** A string of whitespace strips to the empty string. */
  lemma StripAllSpace(s: string)
    requires AllSpace(s)
    ensures Strip(s) == ""
  {
  }

  // ---------------------------------------------------------------------
  // split

  /** Length of the leading run of non-whitespace characters. */
  function TokenEnd(s: string): (n: nat)
    ensures n <= |s| && NoSpace(s[..n])
    ensures n < |s| ==> IsSpace(s[n])
  {
    if s == [] || IsSpace(s[0]) then 0 else 1 + TokenEnd(s[1..])
  }

  /** The leading run of non-whitespace is determined by where it stops. */
  lemma {:induction false} TokenEndAt(s: string, m: nat)
    requires m <= |s| && NoSpace(s[..m])
    requires m < |s| ==> IsSpace(s[m])
    ensures TokenEnd(s) == m
    decreases m
  {
    if m > 0 {
      assert s[0] == s[..m][0];
      assert s[1..][..m - 1] == s[..m][1..];
      TokenEndAt(s[1..], m - 1);
    }
  }

  /** Python's `s.split()`: the maximal runs of non-whitespace characters,
      left to right. */
  function Split(s: string): (ws: seq<string>)
    ensures forall i :: 0 <= i < |ws| ==> IsToken(ws[i])
    decreases |s|
  {
    if s == [] then []
    else if IsSpace(s[0]) then Split(s[1..])
    else
      var n := TokenEnd(s);
      [s[..n]] + Split(s[n..])
  }

  /** `s.split()` is empty exactly when `s` is all whitespace. */
  lemma {:induction false} SplitEmpty(s: string)
    ensures Split(s) == [] <==> AllSpace(s)
    decreases |s|
  {
    if s != [] && IsSpace(s[0]) {
      SplitEmpty(s[1..]);
      assert AllSpace(s) <==> AllSpace(s[1..]) by {
        assert forall i :: 0 < i < |s| ==> s[i] == s[1..][i - 1];
      }
    }
  }

  lemma SplitOfToken(t: string)
    requires IsToken(t)
    ensures TokenEnd(t) == |t| && Split(t) == [t]
  {
    assert t[..TokenEnd(t)] == t;
  }

  /** A single leading whitespace character is skipped by `split()`. */
  lemma SplitSpaceFront(c: char, s: string)
    requires IsSpace(c)
    ensures Split([c] + s) == Split(s)
  {
    assert ([c] + s)[1..] == s;
  }

  /** A token followed by whitespace: `split()` yields the token, then the
      tokens of the rest. */
  lemma SplitTokenThenSpace(t: string, c: char, rest: string)
    requires IsToken(t) && IsSpace(c)
    ensures Split(t + [c] + rest) == [t] + Split(rest)
  {
    var s := t + [c] + rest;
    assert s[..|t|] == t;
    TokenEndAt(s, |t|);
    assert s[..|t|] == t;
    assert s[|t|..] == [c] + rest;
    SplitSpaceFront(c, rest);
  }

  /** Whitespace at the end does not change `split()`. */
  lemma {:induction false} SplitSpaceBack(s: string, c: char)
    requires IsSpace(c)
    ensures Split(s + [c]) == Split(s)
    decreases |s|
  {
    var sc := s + [c];
    if s == [] {
      assert Split(sc) == Split(sc[1..]);
      assert sc[1..] == [];
    } else if IsSpace(s[0]) {
      assert sc[1..] == s[1..] + [c];
      SplitSpaceBack(s[1..], c);
    } else {
      var n := TokenEnd(s);
      assert sc[..n] == s[..n];
      TokenEndAt(sc, n);
      assert sc[..n] == s[..n];
      assert sc[n..] == s[n..] + [c];
      SplitSpaceBack(s[n..], c);
    }
  }

  lemma {:induction false} SplitTrimLeft(s: string)
    ensures Split(TrimLeft(s)) == Split(s)
    decreases |s|
  {
    if s != [] && IsSpace(s[0]) {
      SplitTrimLeft(s[1..]);
    }
  }

  lemma {:induction false} SplitTrimRight(s: string)
    ensures Split(TrimRight(s)) == Split(s)
    decreases |s|
  {
    if s != [] && IsSpace(s[|s| - 1]) {
      var p := s[..|s| - 1];
      SplitTrimRight(p);
      assert s == p + [s[|s| - 1]];
      SplitSpaceBack(p, s[|s| - 1]);
    }
  }

  /** `s.strip().split() == s.split()`: the strip before the split changes
      no word. */
  lemma SplitStrip(s: string)
    ensures Split(Strip(s)) == Split(s)
  {
    SplitTrimLeft(s);
    SplitTrimRight(TrimLeft(s));
  }

  /** For a stripped, non-empty string, `split()` gives more than one token
      exactly when the string holds whitespace, and otherwise gives the string
      itself. */
  lemma SplitStripped(s: string)
    requires IsStripped(s) && s != []
    ensures NoSpace(s) ==> Split(s) == [s]
    ensures !NoSpace(s) <==> |Split(s)| > 1
  {
    if NoSpace(s) {
      SplitOfToken(s);
    } else {
      SplitHeld(s);
    }
  }

  /** A stripped string holding whitespace splits into its first token and
      at least one more. */
  lemma SplitHeld(s: string)
    requires IsStripped(s) && s != [] && !NoSpace(s)
    ensures |Split(s)| > 1
  {
    var n := TokenEnd(s);
    assert n < |s| by { assert s[..|s|] == s; }
    var rest := s[n..];
    assert Split(s) == [s[..n]] + Split(rest) by { assert !IsSpace(s[0]); }
    assert !AllSpace(rest) by { assert rest[|rest| - 1] == s[|s| - 1]; }
    SplitEmpty(rest);
  }

  /** `split()` drops only whitespace: a character of `s` that is not
      whitespace lies in one of its tokens. */
  lemma {:induction false} NonSpaceInToken(s: string, c: char)
    requires !IsSpace(c) && c in s
    ensures exists k :: 0 <= k < |Split(s)| && c in Split(s)[k]
    decreases |s|
  {
    if IsSpace(s[0]) {
      assert c in s[1..] by { assert s == [s[0]] + s[1..]; }
      NonSpaceInToken(s[1..], c);
      assert Split(s) == Split(s[1..]);
    } else {
      var n := TokenEnd(s);
      assert Split(s) == [s[..n]] + Split(s[n..]);
      if c in s[..n] {
        assert Split(s)[0] == s[..n];
      } else {
        assert c in s[n..] by { assert s == s[..n] + s[n..]; }
        NonSpaceInToken(s[n..], c);
        var k :| 0 <= k < |Split(s[n..])| && c in Split(s[n..])[k];
        assert Split(s)[k + 1] == Split(s[n..])[k];
      }
    }
  }

  /** A character in neither part is not in their concatenation. */
  lemma CharNotInConcat(c: char, a: string, b: string)
    requires c !in a && c !in b
    ensures c !in a + b
  {
  }

  // ---------------------------------------------------------------------
  // join

  /** Python's `sep.join(parts)`. */
  function JoinWith(sep: string, parts: seq<string>): string
  {
    if |parts| == 0 then ""
    else if |parts| == 1 then parts[0]
    else parts[0] + sep + JoinWith(sep, parts[1..])
  }

  /** `" ".join(ws)`. */
  function Join(ws: seq<string>): string
  {
    JoinWith(" ", ws)
  }

  /** The split/join round trip: splitting `" ".join(ws)` recovers `ws` when
      every word is a token. */
  lemma {:induction false} SplitJoin(ws: seq<string>)
    requires forall i :: 0 <= i < |ws| ==> IsToken(ws[i])
    ensures Split(Join(ws)) == ws
  {
    if |ws| == 1 {
      SplitOfToken(ws[0]);
    } else if |ws| > 1 {
      SplitJoin(ws[1..]);
      assert Join(ws) == ws[0] + [' '] + Join(ws[1..]);
      SplitTokenThenSpace(ws[0], ' ', Join(ws[1..]));
    }
  }

  /** `" ".join(ws)` of tokens neither begins nor ends with whitespace, so
      stripping it when it is read back changes nothing. */
  lemma {:induction false} JoinStripped(ws: seq<string>)
    requires forall i :: 0 <= i < |ws| ==> IsToken(ws[i])
    ensures IsStripped(Join(ws))
    ensures ws != [] ==> Join(ws) != [] && Join(ws)[0] == ws[0][0]
  {
    if |ws| > 1 {
      JoinStripped(ws[1..]);
      var r := Join(ws[1..]);
      assert Join(ws) == ws[0] + " " + r;
    }
  }

  // ---------------------------------------------------------------------
  // replace one character

  /** Python's `s.replace(from, to)` for one-character `from` and `to`. */
  function ReplaceChar(s: string, from: char, to: char): (r: string)
    ensures |r| == |s|
    ensures forall i :: 0 <= i < |s| ==> r[i] == (if s[i] == from then to else s[i])
  {
    if s == [] then [] else [if s[0] == from then to else s[0]] + ReplaceChar(s[1..], from, to)
  }

  // ---------------------------------------------------------------------
  // decimal numerals

  predicate IsDigit(c: char) {
    '0' <= c <= '9'
  }

  function DigitChar(d: nat): (c: char)
    requires d < 10
    ensures IsDigit(c) && (c as int) - ('0' as int) == d
  {
    ('0' as int + d) as char
  }

  function DigitValue(c: char): nat
    requires IsDigit(c)
  {
    (c as int) - ('0' as int)
  }

  /** Python's `str(n)` for a natural number (an f-string `{n}`). */
  function Decimal(n: nat): (r: string)
    ensures |r| > 0 && (forall i :: 0 <= i < |r| ==> IsDigit(r[i]))
    ensures r[0] == '0' ==> r == "0"
  {
    if n < 10 then [DigitChar(n)] else Decimal(n / 10) + [DigitChar(n % 10)]
  }

  /** The value of a string of decimal digits. */
  function DecimalValue(s: string): nat
    requires forall i :: 0 <= i < |s| ==> IsDigit(s[i])
  {
    if s == [] then 0 else DecimalValue(s[..|s| - 1]) * 10 + DigitValue(s[|s| - 1])
  }

  /** Reading back the numeral of `n` gives `n`. */
  lemma {:induction false} DecimalRoundTrip(n: nat)
    ensures DecimalValue(Decimal(n)) == n
  {
    if n >= 10 {
      DecimalRoundTrip(n / 10);
      var r := Decimal(n);
      assert r[..|r| - 1] == Decimal(n / 10);
    }
  }

  // ---------------------------------------------------------------------
  // literal substring search

  /** `p` occurs in `s` starting at index `i`. */
  predicate OccursAt(s: string, p: string, i: int) {
    0 <= i && i + |p| <= |s| && s[i..i + |p|] == p
  }

  /** The first occurrence of `p` in `s` at or after `from`. */
  function FindFirst(s: string, p: string, from: nat): (r: Option<nat>)
    ensures r.Some? ==> from <= r.value && OccursAt(s, p, r.value)
    ensures r.Some? ==> forall k :: from <= k < r.value ==> !OccursAt(s, p, k)
    ensures r.None? ==> forall k :: from <= k ==> !OccursAt(s, p, k)
    decreases |s| - from
  {
    if from + |p| > |s| then None
    else if s[from..from + |p|] == p then Some(from)
    else FindFirst(s, p, from + 1)
  }

  /** The last occurrence of `p` in `s` at or after `from`. */
  function FindLast(s: string, p: string, from: nat): (r: Option<nat>)
    ensures r.Some? ==> from <= r.value && OccursAt(s, p, r.value)
    ensures r.Some? ==> forall k :: r.value < k ==> !OccursAt(s, p, k)
    ensures r.None? ==> forall k :: from <= k ==> !OccursAt(s, p, k)
    decreases |s| - from
  {
    match FindFirst(s, p, from)
    case None => None
    case Some(i) =>
      if i + 1 > |s| then Some(i)
      else
        match FindLast(s, p, i + 1)
        case None => Some(i)
        case Some(j) => Some(j)
  }
}
