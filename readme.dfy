/** The story region of the README: the text from the marker
    `<!-- STORY-START -->` to the marker `<!-- STORY-END -->`, which the
    script replaces with `re.sub(START + ".*" + END, ..., flags=re.DOTALL)`. */
module Readme {

  import opened Wrappers
  import opened Text

  const StoryStart := "<!-- STORY-START -->"
  const StoryEnd := "<!-- STORY-END -->"

  /** The repository's page, and the link to open an issue there that submits
      the next word: `" [___](https://github.com/VectorSophie/Storytime/issues/new?title=)"`. */
  const RepositoryUrl := "https://github.com/" + "VectorSophie/Storytime"
  const NewIssueUrl := RepositoryUrl + "/issues/new?title="
  const NextWordLink := " [___](" + NewIssueUrl + ")"

  /** What the region shows: the story text with its newlines turned into
      blanks, then the link for the next word. */
  function StoryDisplay(storyText: string): string {
    ReplaceChar(storyText, '\n', ' ') + NextWordLink
  }

  /** The markers and the link hold no backslash, so `re.sub` copies them
      into the README as they are. */
  lemma MarkupHasNoBackslash()
    ensures '\\' !in StoryStart && '\\' !in StoryEnd && '\\' !in NextWordLink
  {
    MarkerHasNoBackslash();
    LinkHasNoBackslash();
  }

  lemma MarkerHasNoBackslash()
    ensures '\\' !in StoryStart && '\\' !in StoryEnd
  {
  }

  lemma LinkHasNoBackslash()
    ensures '\\' !in NextWordLink
  {
    assert '\\' !in "https://github.com/";
    assert '\\' !in "VectorSophie/Storytime";
    CharNotInConcat('\\', "https://github.com/", "VectorSophie/Storytime");
    assert '\\' !in "/issues/new?title=";
    CharNotInConcat('\\', RepositoryUrl, "/issues/new?title=");
    CharNotInConcat('\\', " [___](", NewIssueUrl);
    CharNotInConcat('\\', " [___](" + NewIssueUrl, ")");
  }

  /** Where a match of the pattern starts (at a START marker) and where the
      END marker that closes it starts. */
  datatype Span = Span(start: nat, end: nat)

  /** The match of `START.*END` with `.` matching newlines: `.*` is greedy,
      so the match starts at the first START marker and reaches the last END
      marker that begins after it. */
  function StorySpan(text: string): (r: Option<Span>)
    ensures r.Some? ==>
              && OccursAt(text, StoryStart, r.value.start)
              && OccursAt(text, StoryEnd, r.value.end)
              && r.value.start + |StoryStart| <= r.value.end
    ensures r.Some? ==> forall k :: 0 <= k < r.value.start ==> !OccursAt(text, StoryStart, k)
    ensures r.Some? ==> forall k :: r.value.end < k ==> !OccursAt(text, StoryEnd, k)
  {
    match FindFirst(text, StoryStart, 0)
    case None => None
    case Some(i) =>
      match FindLast(text, StoryEnd, i + |StoryStart|)
      case None => None
      case Some(j) => Some(Span(i, j))
  }

  /** The pattern has no match exactly when no END marker begins at or
      after the end of a START marker. */
  lemma NoMatchExactly(text: string)
    ensures StorySpan(text).None? <==>
              forall i, j :: OccursAt(text, StoryStart, i) && OccursAt(text, StoryEnd, j) ==>
                j < i + |StoryStart|
  {
  }

  /** The README after the substitution: the matched text is replaced by
      START, a newline, the display, a newline and END; without a match the
      README is returned unchanged. */
  function ReplaceStoryRegion(text: string, display: string): string {
    match StorySpan(text)
    case None => text
    case Some(sp) =>
      text[..sp.start] + StoryStart + Region(display) + StoryEnd + text[sp.end + |StoryEnd|..]
  }

  /** What the replacement puts between the markers: the display on a line
      of its own. */
  function Region(display: string): string {
    "\n" + display + "\n"
  }

  /** The text between the markers of the matched region. */
  function ReadStoryRegion(text: string): Option<string> {
    match StorySpan(text)
    case None => None
    case Some(sp) => Some(text[sp.start + |StoryStart|..sp.end])
  }

  lemma SamePrefixOccurs(a: string, b: string, n: nat, p: string, k: nat)
    requires n <= |a| && n <= |b| && a[..n] == b[..n] && k + |p| <= n
    ensures OccursAt(a, p, k) <==> OccursAt(b, p, k)
  {
    assert a[k..k + |p|] == a[..n][k..k + |p|];
    assert b[k..k + |p|] == b[..n][k..k + |p|];
  }

  lemma SameSuffixOccurs(a: string, m: nat, b: string, n: nat, p: string, k: nat)
    requires m <= |a| && n <= |b| && a[m..] == b[n..]
    ensures OccursAt(a, p, m + k) <==> OccursAt(b, p, n + k)
  {
    assert |a| - m == |b| - n;
    if m + k + |p| <= |a| {
      var sa, sb := a[m + k..m + k + |p|], b[n + k..n + k + |p|];
      forall x | 0 <= x < |p| ensures sa[x] == sb[x] {
        assert sa[x] == a[m..][k + x];
        assert sb[x] == b[n..][k + x];
      }
      assert sa == sb;
    }
  }

  /** The three parts of a concatenation of seven strings. */
  lemma SpliceParts(p: string, a: string, x: string, y: string, z: string, b: string, q: string)
    ensures var t, n := p + a + x + y + z + b + q, |p| + |a|;
            var m := n + |x| + |y| + |z|;
            && m + |b| <= |t|
            && t[..n] == p + a
            && t[n..m] == x + y + z
            && t[m..] == b + q
  {
  }

  /** Splicing a body between two markers `a` at `i` and `b` at `j` keeps the
      text up to the end of the first marker and from the second marker on. */
  lemma SpliceLayout(text: string, i: nat, j: nat, a: string, b: string, body: string)
    requires i + |a| <= j && j + |b| <= |text|
    requires text[i..i + |a|] == a && text[j..j + |b|] == b
    ensures var t := text[..i] + a + body + b + text[j + |b|..];
            && i + |a| + |body| + |b| <= |t|
            && t[..i + |a|] == text[..i + |a|]
            && t[i + |a|..i + |a| + |body|] == body
            && t[i + |a| + |body|..] == text[j..]
  {
    SpliceParts(text[..i], a, body, [], [], b, text[j + |b|..]);
    assert text[..i] + a + body + [] + [] + b + text[j + |b|..] == text[..i] + a + body + b + text[j + |b|..];
    SliceAt(text, i, |a|);
    SliceAt(text, j, |b|);
  }

  /** A slice taken in two pieces at `i` and `i + n`. */
  lemma SliceAt(s: string, i: nat, n: nat)
    requires i + n <= |s|
    ensures s[..i + n] == s[..i] + s[i..i + n]
    ensures s[i..] == s[i..i + n] + s[i + n..]
  {
  }

  /** The layout of the README after the replacement. */
  lemma ReplacedLayout(text: string, display: string)
    requires StorySpan(text).Some?
    ensures var sp, t := StorySpan(text).value, ReplaceStoryRegion(text, display);
            var j' := sp.start + |StoryStart| + |display| + 2;
            && j' + |StoryEnd| <= |t|
            && t[..sp.start + |StoryStart|] == text[..sp.start + |StoryStart|]
            && t[sp.start + |StoryStart|..j'] == Region(display)
            && t[j'..] == text[sp.end..]
  {
    var sp := StorySpan(text).value;
    SpliceLayout(text, sp.start, sp.end, StoryStart, StoryEnd, Region(display));
  }

  /** The match is determined by the properties `StorySpan` promises. */
  lemma SpanUnique(t: string, i: nat, j: nat)
    requires OccursAt(t, StoryStart, i) && OccursAt(t, StoryEnd, j) && i + |StoryStart| <= j
    requires forall k :: 0 <= k < i ==> !OccursAt(t, StoryStart, k)
    requires forall k :: j < k ==> !OccursAt(t, StoryEnd, k)
    ensures StorySpan(t) == Some(Span(i, j))
  {
    var sp := StorySpan(t).value;
    assert sp.start == i;
  }

  /** A text that agrees with `text` up to `n` has the same first START
      marker, if that marker ends by `n`. */
  lemma FirstStartKept(text: string, t: string, n: nat, i: nat)
    requires n <= |text| && n <= |t| && t[..n] == text[..n] && i + |StoryStart| <= n
    requires OccursAt(text, StoryStart, i)
    requires forall k :: 0 <= k < i ==> !OccursAt(text, StoryStart, k)
    ensures OccursAt(t, StoryStart, i)
    ensures forall k :: 0 <= k < i ==> !OccursAt(t, StoryStart, k)
  {
    SamePrefixOccurs(t, text, n, StoryStart, i);
    forall k | 0 <= k < i ensures !OccursAt(t, StoryStart, k) {
      SamePrefixOccurs(t, text, n, StoryStart, k);
    }
  }

  /** A text whose tail from `j'` is the tail of `text` from its last END
      marker `j` has its last END marker at `j'`. */
  lemma LastEndKept(text: string, j: nat, t: string, j': nat)
    requires j <= |text| && j' <= |t| && t[j'..] == text[j..]
    requires OccursAt(text, StoryEnd, j)
    requires forall k :: j < k ==> !OccursAt(text, StoryEnd, k)
    ensures OccursAt(t, StoryEnd, j')
    ensures forall k :: j' < k ==> !OccursAt(t, StoryEnd, k)
  {
    SameSuffixOccurs(t, j', text, j, StoryEnd, 0);
    forall k | j' < k ensures !OccursAt(t, StoryEnd, k) {
      SameSuffixOccurs(t, j', text, j, StoryEnd, k - j');
    }
  }

  /** After the replacement, the match of the pattern in the new README spans
      just the new region. */
  lemma ReplacedSpan(text: string, display: string)
    requires StorySpan(text).Some?
    ensures var sp := StorySpan(text).value;
            StorySpan(ReplaceStoryRegion(text, display)) ==
              Some(Span(sp.start, sp.start + |StoryStart| + |display| + 2))
  {
    var sp := StorySpan(text).value;
    var t := ReplaceStoryRegion(text, display);
    var j' := sp.start + |StoryStart| + |display| + 2;
    ReplacedLayout(text, display);
    FirstStartKept(text, t, sp.start + |StoryStart|, sp.start);
    LastEndKept(text, sp.end, t, j');
    SpanUnique(t, sp.start, j');
  }

  /** After the replacement the region holds exactly the new display. */
  lemma ReplaceThenRead(text: string, display: string)
    requires StorySpan(text).Some?
    ensures ReadStoryRegion(ReplaceStoryRegion(text, display)) == Some("\n" + display + "\n")
  {
    ReplacedLayout(text, display);
    ReplacedSpan(text, display);
  }

  /** Replacing the region a second time with the same display changes
      nothing. */
  lemma ReplaceIdempotent(text: string, display: string)
    ensures ReplaceStoryRegion(ReplaceStoryRegion(text, display), display) == ReplaceStoryRegion(text, display)
  {
    if StorySpan(text).Some? {
      var sp := StorySpan(text).value;
      var t := ReplaceStoryRegion(text, display);
      ReplacedLayout(text, display);
      ReplacedSpan(text, display);
      var j' := sp.start + |StoryStart| + |display| + 2;
      var front, back := t[..sp.start], t[j' + |StoryEnd|..];
      assert front == text[..sp.start + |StoryStart|][..sp.start] == text[..sp.start];
      assert back == text[sp.end..][|StoryEnd|..] == text[sp.end + |StoryEnd|..];
      assert ReplaceStoryRegion(t, display) == front + StoryStart + Region(display) + StoryEnd + back;
    }
  }

  /** No END marker begins in the text after one that is the last. */
  lemma NoEndAfter(text: string, e: nat, rest: string)
    requires OccursAt(text, StoryEnd, e) && rest == text[e + |StoryEnd|..]
    requires forall k :: e < k ==> !OccursAt(text, StoryEnd, k)
    ensures forall k :: !OccursAt(rest, StoryEnd, k)
  {
    var a := e + |StoryEnd|;
    forall k | OccursAt(rest, StoryEnd, k) ensures false {
      SameSuffixOccurs(text, a, rest, 0, StoryEnd, k);
    }
  }

  /** The substitution happens once: after the matched region no END marker
      is left, so `re.sub` finds no second match. */
  lemma NoSecondMatch(text: string)
    requires StorySpan(text).Some?
    ensures StorySpan(text[StorySpan(text).value.end + |StoryEnd|..]).None?
  {
    var e := StorySpan(text).value.end;
    var rest := text[e + |StoryEnd|..];
    assert forall k :: !OccursAt(rest, StoryEnd, k) by {
      NoEndAfter(text, e, rest);
    }
    NoEndNoMatch(rest);
  }

  lemma NoEndNoMatch(t: string)
    requires forall k :: !OccursAt(t, StoryEnd, k)
    ensures StorySpan(t).None?
  {
    NoMatchExactly(t);
  }
}
