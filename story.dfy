/** One run of the story script: validate the submitted word, append it to
    the story, rewrite the statistics and the README, and archive the story
    once it reaches the word limit. The environment, the files and the number
    of archives already present are inputs; the new file contents are the
    result. */
module UpdateStory {

  import opened Wrappers
  import opened Text
  import opened Validation
  import opened Ranking
  import opened Stats
  import opened Readme

  /** A story of this many words is archived and restarted. */
  const MaxWords: nat := 500

  /** How many of the most common words the statistics list. */
  const TopCount: nat := 5

  /** The contributor named when `AUTHOR` is unset. */
  const DefaultAuthor := "unknown"

  /** An archived story: its number and the text written to its file. */
  datatype Archive = Archive(number: nat, text: string)

  /** The result of one run: either the notice printed for a rejected word,
      with nothing written, or the contents of the story file, the statistics
      file, the README (`None` when there is no README to rewrite) and the
      archive written, if any. */
  datatype Outcome =
    | Rejected(notice: string)
    | Accepted(story: string, stats: string, readme: Option<string>, archive: Option<Archive>)

  /** `f"Rejected word '{WORD}': {msg}"`. */
  function Notice(word: string, v: Verdict): string {
    "Rejected word '" + word + "': " + Message(v)
  }

  /** The story text as the script loads it: the file's contents, stripped,
      or the empty text when there is no story file. */
  function StoryText(storyFile: Option<string>): string {
    if storyFile.Some? then Strip(storyFile.value) else ""
  }

  /** The files written once `word` is accepted, with `storyText` the story
      as loaded: the words are the stored ones plus `word`; the statistics
      describe all of them; the README region shows the story as loaded; at
      `MaxWords` words the story goes to archive number `archiveCount + 1`
      and the story file is emptied. */
  function Accept(storyText: string, word: string, author: string,
                  readmeFile: Option<string>, archiveCount: nat): Outcome
  {
    var words := Split(storyText) + [word];
    var stats := StatsText(|words|, TopWords(words, TopCount), author);
    var readme :=
      if readmeFile.Some? then Some(ReplaceStoryRegion(readmeFile.value, StoryDisplay(storyText))) else None;
    if |words| >= MaxWords then Accepted("", stats, readme, Some(Archive(archiveCount + 1, Join(words))))
    else Accepted(Join(words), stats, readme, None)
  }

  /** The script as a transition from its inputs to its outputs.
      `storyFile` and `readmeFile` are the texts `read_text()` returns for
      `current_story.md` and `README.md`, with every line ending already read
      as "\n" (`None` when the file does not exist), `wordVar` and
      `authorVar` the environment variables `WORD` and `AUTHOR`, and
      `archiveCount` the number of `stories/story_*.md` files. */
  function Transition(storyFile: Option<string>, wordVar: Option<string>, authorVar: Option<string>,
                      readmeFile: Option<string>, archiveCount: nat): Outcome
  {
    var word := Strip(wordVar.GetOr(""));
    var verdict := ValidateWord(word);
    if verdict != Valid then Rejected(Notice(word, verdict))
    else Accept(StoryText(storyFile), word, authorVar.GetOr(DefaultAuthor), readmeFile, archiveCount)
  }

  /** The script's steps in order: validate and exit on rejection, load the
      story, then write the files for the accepted word. */
  method Step(storyFile: Option<string>, wordVar: Option<string>, authorVar: Option<string>,
              readmeFile: Option<string>, archiveCount: nat) returns (out: Outcome)
    ensures out == Transition(storyFile, wordVar, authorVar, readmeFile, archiveCount)
  {
    var word := Strip(wordVar.GetOr(""));
    var author := authorVar.GetOr(DefaultAuthor);
    var verdict := ValidateWord(word);
    if verdict != Valid {
      return Rejected(Notice(word, verdict));
    }
    var storyText := "";
    if storyFile.Some? {
      storyText := Strip(storyFile.value);
    }
    assert storyText == StoryText(storyFile);
    out := AppendWord(storyText, word, author, readmeFile, archiveCount);
  }

  /** The steps after acceptance: split the story and append the word, write
      the joined story, count the words for the statistics, rewrite the
      README, and on reaching the limit write the archive and overwrite the
      story with the empty text. */
  method AppendWord(storyText: string, word: string, author: string,
                    readmeFile: Option<string>, archiveCount: nat) returns (out: Outcome)
    ensures out == Accept(storyText, word, author, readmeFile, archiveCount)
  {
    var words := Split(storyText);
    words := words + [word];
    var story := Join(words);
    var wordCount := |words|;
    var top := MostCommon(words, TopCount);
    var stats := StatsText(wordCount, top, author);
    var readme: Option<string> := None;
    if readmeFile.Some? {
      readme := Some(ReplaceStoryRegion(readmeFile.value, StoryDisplay(storyText)));
    }
    var archive: Option<Archive> := None;
    if wordCount >= MaxWords {
      archive := Some(Archive(archiveCount + 1, Join(words)));
      story := "";
    }
    out := Accepted(story, stats, readme, archive);
  }

  // -----------------------------------------------------------------------
  // properties of one run

  /** The words of the story as the script loads them. */
  function StoredWords(storyFile: Option<string>): seq<string> {
    Split(StoryText(storyFile))
  }

  /** Every word of the story is one `validate_word` would accept. */
  predicate WellFormedStory(text: string) {
    forall i :: 0 <= i < |Split(text)| ==> AllWordChars(Split(text)[i])
  }

  /** A run is rejected exactly when `validate_word` does not accept the
      stripped word, and the notice names the word and the reason. */
  lemma RejectedByVerdict(storyFile: Option<string>, wordVar: Option<string>, authorVar: Option<string>,
                          readmeFile: Option<string>, archiveCount: nat)
    ensures var word := Strip(wordVar.GetOr(""));
            var out := Transition(storyFile, wordVar, authorVar, readmeFile, archiveCount);
            && (out.Rejected? <==> ValidateWord(word) != Valid)
            && (out.Rejected? ==> out.notice == Notice(word, ValidateWord(word)))
  {
    var word := Strip(wordVar.GetOr(""));
    var verdict := ValidateWord(word);
    var accepted := Accept(StoryText(storyFile), word, authorVar.GetOr(DefaultAuthor), readmeFile, archiveCount);
    assert Transition(storyFile, wordVar, authorVar, readmeFile, archiveCount)
        == if verdict != Valid then Rejected(Notice(word, verdict)) else accepted;
    assert accepted.Accepted?;
  }

  /** A word is rejected exactly when, after stripping, it is empty or holds
      a character outside `[a-zA-Z'-]`; nothing is written then. */
  lemma RejectedExactly(storyFile: Option<string>, wordVar: Option<string>, authorVar: Option<string>,
                        readmeFile: Option<string>, archiveCount: nat)
    ensures var word := Strip(wordVar.GetOr(""));
            Transition(storyFile, wordVar, authorVar, readmeFile, archiveCount).Rejected? <==>
              (word == "" || !AllWordChars(word))
  {
    RejectedByVerdict(storyFile, wordVar, authorVar, readmeFile, archiveCount);
    ValidateStripped(Strip(wordVar.GetOr("")));
  }

  /** The story file and the archive that `Accept` writes: the words are
      split back out of whichever of the two holds them. */
  lemma AcceptWords(storyText: string, word: string, author: string,
                    readmeFile: Option<string>, archiveCount: nat)
    requires IsToken(word)
    ensures var out := Accept(storyText, word, author, readmeFile, archiveCount);
            var words := Split(storyText) + [word];
            && out.Accepted?
            && (out.archive.Some? <==> |words| >= MaxWords)
            && (out.archive.None? ==> Split(Strip(out.story)) == words)
            && (out.archive.Some? ==> out.story == "" && out.archive.value.number == archiveCount + 1
                                      && Split(out.archive.value.text) == words)
  {
    JoinedWords(Split(storyText), word);
  }

  /** The stored words plus a new token, joined, split back into the same
      list, with or without stripping first. */
  lemma JoinedWords(stored: seq<string>, word: string)
    requires forall i :: 0 <= i < |stored| ==> IsToken(stored[i])
    requires IsToken(word)
    ensures Split(Join(stored + [word])) == stored + [word]
    ensures Split(Strip(Join(stored + [word]))) == stored + [word]
  {
    var words := stored + [word];
    assert forall i :: 0 <= i < |words| ==> IsToken(words[i]);
    SplitJoin(words);
    JoinStripped(words);
    StripStripped(Join(words));
  }

  /** An accepted run is `Accept` applied to the loaded story and the
      stripped word, and that word is a single token of word characters. */
  lemma AcceptedRun(storyFile: Option<string>, wordVar: Option<string>, authorVar: Option<string>,
                    readmeFile: Option<string>, archiveCount: nat)
    requires Transition(storyFile, wordVar, authorVar, readmeFile, archiveCount).Accepted?
    ensures var word := Strip(wordVar.GetOr(""));
            && word != "" && AllWordChars(word) && IsToken(word)
            && Transition(storyFile, wordVar, authorVar, readmeFile, archiveCount)
               == Accept(StoryText(storyFile), word, authorVar.GetOr(DefaultAuthor), readmeFile, archiveCount)
  {
    AcceptedWordIsToken(Strip(wordVar.GetOr("")));
  }

  /** On acceptance the words are the stored ones plus the new word, so the
      count grows by exactly one. Below the limit the story file holds them,
      and loading it again gives back exactly that list; at the limit the
      archive gets the next number and the full list, and the story file is
      emptied. */
  lemma AcceptedStory(storyFile: Option<string>, wordVar: Option<string>, authorVar: Option<string>,
                      readmeFile: Option<string>, archiveCount: nat)
    requires Transition(storyFile, wordVar, authorVar, readmeFile, archiveCount).Accepted?
    ensures var out := Transition(storyFile, wordVar, authorVar, readmeFile, archiveCount);
            var words := StoredWords(storyFile) + [Strip(wordVar.GetOr(""))];
            && (out.archive.Some? <==> |words| >= MaxWords)
            && (out.archive.None? ==> Split(Strip(out.story)) == words)
            && (out.archive.Some? ==> out.story == "" && out.archive.value.number == archiveCount + 1
                                      && Split(out.archive.value.text) == words)
  {
    AcceptedRun(storyFile, wordVar, authorVar, readmeFile, archiveCount);
    AcceptWords(StoryText(storyFile), Strip(wordVar.GetOr("")), authorVar.GetOr(DefaultAuthor),
                readmeFile, archiveCount);
  }

  /** The statistics describe the whole story including the new word, even
      when the story is archived and emptied in the same run: read back, they
      give the word count, `most_common(5)` of the words and the contributor
      (`"unknown"` when `AUTHOR` is unset). */
  lemma AcceptedStats(storyFile: Option<string>, wordVar: Option<string>, authorVar: Option<string>,
                      readmeFile: Option<string>, archiveCount: nat)
    requires Transition(storyFile, wordVar, authorVar, readmeFile, archiveCount).Accepted?
    requires WellFormedStory(StoryText(storyFile))
    requires '\n' !in authorVar.GetOr(DefaultAuthor)
    ensures var out := Transition(storyFile, wordVar, authorVar, readmeFile, archiveCount);
            var words := StoredWords(storyFile) + [Strip(wordVar.GetOr(""))];
            ReadStats(out.stats) ==
              Some(StatsRecord(|StoredWords(storyFile)| + 1, TopWords(words, TopCount), authorVar.GetOr(DefaultAuthor)))
  {
    AcceptedRun(storyFile, wordVar, authorVar, readmeFile, archiveCount);
    AcceptStats(StoryText(storyFile), Strip(wordVar.GetOr("")), authorVar.GetOr(DefaultAuthor),
                readmeFile, archiveCount);
  }

  /** The statistics `Accept` writes read back as the count, the ranking
      and the contributor of the stored words plus the new one. */
  lemma AcceptStats(storyText: string, word: string, author: string,
                    readmeFile: Option<string>, archiveCount: nat)
    requires WellFormedStory(storyText) && AllWordChars(word)
    requires '\n' !in author
    ensures var words := Split(storyText) + [word];
            ReadStats(Accept(storyText, word, author, readmeFile, archiveCount).stats)
              == Some(StatsRecord(|words|, TopWords(words, TopCount), author))
  {
    WellFormedAppend(storyText, word);
    StatsOfWords(Split(storyText) + [word], author);
  }

  /** Appending a valid word to a well-formed story gives a list of valid
      words. */
  lemma WellFormedAppend(text: string, word: string)
    requires WellFormedStory(text) && AllWordChars(word)
    ensures var words := Split(text) + [word];
            forall i :: 0 <= i < |words| ==> AllWordChars(words[i])
  {
    var words := Split(text) + [word];
    forall i | 0 <= i < |words| ensures AllWordChars(words[i]) {
      if i < |Split(text)| {
        assert words[i] == Split(text)[i];
      }
    }
  }

  /** The statistics of a list of valid words read back as its count, its
      ranking and the contributor. */
  lemma StatsOfWords(words: seq<string>, author: string)
    requires forall i :: 0 <= i < |words| ==> AllWordChars(words[i])
    requires '\n' !in author
    ensures ReadStats(StatsText(|words|, TopWords(words, TopCount), author))
         == Some(StatsRecord(|words|, TopWords(words, TopCount), author))
  {
    var top := TopWords(words, TopCount);
    TopWordsRanking(words, TopCount);
    forall i | 0 <= i < |top| ensures Readable(top[i].word) {
      var k :| 0 <= k < |words| && words[k] == top[i].word;
      WordCharsReadable(words[k]);
    }
    StatsRoundTrip(|words|, top, author);
  }

  lemma WordCharsReadable(w: string)
    requires AllWordChars(w)
    ensures Readable(w)
  {
    assert forall i :: 0 <= i < |w| ==> IsWordChar(w[i]);
  }

  /** The README region shows the story as it was before this word: the
      stored text, stripped, with newlines as blanks, followed by the link for
      the next word. A README without the markers is written back unchanged. */
  lemma AcceptedReadme(storyFile: Option<string>, wordVar: Option<string>, authorVar: Option<string>,
                       readme: string, archiveCount: nat)
    requires Transition(storyFile, wordVar, authorVar, Some(readme), archiveCount).Accepted?
    ensures var out := Transition(storyFile, wordVar, authorVar, Some(readme), archiveCount);
            var shown := StoryDisplay(StoryText(storyFile));
            && out.readme.Some?
            && (StorySpan(readme).None? ==> out.readme.value == readme)
            && (StorySpan(readme).Some? ==> ReadStoryRegion(out.readme.value) == Some("\n" + shown + "\n"))
  {
    var shown := StoryDisplay(StoryText(storyFile));
    if StorySpan(readme).Some? {
      ReplaceThenRead(readme, shown);
    }
  }

  /** A story of valid words holds no backslash, so the replacement string
      the script hands to `re.sub` holds none either: no escape or group
      reference is read in it, and the region gets the text literally. */
  lemma LiteralTemplate(storyFile: Option<string>)
    requires WellFormedStory(StoryText(storyFile))
    ensures '\\' !in StoryStart + Region(StoryDisplay(StoryText(storyFile))) + StoryEnd
  {
    var text := StoryText(storyFile);
    NoBackslash(text);
    var shown := ReplaceChar(text, '\n', ' ');
    assert '\\' !in shown by {
      forall i | 0 <= i < |shown| ensures shown[i] != '\\' {
        assert text[i] != '\\';
      }
    }
    var display := StoryDisplay(text);
    MarkupHasNoBackslash();
    CharNotInConcat('\\', shown, NextWordLink);
    CharNotInConcat('\\', "\n", display);
    CharNotInConcat('\\', "\n" + display, "\n");
    CharNotInConcat('\\', StoryStart, Region(display));
    CharNotInConcat('\\', StoryStart + Region(display), StoryEnd);
  }

  /** A character outside the word characters and whitespace, such as a
      backslash, never appears in a story of valid words. */
  lemma NoBackslash(text: string)
    requires WellFormedStory(text)
    ensures '\\' !in text
  {
    if '\\' in text {
      NonSpaceInToken(text, '\\');
      var k :| 0 <= k < |Split(text)| && '\\' in Split(text)[k];
    }
  }

  /** A story of valid words stays one: the story file and the archive hold
      only words `validate_word` accepts. */
  lemma WellFormedPreserved(storyFile: Option<string>, wordVar: Option<string>, authorVar: Option<string>,
                            readmeFile: Option<string>, archiveCount: nat)
    requires WellFormedStory(StoryText(storyFile))
    requires Transition(storyFile, wordVar, authorVar, readmeFile, archiveCount).Accepted?
    ensures var out := Transition(storyFile, wordVar, authorVar, readmeFile, archiveCount);
            WellFormedStory(out.story) && (out.archive.Some? ==> WellFormedStory(out.archive.value.text))
  {
    AcceptedRun(storyFile, wordVar, authorVar, readmeFile, archiveCount);
    AcceptWellFormed(StoryText(storyFile), Strip(wordVar.GetOr("")), authorVar.GetOr(DefaultAuthor),
                     readmeFile, archiveCount);
  }

  /** The story file and the archive `Accept` writes hold only valid words
      when the loaded story and the new word do. */
  lemma AcceptWellFormed(storyText: string, word: string, author: string,
                         readmeFile: Option<string>, archiveCount: nat)
    requires WellFormedStory(storyText) && AllWordChars(word) && IsToken(word)
    ensures var out := Accept(storyText, word, author, readmeFile, archiveCount);
            WellFormedStory(out.story) && (out.archive.Some? ==> WellFormedStory(out.archive.value.text))
  {
    var out := Accept(storyText, word, author, readmeFile, archiveCount);
    AcceptWords(storyText, word, author, readmeFile, archiveCount);
    WellFormedAppend(storyText, word);
    if out.archive.None? {
      SplitStrip(out.story);
    }
  }

  /** The live story never holds the limit: whatever it held before, after
      an accepted word it has fewer than `MaxWords` words. */
  lemma BelowLimitPreserved(storyFile: Option<string>, wordVar: Option<string>, authorVar: Option<string>,
                            readmeFile: Option<string>, archiveCount: nat)
    requires Transition(storyFile, wordVar, authorVar, readmeFile, archiveCount).Accepted?
    ensures |Split(Transition(storyFile, wordVar, authorVar, readmeFile, archiveCount).story)| < MaxWords
  {
    AcceptedRun(storyFile, wordVar, authorVar, readmeFile, archiveCount);
    AcceptBelowLimit(StoryText(storyFile), Strip(wordVar.GetOr("")), authorVar.GetOr(DefaultAuthor),
                     readmeFile, archiveCount);
  }

  /** The story file `Accept` writes holds fewer than `MaxWords` words. */
  lemma AcceptBelowLimit(storyText: string, word: string, author: string,
                         readmeFile: Option<string>, archiveCount: nat)
    requires IsToken(word)
    ensures |Split(Accept(storyText, word, author, readmeFile, archiveCount).story)| < MaxWords
  {
    var out := Accept(storyText, word, author, readmeFile, archiveCount);
    AcceptWords(storyText, word, author, readmeFile, archiveCount);
    if out.archive.None? {
      SplitStrip(out.story);
    }
  }

  // -----------------------------------------------------------------------
  // runs from particular inputs

  /** A first word: with no story file, a valid word becomes the whole
      story, the statistics count one word listed once, the README (when
      there is one) gets a region that shows only the next-word link, and
      nothing is archived. */
  lemma FirstWord(wordVar: Option<string>, authorVar: Option<string>, readmeFile: Option<string>,
                  archiveCount: nat)
    requires Strip(wordVar.GetOr("")) != "" && AllWordChars(Strip(wordVar.GetOr("")))
    ensures var word := Strip(wordVar.GetOr(""));
            var out := Transition(None, wordVar, authorVar, readmeFile, archiveCount);
            && out.Accepted?
            && out.story == word
            && out.stats == StatsText(1, [Entry(word, 1)], authorVar.GetOr(DefaultAuthor))
            && out.archive.None?
            && (out.readme.Some? <==> readmeFile.Some?)
            && (readmeFile.Some? ==> out.readme.value == ReplaceStoryRegion(readmeFile.value, NextWordLink))
  {
    var word := Strip(wordVar.GetOr(""));
    ValidateStripped(word);
    assert Transition(None, wordVar, authorVar, readmeFile, archiveCount)
        == Accept("", word, authorVar.GetOr(DefaultAuthor), readmeFile, archiveCount);
    FirstAccept(word, authorVar.GetOr(DefaultAuthor), readmeFile, archiveCount);
  }

  /** `Accept` on the empty story. */
  lemma FirstAccept(word: string, author: string, readmeFile: Option<string>, archiveCount: nat)
    ensures var out := Accept("", word, author, readmeFile, archiveCount);
            && out.Accepted?
            && out.story == word
            && out.stats == StatsText(1, [Entry(word, 1)], author)
            && out.archive.None?
            && (out.readme.Some? <==> readmeFile.Some?)
            && (readmeFile.Some? ==> out.readme.value == ReplaceStoryRegion(readmeFile.value, NextWordLink))
  {
    assert Split("") + [word] == [word] by { SplitEmpty(""); }
    assert StoryDisplay("") == NextWordLink;
    TopWordsSingle(word, TopCount);
  }

  /** A blank submission, or none, is rejected as empty. */
  lemma BlankRejected(storyFile: Option<string>, wordVar: Option<string>, authorVar: Option<string>,
                      readmeFile: Option<string>, archiveCount: nat)
    requires AllSpace(wordVar.GetOr(""))
    ensures Transition(storyFile, wordVar, authorVar, readmeFile, archiveCount) == Rejected(Notice("", Empty))
  {
    StripAllSpace(wordVar.GetOr(""));
    RejectedByVerdict(storyFile, wordVar, authorVar, readmeFile, archiveCount);
  }

  /** A submission with whitespace between two words, whatever whitespace
      surrounds it, is rejected as more than one word; the notice names the
      stripped submission. */
  lemma InnerSpaceRejected(storyFile: Option<string>, wordVar: Option<string>, authorVar: Option<string>,
                           readmeFile: Option<string>, archiveCount: nat)
    requires !NoSpace(Strip(wordVar.GetOr("")))
    ensures Transition(storyFile, wordVar, authorVar, readmeFile, archiveCount)
         == Rejected(Notice(Strip(wordVar.GetOr("")), MultipleWords))
  {
    SpaceRejected(Strip(wordVar.GetOr("")));
    RejectedByVerdict(storyFile, wordVar, authorVar, readmeFile, archiveCount);
  }

  /** A stripped word with whitespace inside is judged to be more than one
      word. */
  lemma SpaceRejected(word: string)
    requires IsStripped(word) && !NoSpace(word)
    ensures ValidateWord(word) == MultipleWords
  {
    ValidateStripped(word);
  }
}
