# Storytime: one run of the story script

Storytime builds a story one word at a time. Each submitted word triggers
one run of `scripts/update_story.py`, which:

1. strips the word and checks it with `validate_word`;
2. appends it to `current_story.md`;
3. rewrites `story_stats.md` with the word count, the five most common
   words and the latest contributor;
4. replaces the story region of `README.md`;
5. once the story reaches 500 words, copies it to the next numbered
   archive and empties the story file.

This project models one such run as a transition from inputs to outputs:

- **Inputs:** the text `read_text()` returns for the story file and for
  the README, the `WORD` and `AUTHOR` variables, and the number of
  archives already present. `read_text()` reads every line ending
  (`\r\n`, `\r`) as `\n`, so the model sees only `\n`.
- **Outputs:** either the rejection notice, or the new contents of every
  file written.

It proves what that transition guarantees.

Modules, one file each:

- `Text` (`text.dfy`): the Python string operations the script uses.
  These are `str.isspace` with its full Unicode table, `strip()`,
  `split()`, `sep.join`, a one-character `replace`, `str(n)` and
  literal substring search.
- `Validation` (`validation.dfy`): `validate_word`, its four verdicts and
  its messages, checked in the script's order.
- `Ranking` (`ranking.dfy`): `Counter(words).most_common(5)`.
  - `TopWords` is the specification. `Counter` keeps keys in the order
    they are first seen. `most_common` is a stable sort by count, so ties
    stay in first-occurrence order.
  - The methods `CountWords`, `Items` and `MostCommon` compute the same
    result with loops and are proved equal to the specification.
- `Stats` (`stats.dfy`): the text of the statistics file, together with a
  reader that recovers the three recorded values from it.
- `Readme` (`readme.dfy`): the greedy, DOTALL `re.sub` of
  `<!-- STORY-START -->.*<!-- STORY-END -->`. The match starts at the
  first START marker and runs to the last END marker after it.
- `UpdateStory` (`story.dfy`):
  - the function `Transition`, which specifies a run;
  - `Accept`, the part after a word is accepted;
  - the methods `Step` and `AppendWord`, which take the script's steps in
    order and are proved equal to those functions;
  - lemmas about whole runs.
- `Wrappers` (`wrappers.dfy`): `Option`.

Behaviour that follows the code rather than its documentation:

- The README region shows the story as it was loaded, before the new word
  is appended (`story_text` at line 63, not `words`). It therefore lags
  one word behind the story as it stands after the append. That is the
  story file on an ordinary run. On a run that archives, the story file is
  emptied (line 76), and that story is the archive's text, while the region
  still shows the 499 words loaded.
- Python's `$` also matches just before a final newline. So `^[a-zA-Z'-]+$`
  accepts `"ok\n"`, and on its own `validate_word("ok\n")` is valid. The
  script never passes such a word, because it strips `WORD` first
  (line 8).
- Stripping and splitting use Python's whole whitespace table, not just
  blanks and newlines.
- At 500 words, the statistics still describe the full story of 500
  words, and the story file is emptied.

## Model

| member | source | states |
|---|---|---|
| Validation.ValidateWord | scripts/update_story.py:22-29 | `validate_word`: empty, then more than one `split()` token, then a failed match of `^[a-zA-Z'-]+$`, else valid; its verdicts are characterised by `ValidateStripped` |
| Validation.MatchesWordPattern | scripts/update_story.py:27 | `re.match(r"^[a-zA-Z'-]+$", s)` succeeds: `s` is one or more characters of the class, optionally followed by one final newline that `$` lets through |
| Validation.Message | scripts/update_story.py:24-29 | the message `validate_word` returns beside each verdict: `Valid`, `Word is empty`, `Only single words allowed` and `Word contains invalid characters` |
| Validation.ValidateStripped | scripts/update_story.py:22-29 | for a stripped word, each verdict is characterised in both directions: empty exactly when the word is empty; more than one word exactly when it holds whitespace; invalid characters exactly when it is whitespace-free but has a character outside `[a-zA-Z'-]`; valid exactly when it is non-empty and made only of those characters |
| Validation.AcceptedWordIsToken | scripts/update_story.py:22-29 | a stripped word that `validate_word` accepts is non-empty, holds only ASCII letters, `'` and `-`, and `split()` keeps it whole as one token |
| Validation.TrailingNewlineAccepted | scripts/update_story.py:27 | the pattern lets `"ok\n"` through because `$` matches before a final newline, and stripping turns that input into `"ok"` |
| Text.Strip | scripts/update_story.py:8 | `str.strip()`: whitespace (Python's `str.isspace` table) removed from both ends; the result neither begins nor ends with whitespace |
| Text.Split | scripts/update_story.py:25 | `str.split()`: the maximal runs of non-whitespace, left to right; every entry is a non-empty, whitespace-free token |
| Text.Join | scripts/update_story.py:46 | `" ".join(ws)`: the entries with one blank between neighbours; `SplitJoin` is its inverse |
| Text.JoinWith | scripts/update_story.py:53 | `sep.join(parts)`: the parts with `sep` between neighbours, and the empty text for no parts; used with `", "` for the statistics line and `" "` for the story |
| Text.ReplaceChar | scripts/update_story.py:63 | `s.replace(from, to)` for one character: the same length, with every `from` replaced by `to` and every other character kept |
| Text.Decimal | scripts/update_story.py:54 | `str(n)`: a non-empty string of decimal digits without a leading zero except for `"0"`; `DecimalRoundTrip` reads it back as `n` |
| Text.NonSpaceInToken | scripts/update_story.py:42 | `split()` drops only whitespace: every other character of the text lies in one of the tokens |
| Text.SplitStrip | scripts/update_story.py:38-42 | stripping before `split()` changes none of the words |
| Text.SplitStripped | scripts/update_story.py:25 | a stripped non-empty string splits into more than one token exactly when it holds whitespace, and otherwise into itself |
| Text.SplitJoin | scripts/update_story.py:42-46 | splitting `" ".join(ws)` gives back `ws` when every entry is a whitespace-free token |
| Text.JoinStripped | scripts/update_story.py:38-46 | the joined story neither begins nor ends with whitespace, so the strip on the next load keeps it as it is |
| Text.StripAllSpace | scripts/update_story.py:8 | a value made only of whitespace strips to the empty word |
| Text.DecimalRoundTrip | scripts/update_story.py:54 | the decimal numeral of the word count reads back as that count |
| Ranking.Distinct | scripts/update_story.py:52 | the keys of `Counter(words)`: each distinct word once, in order of first occurrence |
| Ranking.Tally | scripts/update_story.py:52 | the items of `Counter(words)`: each key with its number of occurrences, in key order |
| Ranking.SortByCount | scripts/update_story.py:52 | the stable `sorted(items, key=count, reverse=True)` inside `most_common`: a permutation of the items, by count, with ties kept in their order; `SortedTally` proves the ranking |
| Ranking.TopWords | scripts/update_story.py:52 | `Counter(ws).most_common(k)`: the distinct words with their counts in first-occurrence order, stably sorted by count, descending, and cut to `k`; characterised by `TopWordsRanking` |
| Ranking.SortedTally | scripts/update_story.py:52 | the sorted counter items cover each distinct word exactly once with its count, and are ranked by count and then by first occurrence |
| Ranking.TopWordsRanking | scripts/update_story.py:52 | `most_common(k)` lists `min(k, distinct words)` entries. Each is a word of the story with its number of occurrences, and no word appears twice. Counts do not increase down the list, and equal counts keep first-occurrence order. Any word left out ranks below the last one listed |
| Ranking.TopWordsSingle | scripts/update_story.py:52 | a story of one word ranks that word once with count 1 |
| Ranking.CountWords | scripts/update_story.py:52 | one pass over the words yields the keys in first-occurrence order and a map that holds exactly the words of the story, each with its number of occurrences |
| Ranking.Items | scripts/update_story.py:52 | listing the counter's keys with their counts yields the tally of the words |
| Ranking.MostCommon | scripts/update_story.py:52 | counting, listing, stable sorting by count and truncating to `n` give exactly the specified ranking `TopWords` |
| Ranking.MostCommonExample | scripts/update_story.py:52 | for `a b a c b a` the ranking is `a(3)`, `b(2)`, `c(1)` in that order |
| Stats.FormatEntry | scripts/update_story.py:53 | `f"{w}({c})"`: the word, an opening parenthesis, the decimal count and a closing parenthesis |
| Stats.FormatEntries | scripts/update_story.py:53 | the generator `f"{w}({c})" for w, c in most_common`: one formatted entry per ranked word, in order |
| Stats.StatsText | scripts/update_story.py:53-57 | the three lines `Word count: n`, `Most common words: w(c), ...` and `Most recent contributor: author`, each ending in a newline; `StatsRoundTrip` reads them back |
| Stats.StatsRoundTrip | scripts/update_story.py:53-57 | the statistics text reads back as exactly the word count, the ranked words with their counts and the contributor, when the contributor's name is a single line and no listed word holds a newline, a comma or an opening parenthesis |
| Readme.StoryDisplay | scripts/update_story.py:63 | the region text: the loaded story with each newline turned into a blank, then the link for the next word |
| Readme.ReplaceStoryRegion | scripts/update_story.py:64-69 | the README with the match of `START.*END` (DOTALL) replaced by START, newline, display, newline, END; without a match the README as it was |
| Readme.StorySpan | scripts/update_story.py:64-69 | a match starts at a START marker and its END marker begins after the START marker ends; no START marker comes before the match and no END marker comes after it |
| Readme.NoMatchExactly | scripts/update_story.py:64-69 | there is no match exactly when every END marker begins before the end of every START marker |
| Readme.ReplacedLayout | scripts/update_story.py:64-69 | after the replacement, the README up to the end of the first START marker and from the last END marker on is unchanged, and between them stands the display on a line of its own |
| Readme.ReplaceThenRead | scripts/update_story.py:63-69 | after the replacement, the matched region holds exactly the display between two newlines |
| Readme.ReplaceIdempotent | scripts/update_story.py:64-69 | replacing the region a second time with the same display changes nothing |
| Readme.NoSecondMatch | scripts/update_story.py:64-69 | the rest of the README after the match has no further match, so the substitution happens once |
| UpdateStory.Notice | scripts/update_story.py:33 | `f"Rejected word '{WORD}': {msg}"` for the stripped word and the verdict's message |
| UpdateStory.StoryText | scripts/update_story.py:37-40 | the story as loaded: the story file's text stripped, or the empty text when there is no story file |
| UpdateStory.Transition | scripts/update_story.py:8-76 | one run: strip and validate `WORD`; on rejection only the notice; otherwise `Accept` of the loaded story, the word, `AUTHOR` (or `unknown`), the README and the archive count |
| UpdateStory.Accept | scripts/update_story.py:42-76 | the files written for an accepted word: the joined story (emptied at 500 words or more), the statistics of all the words, the README with its region replaced, and at 500 words the archive numbered one past the existing ones |
| UpdateStory.Step | scripts/update_story.py:8-76 | the script's steps taken in order produce exactly the transition `Transition` |
| UpdateStory.AppendWord | scripts/update_story.py:42-76 | the steps after acceptance produce exactly `Accept` of the loaded story and the word |
| UpdateStory.RejectedByVerdict | scripts/update_story.py:31-34 | a run is rejected exactly when `validate_word` rejects the stripped word, and the notice names the word and the message |
| UpdateStory.RejectedExactly | scripts/update_story.py:8-34 | a run is rejected exactly when the stripped word is empty or holds a character outside `[a-zA-Z'-]` |
| UpdateStory.BlankRejected | scripts/update_story.py:8-34 | a missing or all-whitespace `WORD` is rejected with the empty-word notice, whatever the files hold |
| UpdateStory.InnerSpaceRejected | scripts/update_story.py:8-34 | a `WORD` that still holds whitespace once stripped, whatever surrounds it, is rejected with the single-word notice naming the stripped word |
| UpdateStory.AcceptedRun | scripts/update_story.py:31-43 | an accepted run appends a non-empty word of `[a-zA-Z'-]` characters to the words as loaded |
| UpdateStory.AcceptedStory | scripts/update_story.py:37-76 | an accepted run appends the word to the stored ones. Below 500 words, reloading the story file gives exactly that list and nothing is archived. At 500 words or more, the archive gets number `archiveCount + 1` and the full list, and the story file is emptied |
| UpdateStory.AcceptWords | scripts/update_story.py:42-76 | the same facts as `AcceptedStory`, for any story text and any whitespace-free word |
| UpdateStory.AcceptedStats | scripts/update_story.py:51-58 | read back, the statistics give the number of stored words plus one, `most_common(5)` of the new word list, and the contributor, or `unknown` when `AUTHOR` is unset. This holds even on a run that archives |
| UpdateStory.AcceptedReadme | scripts/update_story.py:61-70 | the README region shows the story as loaded before this word, with newlines turned into blanks and the next-word link appended; a README without a match is written back as the same text |
| UpdateStory.LiteralTemplate | scripts/update_story.py:63-66 | when every stored word is one `validate_word` accepts, the replacement string passed to `re.sub` holds no backslash, so Python's template processing leaves it literal, as `ReplaceStoryRegion` assumes |
| UpdateStory.WellFormedPreserved | scripts/update_story.py:42-76 | if every stored word is one that `validate_word` accepts, so is every word of the new story file and of the archive |
| UpdateStory.BelowLimitPreserved | scripts/update_story.py:73-76 | after any accepted word, the story file holds fewer than 500 words |
| UpdateStory.FirstWord | scripts/update_story.py:8-76 | with no story file, whatever the README and `AUTHOR`, a `WORD` that strips to a valid word gives a run whose story file is that word; the statistics are `StatsText(1, [(word, 1)], author)`, `unknown` when `AUTHOR` is unset; a README, when there is one, gets a region that shows only the next-word link; nothing is archived |

## Left out

- The `git config`, `add`, `commit` and `push` calls (lines 79-83) are left out. They are external processes.
- Reading the environment and the files is not modelled. Their values are the parameters of `Transition`: `None` stands for an unset variable or a missing file (lines 8-9, 37-40, 61-62).
- Writing the files is not modelled. Their new contents are its result (lines 46, 58, 70, 75-76).
- Failures of file I/O are not modelled.
- Only the final contents of the story file are modelled. Line 46 writes the joined story first, and on an archiving run line 76 then overwrites it with the empty text.
- `mkdir` of the archive directory is left out (line 19).
- The archive count from the `glob` of `stories/story_*.md` is a parameter (line 74), and the archive file is identified by its number.
- `print` and `sys.exit(0)` on rejection (lines 33-34) are represented by the `Rejected` outcome carrying the notice text.
- Regular expressions are not modelled in general: only the two patterns the script uses are.
- UpdateStory.Transition: template processing in `re.sub`'s replacement string (lines 64-66) is not modelled; the region text is substituted literally. Python reads a backslash there as an escape. `\\` gives one backslash, and `\n`, `\t` and the like give control characters. Any other backslash before an ASCII letter, and a reference to a group the pattern lacks such as `\1`, raises `re.error`. That exception comes after the story and statistics files are written (lines 46, 58) and before the README write and the archive step (lines 70-76). Such a run leaves the appended story in `current_story.md`, for instance 500 words from a story file of 499, and writes no README and no archive, while `Transition` reports the new README and, at 500 words, the archive and the emptied story. This needs a README and a loaded story holding a backslash. `LiteralTemplate` proves that a story made only of words `validate_word` accepts holds none, and every story the script writes is one (`WellFormedPreserved`). A story file edited by other means may hold one, and the lemmas about `Transition` do not cover that case.
- UpdateStory.Accept: the same template gap as `UpdateStory.Transition` above. `Accept` hands `StoryDisplay(storyText)` to `ReplaceStoryRegion`, which substitutes it literally. Given a README and a loaded story of 499 words where one word holds `\d`, the script raises `re.error` at line 64 and leaves 500 words in the story file with no archive. `Accept` instead reports a README, an emptied story and archive `archiveCount + 1`. `LiteralTemplate` rules this out for a story of valid words.
- Line endings: files are modelled as the text `read_text()` returns, with `\r\n` and `\r` already read as `\n`, and `write_text` as writing that text. A README with `\r\n` endings and no match is therefore written back with `\n` endings. The model calls it unchanged only as text.
- Unicode normalisation and the encoding of the files are out of scope. Strings are sequences of Unicode scalar values. On POSIX, `os.environ` decodes undecodable bytes of `WORD` into lone surrogates, which a Dafny string cannot hold. Such a word is rejected at line 25 or 27, so only the exact text of its notice is out of reach.
- UpdateStory.AcceptedStats: needs a single-line contributor name and a story of valid words, because otherwise the statistics text cannot be read back unambiguously. The text itself is what `StatsText` renders in every case.
