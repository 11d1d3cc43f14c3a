# Word-frequency pipeline of the Zipf's-law page, in Dafny

`zipfs.py` is a Streamlit page. Users upload text files, and the page plots
each file's ranked word frequencies as percentages of its most frequent word,
next to a Zipfian reference curve. This project models the page's
word-frequency pipeline and proves what it computes:

- **Document id** (`DocumentId`, `stem.dfy`). An uploaded file is filed under
  its name cut at the first `.`. A later file with the same stem replaces the
  earlier text.
- **Normalisation** (`Normalisation`, `normalise.dfy`). For each character of
  `string.punctuation`, in order, the text loses every copy of that character
  and is lower-cased. The loop is a method, proved equal to one function,
  `Normalized`, that drops punctuation and lower-cases character by character.
- **Splitting** (`Tokenisation`, `tokenise.dfy`). `str.split()` with no
  argument, over ASCII whitespace.
- **Counting** (`Counting`, `counting.dfy`). The dict `word -> count` is
  modelled as a sequence of `(word, count)` entries in insertion order, the
  order a Python dict iterates in. `Get` is `d.get(k, 0)` and `Put` is
  `d[k] = v`. The counting loop is a method, proved equal to `Tally`.
- **Ranking** (`Ranking`, `ranking.dfy`). `sorted(items, key=count,
  reverse=True)[:depth]` is modelled as a stable descending insertion sort,
  followed by a prefix of length `depth`.
- **Percentages** (`Rounding`, `rounding.dfy`, and `Percentages`,
  `percent.dfy`). `percentify` is `round(value / max * 100)`, with Python's
  round-half-to-even, computed on the exact rational.
- **The page's state** (`Zipf`, `zipf.dfy`). The three dicts `texts`,
  `textlengths` and `textwordamounts` are the fields of the class `Corpus`.
  Uploading and the processing loop are methods that update those fields.
  `PlotSeries` is the percentage series plotted for one document.
- **A worked example** (`ZipfExample`, `example.dfy`). "the cat sat on the
  mat the cat ran" goes through the whole pipeline. The result is
  `the 3, cat 2, sat 1, on 1, mat 1, ran 1` and the series
  `100, 67, 33, 33, 33, 33`.

Whitespace follows Python's `str.isspace` on ASCII characters. It covers
space, tab, line feed, carriage return, vertical tab and form feed, plus the
four information separators U+001C to U+001F. `str.split()` splits on those
separators too, so the model includes them.

## Model

| member | source | states |
|---|---|---|
| DocumentId.FileStem | zipfs.py:25 | The id is a prefix of the file name, holds no `.`, stops just before the first `.`, and is the whole name when there is no `.` |
| DocumentId.FileStemUnique | zipfs.py:25 | Those properties determine the id: any prefix with them is the id |
| DocumentId.FileStemOfName | zipfs.py:25 | A file `stem.ext` whose stem holds no `.` is filed under `stem`, whatever `ext` holds |
| Zipf.Corpus.constructor | zipfs.py:19-21 | The three dicts start empty, and the class invariant holds |
| Zipf.Corpus.Upload | zipfs.py:24-26 | The content is stored under the file's stem, replacing an earlier text with that stem; the other dicts are untouched |
| Zipf.Corpus.ProcessAll | zipfs.py:29-43 | Every document ends processed from its raw text: normalised text, word count and ranked table. No id is lost, and no other id is added or changed. Every ranked table is a ranking |
| Zipf.Corpus.ProcessOne | zipfs.py:30-43 | One loop pass updates exactly the three entries of document `id`, from its raw text |
| Zipf.ProcessDocument | zipfs.py:31-43 | The loop body returns the normalised text, the number of words, and the ranked table, which is sorted, has distinct words, positive counts and at most 10 entries |
| Normalisation.Normalize | zipfs.py:31-32 | The per-character `replace(c, '').lower()` loop gives the same text as `Normalized`, which drops every punctuation character and lower-cases the rest |
| Normalisation.LowerChar | zipfs.py:32 | The capital at each position of the alphabet becomes the small letter at the same position. Lower-casing leaves no upper-case letter, and leaves every character other than a capital as it is |
| Normalisation.Lower | zipfs.py:32 | `s.lower()` keeps the length and lower-cases every character in its place |
| Normalisation.RemoveAll | zipfs.py:32 | `s.replace(c, '')` leaves no copy of `c` and never lengthens the text |
| Normalisation.Normalized | zipfs.py:31-32 | The normalised text is never longer than the raw text; the lemmas below state what it holds |
| Normalisation.PunctuationIsNotALetter | zipfs.py:16 | No character of `string.punctuation` is a letter, so lower-casing and removing punctuation commute |
| Normalisation.LowerRemoveCommute | zipfs.py:32 | Removing a punctuation character before or after lower-casing gives the same text |
| Normalisation.LowerIdempotent | zipfs.py:32 | Lower-casing twice is lower-casing once |
| Normalisation.NormaliseStep | zipfs.py:31-32 | One more loop pass extends the normalised text to one more punctuation character |
| Normalisation.NormalizedIsClean | zipfs.py:31-32 | The normalised text holds no punctuation character and no upper-case letter |
| Normalisation.NormalizedConcat | zipfs.py:31-32 | Normalisation works character by character, so every surviving character keeps its order |
| Normalisation.NormalizedChar | zipfs.py:31-32 | A punctuation character disappears; any other character survives, lower-cased |
| Normalisation.NormalizedFixesCleanText | zipfs.py:31-32 | A text without punctuation or upper-case letters is left unchanged |
| Normalisation.NormalizedIdempotent | zipfs.py:31-32 | Normalising twice gives the same text as normalising once |
| Tokenisation.Split | zipfs.py:34 | Every word from `split()` is non-empty and holds no whitespace, and the words, put together, are exactly the text's non-whitespace characters, in order |
| Tokenisation.SplitAtSpace | zipfs.py:34 | A whitespace character separates words: splitting `a + [c] + b` gives the words of `a` followed by the words of `b` |
| Tokenisation.SplitOfToken | zipfs.py:34 | A non-empty stretch without whitespace is one word, kept whole; with `SplitAtSpace` this fixes the words of every text |
| Tokenisation.SplitFromToken | zipfs.py:34 | Non-whitespace characters extend the word being read |
| Tokenisation.SplitJoin | zipfs.py:34 | Splitting the words joined with single spaces gives the words back |
| Tokenisation.SplitEmptyIffBlank | zipfs.py:34 | A text has no words exactly when it is all whitespace |
| Counting.Get | zipfs.py:40 | `d.get(k, 0)`: a non-zero reading is the count of an entry with key `k` |
| Counting.Put | zipfs.py:40 | `d[k] = v` never drops an entry and adds at most one |
| Counting.Tally | zipfs.py:38-40 | The counted dict never has more entries than there are words |
| Counting.CountWords | zipfs.py:38-40 | The counting loop yields `Tally(words)` |
| Counting.GetPut | zipfs.py:40 | After `d[k] = v`, `d.get(k)` is `v`, and every other key reads as before |
| Counting.KeysPut | zipfs.py:40 | A write keeps the key order, and a new key goes at the end |
| Counting.PutNewKey | zipfs.py:40 | Writing a new key appends the entry |
| Counting.PutExistingKey | zipfs.py:40 | Writing an existing key replaces that entry's value in place |
| Counting.SumPut | zipfs.py:40 | A write changes the sum of counts by the new value minus the old one |
| Counting.GetEntry | zipfs.py:40 | With distinct keys, looking up an entry's word finds that entry's count |
| Counting.FirstIndex | zipfs.py:38-40 | The first position at which a word occurs |
| Counting.TallyKeys | zipfs.py:38-40 | The keys of the counted dict are the distinct words in first-seen order |
| Counting.DedupMembers | zipfs.py:38-40 | A word is a key exactly when it occurs in the text |
| Counting.DedupDistinct | zipfs.py:38-40 | No word is a key twice |
| Counting.DedupFirstSeen | zipfs.py:38-40 | Keys are ordered by the position of their first occurrence |
| Counting.TallyGet | zipfs.py:38-40 | Every word's count is its number of occurrences, and an absent word reads 0 |
| Counting.TallySum | zipfs.py:38-40 | The counts add up to the number of words |
| Counting.TallyDistinct | zipfs.py:38-40 | The counted dict has distinct keys |
| Counting.TallyEntries | zipfs.py:38-40 | Every distinct word is a key exactly once, in first-seen order, with a count equal to its number of occurrences, which is at least 1 |
| Counting.TallyNewWord | zipfs.py:39-40 | A word not seen before is appended with count 1 |
| Counting.TallySeenWord | zipfs.py:39-40 | A word seen before gets one more count, in its old place |
| Ranking.Insert | zipfs.py:43 | Insertion adds exactly one entry (as a multiset) |
| Ranking.InsertSorted | zipfs.py:43 | Insertion keeps a descending table descending |
| Ranking.SortByCount | zipfs.py:43 | The sort is a permutation of the table, has its length, and has non-increasing counts |
| Ranking.Rank | zipfs.py:43 | The ranked table has `min(depth, number of entries)` entries |
| Ranking.InsertWithCount | zipfs.py:43 | Insertion puts the new entry first among the entries with its count, and moves no other entries with that count |
| Ranking.SortByCountStable | zipfs.py:43 | The sort is stable: the entries with any given count keep their relative order |
| Ranking.SortByCountOfSorted | zipfs.py:43 | Sorting a table that is already descending changes nothing |
| Ranking.InsertKeys | zipfs.py:43 | Inserting an entry with a new word keeps the words distinct, and adds exactly that word |
| Ranking.SortByCountKeys | zipfs.py:43 | Sorting keeps the same words, still distinct |
| Ranking.RankDistinctKeys | zipfs.py:43 | The ranked table has distinct words, so `dict(...)` keeps every ranked entry |
| Ranking.RankSorted | zipfs.py:43 | The ranked table has non-increasing counts |
| Ranking.RankKeepsLargest | zipfs.py:43 | The ranked table is a sub-multiset of the counted one, and all of it when there are at most `depth` entries. Every kept count is at least every dropped count |
| Ranking.RankEntries | zipfs.py:43 | Every ranked entry is an entry of the counted table |
| Ranking.RankStable | zipfs.py:43 | The kept entries with any given count are the first entries with that count in the counted table, in the same order |
| Zipf.RankingOfWords | zipfs.py:38-43 | A ranked count table is sorted, has distinct words and positive counts, has `min(depth, distinct words)` entries, and each count is the word's number of occurrences |
| Zipf.RankedCounts | zipfs.py:38-43 | Each ranked count is its word's number of occurrences, at least 1 |
| Zipf.CountsAddUpToLength | zipfs.py:34-40 | A document's counts add up to its recorded word count |
| Zipf.RankedTiesInFirstSeenOrder | zipfs.py:43 | Ranked words with equal counts appear in the order the text first uses them, and are the first such words |
| Zipf.RankedNonEmpty | zipfs.py:68 | A document with at least one word has a non-empty ranking, so its largest count exists |
| Zipf.BlankNormalizesToBlank | zipfs.py:31-32 | A text made only of punctuation and whitespace normalises to whitespace |
| Zipf.BlankUploadHasNoMaximum | zipfs.py:68 | A text made only of punctuation and whitespace has no words and an empty ranking, where `list(...)[0]` fails |
| Zipf.Corpus.Series | zipfs.py:67-69 | A processed document has no series exactly when its ranking is empty. Otherwise the series has one value per ranked word, starts at 100 and stays within 0 to 100 |
| Zipf.PlotSeries | zipfs.py:67-69 | There is no series exactly when the ranking is empty. Otherwise the series has one value per ranked word, starts at 100, stays within 0 to 100 and never increases |
| Rounding.Percent | zipfs.py:46-47 | `percentify(value, max)` is the whole percentage nearest to `100 * value / max`, an exact half going to the even neighbour |
| Rounding.RoundHalfEven | zipfs.py:47 | The result is the integer nearest to `n / d`; an exact half goes to the even neighbour |
| Rounding.RoundHalfEvenUnique | zipfs.py:47 | That nearest-integer property has exactly one solution |
| Rounding.NearestUnique | zipfs.py:47 | Two integers that both round `n / d` half to even are equal |
| Rounding.PercentBounds | zipfs.py:46-47 | A count between 0 and the maximum becomes a percentage between 0 and 100, and the maximum becomes 100 |
| Rounding.PercentMonotone | zipfs.py:46-47 | A larger count never becomes a smaller percentage |
| Percentages.PercentSeries | zipfs.py:68-69 | The series has one value per ranked entry |
| Percentages.PercentSeriesShape | zipfs.py:68-69 | For a descending table, the series starts at 100, stays within 0 to 100 and never increases |
| ZipfExample.SentenceSplits | zipfs.py:31-34 | The example sentence normalises to itself and splits into its nine words |
| ZipfExample.SentenceCounted | zipfs.py:38-40 | The example's counts are `the 3, cat 2, sat 1, on 1, mat 1, ran 1`, in first-seen order |
| ZipfExample.SentenceRanked | zipfs.py:29-43 | The example has 9 words, and its ranked table keeps the counted order, ties in first-seen order |
| ZipfExample.SentencePlotted | zipfs.py:67-69 | The example's series is `100, 67, 33, 33, 33, 33` |
| ZipfExample.PunctuationOnlyFile | zipfs.py:68 | The file `-- !` plus a newline has no words and an empty ranking, and no series |

## Left out

- The Streamlit page, the upload widget and UTF-8 decoding (zipfs.py:8-12, 26) are I/O. `Upload` takes the decoded text as a parameter.
- `smoothify` (zipfs.py:50-56) is a SciPy cubic B-spline over floats. It is floating point and a call into a library. The spline needs at least four points, so a document with one to three distinct words also stops the page there. The model does not capture this.
- The Zipfian reference curve `100 / i` (zipfs.py:62) is left out. It only feeds the spline and the plot.
- The plot, its legend and its axis labels (zipfs.py:59-78) are presentation only. `Corpus.Series` gives the values that would be plotted.
- `str.lower()` and `str.split()` are modelled on ASCII only. Non-ASCII letters are not lower-cased, and non-ASCII whitespace (U+0085, U+00A0, U+2000 and others) does not split words.
- Rounding.Percent: rounds the exact rational `100 * value / max`, not the float `value / max_value * 100`. The two can differ only when the exact value is a half-integer that the float misses; see the comment in `rounding.dfy`.
- The order in which `for text in texts` visits documents is not modelled. `ProcessAll` picks any unprocessed id. Documents do not affect each other, so the final state is the same.
- Streamlit reruns the whole script on every interaction, starting from empty dicts. The model describes one run.

## Findings

| source | as written | input that shows it | evidently intended | confidence | as-written member | corrected member |
|---|---|---|---|---|---|---|
| zipfs.py:68 | `max_value = list(textwordamounts[text].values())[0]` reads the first count of every document's ranking | An uploaded file that is empty, or holds only punctuation and whitespace (for example `-- !` plus a newline). It has no words, so its ranking is empty and the index fails with `IndexError` | Documents without words are skipped, or yield no series | not executed | Zipf.BlankUploadHasNoMaximum | Zipf.PlotSeries |
