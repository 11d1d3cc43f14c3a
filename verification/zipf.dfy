/**
 * The word-frequency pipeline of the Zipf's-law page: uploaded files are filed
 * under their stem, each text is normalised, split and counted, the counts are
 * ranked and cut to `depth` entries, and the ranked counts become percentages
 * of the largest one.
 */
module Zipf {
  import opened DocumentId
  import opened Normalisation
  import opened Tokenisation
  import opened Counting
  import opened Ranking
  import opened Percentages

  datatype Option<T> = None | Some(value: T)

  /** `depth`: the number of top-ranked words kept per document. */
  const Depth: nat := 10

  /** The words of a raw text, as the script counts them. */
  function Words(raw: string): seq<string>
  {
    Split(Normalized(raw))
  }

  /** The ranked table of a raw text. */
  function Ranked(raw: string, depth: nat): Table
  {
    Rank(Tally(Words(raw)), depth)
  }

  /**
   * What every ranked table of the script satisfies: sorted, distinct words
   * (so that `dict(...)` keeps every entry), positive counts, at most `Depth` entries.
   */
  predicate IsRanking(t: Table)
  {
    && SortedDesc(t)
    && DistinctKeys(t)
    && |t| <= Depth
    && forall i | 0 <= i < |t| :: t[i].1 > 0
  }

  /**
   * The percentage series to plot, or None for a document without words,
   * which has no largest count to divide by.
   */
  function PlotSeries(ranked: Table): (r: Option<seq<int>>)
    requires IsRanking(ranked)
    ensures r.None? <==> ranked == []
    ensures r.Some? ==> |r.value| == |ranked| && r.value[0] == 100
    ensures r.Some? ==> forall i | 0 <= i < |ranked| :: 0 <= r.value[i] <= 100
    ensures r.Some? ==> forall i, j | 0 <= i < j < |ranked| :: r.value[i] >= r.value[j]
  {
    if ranked == [] then None
    else
      PercentSeriesShape(ranked);
      Some(PercentSeries(ranked))
  }

  /**
   * The body of the processing loop for one document: normalise the text,
   * split it, record the number of words, count them, and keep the `Depth`
   * entries with the largest counts.
   */
  method ProcessDocument(raw: string) returns (text: string, wordCount: nat, ranked: Table)
    ensures text == Normalized(raw)
    ensures wordCount == |Words(raw)|
    ensures ranked == Ranked(raw, Depth) && IsRanking(ranked)
  {
    text := Normalize(raw);
    var words := Split(text);
    wordCount := |words|;
    var counts := CountWords(words);
    RankingOfWords(words, Depth);
    ranked := Rank(counts, Depth);
  }

  /** The three dictionaries of the script, keyed by document id. */
  class Corpus {
    /** `texts`: the raw text of each document, its normalised text once processed. */
    var texts: map<string, string>
    /** `textlengths`: the number of words of each processed document. */
    var textLengths: map<string, nat>
    /** `textwordamounts`: the ranked table of each processed document. */
    var textWordAmounts: map<string, Table>

    ghost predicate Valid()
      reads this
    {
      forall id | id in textWordAmounts :: IsRanking(textWordAmounts[id])
    }

    constructor ()
      ensures Valid()
      ensures texts == map[] && textLengths == map[] && textWordAmounts == map[]
    {
      texts, textLengths, textWordAmounts := map[], map[], map[];
    }

    /** Files an uploaded text under its stem; a later file with the same stem replaces the earlier text. */
    method Upload(fileName: string, content: string)
      requires Valid()
      modifies this
      ensures Valid()
      ensures texts == old(texts)[FileStem(fileName) := content]
      ensures textLengths == old(textLengths) && textWordAmounts == old(textWordAmounts)
    {
      texts := texts[FileStem(fileName) := content];
    }

    /** Document `id`, whose raw text was `raw`, has been processed. */
    ghost predicate Processed(id: string, raw: string)
      reads this
    {
      && id in texts && id in textLengths && id in textWordAmounts
      && texts[id] == Normalized(raw)
      && textLengths[id] == |Words(raw)|
      && textWordAmounts[id] == Ranked(raw, Depth)
    }

    /** The processing loop: normalise, split, count and rank every document. */
    method ProcessAll()
      requires Valid()
      modifies this
      ensures Valid()
      ensures texts.Keys == old(texts).Keys
      ensures forall id | id in texts :: Processed(id, old(texts)[id])
      ensures forall id | id in textLengths :: id in old(textLengths) || id in texts
      ensures forall id | id in textWordAmounts :: id in old(textWordAmounts) || id in texts
      ensures forall id | id in old(textLengths) ::
        id in textLengths && (id !in texts ==> textLengths[id] == old(textLengths)[id])
      ensures forall id | id in old(textWordAmounts) ::
        id in textWordAmounts && (id !in texts ==> textWordAmounts[id] == old(textWordAmounts)[id])
    {
      var todo := texts.Keys;
      while todo != {}
        invariant Valid()
        invariant todo <= texts.Keys && texts.Keys == old(texts).Keys
        invariant forall id | id in todo :: texts[id] == old(texts)[id]
        invariant forall id | id in texts && id !in todo :: Processed(id, old(texts)[id])
        invariant forall id | id in textLengths :: id in old(textLengths) || id in texts
        invariant forall id | id in textWordAmounts :: id in old(textWordAmounts) || id in texts
        invariant forall id | id in old(textLengths) ::
          id in textLengths && (id !in texts ==> textLengths[id] == old(textLengths)[id])
        invariant forall id | id in old(textWordAmounts) ::
          id in textWordAmounts && (id !in texts ==> textWordAmounts[id] == old(textWordAmounts)[id])
        decreases todo
      {
        var id :| id in todo;
        ProcessOne(id);
        todo := todo - {id};
      }
    }

    /** One pass of the processing loop, for the document `id`. */
    method ProcessOne(id: string)
      requires Valid() && id in texts
      modifies this
      ensures Valid()
      ensures texts == old(texts)[id := Normalized(old(texts)[id])]
      ensures textLengths == old(textLengths)[id := |Words(old(texts)[id])|]
      ensures textWordAmounts == old(textWordAmounts)[id := Ranked(old(texts)[id], Depth)]
    {
      var text, wordCount, ranked := ProcessDocument(texts[id]);
      texts := texts[id := text];
      textLengths := textLengths[id := wordCount];
      textWordAmounts := textWordAmounts[id := ranked];
    }

    /** The series plotted for a processed document (`y_values`), or None when it has no words. */
    function Series(id: string): (r: Option<seq<int>>)
      reads this
      requires Valid() && id in textWordAmounts
      ensures r.None? <==> textWordAmounts[id] == []
      ensures r.Some? ==> |r.value| == |textWordAmounts[id]| && r.value[0] == 100
      ensures r.Some? ==> forall i | 0 <= i < |r.value| :: 0 <= r.value[i] <= 100
    {
      PlotSeries(textWordAmounts[id])
    }
  }

  // ---------------------------------------------------------------------------
  // What the pipeline promises

  /** A ranked table of counted words is a ranking of at most `depth` entries whose counts are occurrence counts. */
  lemma RankingOfWords(words: seq<string>, depth: nat)
    requires depth <= Depth
    ensures IsRanking(Rank(Tally(words), depth))
    ensures |Rank(Tally(words), depth)| == if depth < |Dedup(words)| then depth else |Dedup(words)|
    ensures forall i | 0 <= i < |Rank(Tally(words), depth)| ::
      Rank(Tally(words), depth)[i].1 == multiset(words)[Rank(Tally(words), depth)[i].0]
  {
    var t := Tally(words);
    TallyEntries(words);
    assert |t| == |Dedup(words)| by { assert |Keys(t)| == |t|; }
    RankSorted(t, depth);
    RankDistinctKeys(t, depth);
    RankedCounts(words, depth);
  }

  lemma RankedCounts(words: seq<string>, depth: nat)
    ensures forall i | 0 <= i < |Rank(Tally(words), depth)| ::
      Rank(Tally(words), depth)[i].1 == multiset(words)[Rank(Tally(words), depth)[i].0] >= 1
  {
    var t := Tally(words);
    var r := Rank(t, depth);
    TallyEntries(words);
    RankEntries(t, depth);
    forall i | 0 <= i < |r| ensures r[i].1 == multiset(words)[r[i].0] >= 1 {
      var j :| 0 <= j < |t| && t[j] == r[i];
    }
  }

  /** The counts of a document add up to its recorded word count. */
  lemma CountsAddUpToLength(raw: string)
    ensures Sum(Tally(Words(raw))) == |Words(raw)|
  {
    TallySum(Words(raw));
  }

  /** The distinct words of `ks` that occur exactly `c` times in `words`, in the order of `ks`. */
  function SeenTimes(ks: seq<string>, words: seq<string>, c: nat): seq<string>
  {
    if ks == [] then [] else (if multiset(words)[ks[0]] == c then [ks[0]] else []) + SeenTimes(ks[1..], words, c)
  }

  lemma {:induction false} KeysOfWithCount(t: Table, words: seq<string>, c: nat)
    requires forall i | 0 <= i < |t| :: t[i].1 == multiset(words)[t[i].0]
    ensures Keys(WithCount(t, c)) == SeenTimes(Keys(t), words, c)
  {
    if t != [] {
      KeysOfWithCount(t[1..], words, c);
      var head := if t[0].1 == c then [t[0]] else [];
      WithCountConcat([t[0]], t[1..], c);
      assert t == [t[0]] + t[1..];
      KeysConcat(head, WithCount(t[1..], c));
      assert Keys(t)[1..] == Keys(t[1..]);
    }
  }

  lemma {:induction false} KeysConcat(a: Table, b: Table)
    ensures Keys(a + b) == Keys(a) + Keys(b)
  {
  }

  lemma KeysPrefix(a: Table, b: Table)
    requires a <= b
    ensures Keys(a) <= Keys(b)
  {
  }

  /**
   * Ties are ranked in first-seen order: the ranked words that occur `c` times
   * are the first of the text's distinct words that occur `c` times, in the
   * order in which the text first uses them.
   */
  lemma RankedTiesInFirstSeenOrder(raw: string, depth: nat, c: nat)
    ensures Keys(WithCount(Ranked(raw, depth), c)) <= SeenTimes(Dedup(Words(raw)), Words(raw), c)
  {
    var words := Words(raw);
    var t := Tally(words);
    TallyEntries(words);
    RankStable(t, depth, c);
    KeysPrefix(WithCount(Rank(t, depth), c), WithCount(t, c));
    KeysOfWithCount(t, words, c);
  }

  /** A document with at least one word has a non-empty ranking, so its percentages are defined. */
  lemma RankedNonEmpty(raw: string, depth: nat)
    requires 0 < depth <= Depth && Words(raw) != []
    ensures Ranked(raw, depth) != [] && IsRanking(Ranked(raw, depth))
  {
    var words := Words(raw);
    RankingOfWords(words, depth);
    DedupMembers(words);
    assert words[0] in Dedup(words);
  }

  /**
   * The script as written reads `list(...)[0]` of every document's ranking.
   * A file made only of punctuation and whitespace, the empty file among them,
   * yields no words and an empty ranking, so that read fails.
   */
  lemma BlankUploadHasNoMaximum(raw: string)
    requires forall k | 0 <= k < |raw| :: raw[k] in Punctuation || IsSpace(raw[k])
    ensures Words(raw) == [] && Ranked(raw, Depth) == []
  {
    BlankNormalizesToBlank(raw);
    SplitEmptyIffBlank(Normalized(raw));
  }

  lemma {:induction false} BlankNormalizesToBlank(raw: string)
    requires forall k | 0 <= k < |raw| :: raw[k] in Punctuation || IsSpace(raw[k])
    ensures forall k | 0 <= k < |Normalized(raw)| :: IsSpace(Normalized(raw)[k])
  {
    if raw != [] {
      BlankNormalizesToBlank(raw[1..]);
      assert raw == [raw[0]] + raw[1..];
      NormalizedConcat([raw[0]], raw[1..]);
      NormalizedChar(raw[0]);
    }
  }
}
