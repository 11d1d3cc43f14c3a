/** The pipeline on one sentence, worked through to the end. */
module ZipfExample {
  import opened Normalisation
  import opened Tokenisation
  import opened Counting
  import opened Ranking
  import opened Percentages
  import opened Zipf

  const SentenceWords: seq<string> := ["the", "cat", "sat", "on", "the", "mat", "the", "cat", "ran"]
  /** The nine words joined by single spaces, which reads "the cat sat on the mat the cat ran". */
  const Sentence: string := Join(SentenceWords)
  const SentenceTable: Table := [("the", 3), ("cat", 2), ("sat", 1), ("on", 1), ("mat", 1), ("ran", 1)]

  /** Joining words made of lower-case letters gives a text of lower-case letters and spaces. */
  lemma {:induction false} JoinLowerWords(ws: seq<string>)
    requires forall i, k | 0 <= i < |ws| && 0 <= k < |ws[i]| :: IsLowerLetter(ws[i][k])
    ensures forall k | 0 <= k < |Join(ws)| :: Join(ws)[k] == ' ' || IsLowerLetter(Join(ws)[k])
  {
    if |ws| > 1 {
      forall i, k | 0 <= i < |ws[1..]| && 0 <= k < |ws[1..][i]| ensures IsLowerLetter(ws[1..][i][k]) {
        assert ws[1..][i] == ws[i + 1];
      }
      JoinLowerWords(ws[1..]);
      var j := Join(ws);
      forall k | 0 <= k < |j| ensures j[k] == ' ' || IsLowerLetter(j[k]) {
        if k < |ws[0]| {
          assert j[k] == ws[0][k];
        } else if k > |ws[0]| {
          assert j[k] == Join(ws[1..])[k - |ws[0]| - 1];
        }
      }
    }
  }

  lemma SentenceIsClean()
    ensures forall k | 0 <= k < |Sentence| :: Sentence[k] !in Punctuation && !IsUpper(Sentence[k])
  {
    JoinLowerWords(SentenceWords);
    forall k | 0 <= k < |Sentence| ensures Sentence[k] !in Punctuation {
      if Sentence[k] in Punctuation {
        PunctuationIsNotALetter(Sentence[k]);
      }
    }
  }

  lemma SentenceWordsAreTokens()
    ensures forall i | 0 <= i < |SentenceWords| :: IsToken(SentenceWords[i])
  {
  }

  lemma SentenceSplits()
    ensures Words(Sentence) == SentenceWords
  {
    SentenceIsClean();
    NormalizedFixesCleanText(Sentence);
    SentenceWordsAreTokens();
    SplitJoin(SentenceWords);
  }

  lemma SentenceFirstFourCounted()
    ensures Tally(SentenceWords[..4]) == [("the", 1), ("cat", 1), ("sat", 1), ("on", 1)]
  {
    var ws := SentenceWords;
    assert Tally(ws[..1]) == [("the", 1)] by {
      assert ws[..1] == [] + ["the"];
      TallyNewWord([], "the");
    }
    assert Tally(ws[..2]) == [("the", 1), ("cat", 1)] by {
      assert ws[..2] == ws[..1] + ["cat"];
      TallyNewWord(ws[..1], "cat");
    }
    assert Tally(ws[..3]) == [("the", 1), ("cat", 1), ("sat", 1)] by {
      assert ws[..3] == ws[..2] + ["sat"];
      TallyNewWord(ws[..2], "sat");
    }
    assert ws[..4] == ws[..3] + ["on"];
    TallyNewWord(ws[..3], "on");
  }

  lemma SentenceFirstSixCounted()
    ensures Tally(SentenceWords[..6]) == [("the", 2), ("cat", 1), ("sat", 1), ("on", 1), ("mat", 1)]
  {
    var ws := SentenceWords;
    SentenceFirstFourCounted();
    assert Tally(ws[..5]) == [("the", 2), ("cat", 1), ("sat", 1), ("on", 1)] by {
      assert ws[..5] == ws[..4] + ["the"];
      TallySeenWord(ws[..4], "the", 0);
    }
    assert ws[..6] == ws[..5] + ["mat"];
    TallyNewWord(ws[..5], "mat");
  }

  lemma SentenceFirstEightCounted()
    ensures Tally(SentenceWords[..8]) == [("the", 3), ("cat", 2), ("sat", 1), ("on", 1), ("mat", 1)]
  {
    var ws := SentenceWords;
    SentenceFirstSixCounted();
    assert Tally(ws[..7]) == [("the", 3), ("cat", 1), ("sat", 1), ("on", 1), ("mat", 1)] by {
      assert ws[..7] == ws[..6] + ["the"];
      TallySeenWord(ws[..6], "the", 0);
    }
    assert ws[..8] == ws[..7] + ["cat"];
    TallySeenWord(ws[..7], "cat", 1);
  }

  lemma SentenceCounted()
    ensures Tally(SentenceWords) == SentenceTable
  {
    var ws := SentenceWords;
    SentenceFirstEightCounted();
    assert ws == ws[..8] + ["ran"];
    TallyNewWord(ws[..8], "ran");
  }

  /**
   * "the cat sat on the mat the cat ran": nine words; "the" 3 times, "cat" twice,
   * then the four single words in first-seen order; percentages 100, 67, 33, 33, 33, 33.
   */
  lemma SentenceRanked()
    ensures |Words(Sentence)| == 9
    ensures Ranked(Sentence, Depth) == SentenceTable
  {
    SentenceSplits();
    SentenceCounted();
    SentenceTableSorted();
  }

  lemma SentencePlotted()
    ensures IsRanking(SentenceTable)
    ensures PlotSeries(SentenceTable) == Some([100, 67, 33, 33, 33, 33])
  {
    assert SortedDesc(SentenceTable);
    SentencePercentages();
  }

  lemma SentenceTableSorted()
    ensures Rank(SentenceTable, Depth) == SentenceTable
  {
    assert SortedDesc(SentenceTable);
    SortByCountOfSorted(SentenceTable);
  }

  lemma SentencePercentages()
    ensures PercentSeries(SentenceTable) == [100, 67, 33, 33, 33, 33]
  {
  }

  /** A file holding only "-- !\n" has no words, so the script has no largest count to read for it. */
  lemma PunctuationOnlyFile()
    ensures Words("-- !\n") == [] && Ranked("-- !\n", Depth) == []
    ensures PlotSeries(Ranked("-- !\n", Depth)) == None
  {
    var raw := "-- !\n";
    assert forall k | 0 <= k < |raw| :: raw[k] in Punctuation || IsSpace(raw[k]);
    BlankUploadHasNoMaximum(raw);
  }
}
