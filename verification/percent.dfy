/** The percentage series of a ranked table: every count relative to the first, largest one. */
module Percentages {
  import opened Counting
  import opened Ranking
  import opened Rounding

  /** `[percentify(v, max) for v in counts]` where `max` is the first count. */
  function PercentSeries(ranked: Table): (ps: seq<int>)
    requires |ranked| > 0 && ranked[0].1 > 0
    ensures |ps| == |ranked|
  {
    seq(|ranked|, i requires 0 <= i < |ranked| => Percent(ranked[i].1, ranked[0].1))
  }

  /**
   * For a table ranked by descending count, the series starts at 100, stays
   * within 0 to 100 and never increases.
   */
  lemma PercentSeriesShape(ranked: Table)
    requires |ranked| > 0 && ranked[0].1 > 0 && SortedDesc(ranked)
    ensures PercentSeries(ranked)[0] == 100
    ensures forall i | 0 <= i < |ranked| :: 0 <= PercentSeries(ranked)[i] <= 100
    ensures forall i, j | 0 <= i < j < |ranked| :: PercentSeries(ranked)[i] >= PercentSeries(ranked)[j]
  {
    var max := ranked[0].1;
    var ps := PercentSeries(ranked);
    PercentBounds(max, max);
    forall i | 0 <= i < |ranked| ensures 0 <= ps[i] <= 100 {
      PercentBounds(ranked[i].1, max);
    }
    forall i, j | 0 <= i < j < |ranked| ensures ps[i] >= ps[j] {
      PercentMonotone(ranked[j].1, ranked[i].1, max);
    }
  }
}
