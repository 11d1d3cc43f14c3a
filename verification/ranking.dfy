/**
 * Ranking: `sorted(items, key=count, reverse=True)[:depth]`. Python's sort is
 * stable, also with `reverse=True`, so entries with equal counts keep the order
 * they had in the counted table. The sort is modelled as an insertion sort
 * that places each entry before every later entry whose count is not larger.
 */
module Ranking {
  import opened Counting

  /** Counts never increase along the table. */
  predicate SortedDesc(t: Table)
  {
    forall i, j | 0 <= i < j < |t| :: t[i].1 >= t[j].1
  }

  /** Places `x` in front of the first entry whose count is at most `x`'s count. */
  function Insert(x: Entry, t: Table): (r: Table)
    ensures multiset(r) == multiset(t) + multiset{x}
  {
    if t == [] || t[0].1 <= x.1 then [x] + t
    else
      assert t == [t[0]] + t[1..];
      [t[0]] + Insert(x, t[1..])
  }

  /** Insertion keeps a sorted table sorted. */
  lemma {:induction false} InsertSorted(x: Entry, t: Table)
    requires SortedDesc(t)
    ensures SortedDesc(Insert(x, t))
  {
    if t != [] && t[0].1 > x.1 {
      var rest := Insert(x, t[1..]);
      InsertSorted(x, t[1..]);
      forall k | 0 <= k < |rest| ensures rest[k].1 <= t[0].1 {
        assert rest[k] in multiset(rest);
        if rest[k] != x {
          assert rest[k] in multiset(t[1..]);
          var m :| 0 <= m < |t[1..]| && t[1..][m] == rest[k];
          assert t[m + 1] == rest[k];
        }
      }
    }
  }

  /** `sorted(t, key=lambda e: e[1], reverse=True)`. */
  function SortByCount(t: Table): (r: Table)
    ensures multiset(r) == multiset(t) && |r| == |t|
    ensures SortedDesc(r)
  {
    if t == [] then []
    else
      assert t == [t[0]] + t[1..];
      InsertSorted(t[0], SortByCount(t[1..]));
      Insert(t[0], SortByCount(t[1..]))
  }

  /** `sorted(...)[:depth]`: the `depth` entries with the largest counts, or all of them when there are fewer. */
  function Rank(t: Table, depth: nat): (r: Table)
    ensures |r| == if depth < |t| then depth else |t|
  {
    var s := SortByCount(t);
    if depth < |s| then s[..depth] else s
  }

  /** The entries of `t` whose count is `c`, in their order in `t`. */
  function WithCount(t: Table, c: nat): Table
  {
    if t == [] then [] else (if t[0].1 == c then [t[0]] else []) + WithCount(t[1..], c)
  }

  // ---------------------------------------------------------------------------

  lemma {:induction false} WithCountConcat(a: Table, b: Table, c: nat)
    ensures WithCount(a + b, c) == WithCount(a, c) + WithCount(b, c)
  {
    if a == [] {
      assert a + b == b;
    } else {
      var head := if a[0].1 == c then [a[0]] else [];
      assert (a + b)[0] == a[0] && (a + b)[1..] == a[1..] + b;
      assert WithCount(a + b, c) == head + WithCount(a[1..] + b, c);
      WithCountConcat(a[1..], b, c);
      assert WithCount(a, c) == head + WithCount(a[1..], c);
    }
  }

  /** Inserting `x` leaves the entries of every other count in place and puts `x` first among its equals. */
  lemma {:induction false} InsertWithCount(x: Entry, t: Table, c: nat)
    ensures WithCount(Insert(x, t), c) == if x.1 == c then [x] + WithCount(t, c) else WithCount(t, c)
  {
    if t == [] || t[0].1 <= x.1 {
      assert Insert(x, t) == [x] + t;
      WithCountConcat([x], t, c);
    } else {
      InsertWithCount(x, t[1..], c);
      WithCountConcat([t[0]], Insert(x, t[1..]), c);
      WithCountConcat([t[0]], t[1..], c);
      assert t == [t[0]] + t[1..];
    }
  }

  /** The sort is stable: for every count, the entries with that count keep their relative order. */
  lemma {:induction false} SortByCountStable(t: Table, c: nat)
    ensures WithCount(SortByCount(t), c) == WithCount(t, c)
  {
    if t != [] {
      SortByCountStable(t[1..], c);
      InsertWithCount(t[0], SortByCount(t[1..]), c);
      WithCountConcat([t[0]], t[1..], c);
      assert t == [t[0]] + t[1..];
    }
  }

  /** Sorting a table that is already sorted changes nothing. */
  lemma {:induction false} SortByCountOfSorted(t: Table)
    requires SortedDesc(t)
    ensures SortByCount(t) == t
  {
    if t != [] {
      SortByCountOfSorted(t[1..]);
    }
  }

  /** Inserting an entry with a new key keeps the keys distinct, and adds exactly that key. */
  lemma {:induction false} InsertKeys(x: Entry, t: Table)
    requires DistinctKeys(t) && x.0 !in Keys(t)
    ensures DistinctKeys(Insert(x, t))
    ensures forall k :: k in Keys(Insert(x, t)) <==> k == x.0 || k in Keys(t)
  {
    if t == [] || t[0].1 <= x.1 {
      assert Keys(Insert(x, t)) == [x.0] + Keys(t);
      PrependKey(x, t);
    } else {
      DistinctTail(t);
      HeadNotInTail(t);
      assert Keys(t) == [t[0].0] + Keys(t[1..]);
      InsertKeys(x, t[1..]);
      var rest := Insert(x, t[1..]);
      assert Keys([t[0]] + rest) == [t[0].0] + Keys(rest);
      PrependKey(t[0], rest);
    }
  }

  lemma PrependKey(e: Entry, t: Table)
    requires DistinctKeys(t) && e.0 !in Keys(t)
    ensures DistinctKeys([e] + t)
  {
    var r := [e] + t;
    forall i, j | 0 <= i < j < |r| ensures r[i].0 != r[j].0 {
      assert r[j] == t[j - 1] && Keys(t)[j - 1] == t[j - 1].0;
      if i > 0 {
        assert r[i] == t[i - 1];
      }
    }
  }

  lemma HeadNotInTail(t: Table)
    requires t != [] && DistinctKeys(t)
    ensures t[0].0 !in Keys(t[1..])
  {
    forall i | 0 <= i < |t| - 1 ensures Keys(t[1..])[i] != t[0].0 {
      assert Keys(t[1..])[i] == t[i + 1].0;
    }
  }

  /** Sorting keeps the keys distinct and keeps the same keys. */
  lemma {:induction false} SortByCountKeys(t: Table)
    requires DistinctKeys(t)
    ensures DistinctKeys(SortByCount(t))
    ensures forall k :: k in Keys(SortByCount(t)) <==> k in Keys(t)
  {
    if t != [] {
      assert Keys(t) == [t[0].0] + Keys(t[1..]);
      DistinctTail(t);
      SortByCountKeys(t[1..]);
      HeadNotInTail(t);
      InsertKeys(t[0], SortByCount(t[1..]));
    }
  }

  /**
   * A table with distinct keys ranks to a table with distinct keys, so turning
   * the ranked items back into a dict keeps every one of them, in order.
   */
  lemma RankDistinctKeys(t: Table, depth: nat)
    requires DistinctKeys(t)
    ensures DistinctKeys(Rank(t, depth))
  {
    SortByCountKeys(t);
  }

  /** The ranked table is sorted by descending count. */
  lemma RankSorted(t: Table, depth: nat)
    ensures SortedDesc(Rank(t, depth))
  {
  }

  /**
   * The ranked table is a part of the counted table (a sub-multiset, and all of
   * it when there are at most `depth` entries), and every entry it keeps has a
   * count at least as large as every entry it drops.
   */
  lemma RankKeepsLargest(t: Table, depth: nat)
    ensures multiset(Rank(t, depth)) <= multiset(t)
    ensures |t| <= depth ==> multiset(Rank(t, depth)) == multiset(t)
    ensures forall p: Entry, q: Entry | p in multiset(Rank(t, depth)) && q in multiset(t) - multiset(Rank(t, depth)) ::
      p.1 >= q.1
  {
    var s := SortByCount(t);
    var r := Rank(t, depth);
    var n := |r|;
    assert s == s[..n] + s[n..];
    assert r == s[..n];
    var dropped := s[n..];
    assert multiset(t) == multiset(r) + multiset(dropped);
    assert multiset(t) - multiset(r) == multiset(dropped);
    forall p: Entry, q: Entry | p in multiset(r) && q in multiset(dropped) ensures p.1 >= q.1 {
      var i :| 0 <= i < n && r[i] == p;
      var j :| 0 <= j < |dropped| && dropped[j] == q;
      assert s[i] == p && s[n + j] == q;
    }
  }

  /** Every entry of the ranked table is an entry of the counted table. */
  lemma RankEntries(t: Table, depth: nat)
    ensures forall i | 0 <= i < |Rank(t, depth)| :: Rank(t, depth)[i] in t
  {
    var r := Rank(t, depth);
    RankKeepsLargest(t, depth);
    forall i | 0 <= i < |r| ensures r[i] in t {
      assert r[i] in multiset(r);
    }
  }

  /**
   * Ranking is stable: the kept entries with a given count are the first entries
   * of the counted table with that count, in the counted table's order.
   */
  lemma RankStable(t: Table, depth: nat, c: nat)
    ensures WithCount(Rank(t, depth), c) <= WithCount(t, c)
  {
    var s := SortByCount(t);
    var n := |Rank(t, depth)|;
    assert s == s[..n] + s[n..];
    WithCountConcat(s[..n], s[n..], c);
    SortByCountStable(t, c);
  }
}
