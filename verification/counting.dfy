/**
 * Word counting: a Python dict from word to count, updated with
 * `d[word] = d.get(word, 0) + 1` for every token. The dict is modelled as a
 * sequence of (word, count) entries in insertion order, which is the order a
 * Python dict iterates in.
 */
module Counting {

  /** One dict item: a word and its count. */
  type Entry = (string, nat)

  /** A dict from words to counts, in insertion order. */
  type Table = seq<Entry>

  /** The keys of a table, in order. */
  function Keys(t: Table): (ks: seq<string>)
    ensures |ks| == |t|
    ensures forall i | 0 <= i < |t| :: ks[i] == t[i].0
  {
    if t == [] then [] else [t[0].0] + Keys(t[1..])
  }

  predicate Distinct(ks: seq<string>)
  {
    forall i, j | 0 <= i < j < |ks| :: ks[i] != ks[j]
  }

  /** No word is the key of two entries. */
  predicate DistinctKeys(t: Table)
  {
    forall i, j | 0 <= i < j < |t| :: t[i].0 != t[j].0
  }

  /** `t.get(k, 0)`: a non-zero reading is the count of an entry with key `k`. */
  function Get(t: Table, k: string): (v: nat)
    ensures v != 0 ==> exists i | 0 <= i < |t| :: t[i] == (k, v)
  {
    if t == [] then 0 else if t[0].0 == k then t[0].1 else Get(t[1..], k)
  }

  /** `t[k] = v`: an existing key keeps its place and takes the new value; a new key goes at the end. */
  function Put(t: Table, k: string, v: nat): (r: Table)
    ensures |t| <= |r| <= |t| + 1
  {
    if t == [] then [(k, v)]
    else if t[0].0 == k then [(k, v)] + t[1..]
    else [t[0]] + Put(t[1..], k, v)
  }

  /** The sum of the counts of a table. */
  function Sum(t: Table): nat
  {
    if t == [] then 0 else t[0].1 + Sum(t[1..])
  }

  /** The table after counting every word of `words`, in order: never more entries than words. */
  function Tally(words: seq<string>): (t: Table)
    ensures |t| <= |words|
  {
    if words == [] then []
    else
      var t := Tally(words[..|words| - 1]);
      var w := words[|words| - 1];
      Put(t, w, Get(t, w) + 1)
  }

  /** The distinct words of `words`, each at the place where it is first seen. */
  function Dedup(words: seq<string>): seq<string>
  {
    if words == [] then []
    else
      var prefix := words[..|words| - 1];
      var w := words[|words| - 1];
      if w in prefix then Dedup(prefix) else Dedup(prefix) + [w]
  }

  /** The position of the first occurrence of `w`. */
  function FirstIndex(words: seq<string>, w: string): (i: nat)
    requires w in words
    ensures i < |words| && words[i] == w && w !in words[..i]
  {
    if words[0] == w then 0
    else
      assert w in words[1..] by { var j :| 0 <= j < |words| && words[j] == w; assert words[1..][j - 1] == w; }
      1 + FirstIndex(words[1..], w)
  }

  /** The counting loop of the script. */
  method CountWords(words: seq<string>) returns (table: Table)
    ensures table == Tally(words)
  {
    table := [];
    for i := 0 to |words|
      invariant table == Tally(words[..i])
    {
      assert words[..i + 1][..i] == words[..i];
      table := Put(table, words[i], Get(table, words[i]) + 1);
    }
    assert words[..|words|] == words;
  }

  // ---------------------------------------------------------------------------
  // Dict operations

  /** Reading back after a write: the written key has the new value, every other key keeps its old one. */
  lemma {:induction false} GetPut(t: Table, k: string, v: nat, j: string)
    ensures Get(Put(t, k, v), j) == if j == k then v else Get(t, j)
  {
    if t != [] && t[0].0 != k {
      GetPut(t[1..], k, v, j);
    }
  }

  /** A write keeps the key order, and appends a key that was absent. */
  lemma {:induction false} KeysPut(t: Table, k: string, v: nat)
    ensures Keys(Put(t, k, v)) == if k in Keys(t) then Keys(t) else Keys(t) + [k]
  {
    if t == [] {
      assert Keys([(k, v)]) == [k];
    } else {
      var u := Put(t, k, v);
      assert Keys(t) == [t[0].0] + Keys(t[1..]);
      assert Keys(u) == [u[0].0] + Keys(u[1..]);
      if t[0].0 == k {
        assert u[1..] == t[1..];
      } else {
        KeysPut(t[1..], k, v);
        assert u[1..] == Put(t[1..], k, v);
        assert k in Keys(t) <==> k in Keys(t[1..]);
      }
    }
  }

  /** Writing a new key appends it. */
  lemma {:induction false} PutNewKey(t: Table, k: string, v: nat)
    requires k !in Keys(t)
    ensures Put(t, k, v) == t + [(k, v)]
  {
    if t != [] {
      assert Keys(t) == [t[0].0] + Keys(t[1..]);
      PutNewKey(t[1..], k, v);
      assert t == [t[0]] + t[1..];
    }
  }

  /** Writing the key of entry `i`, in a table with distinct keys, replaces that entry's value in place. */
  lemma PutExistingKey(t: Table, i: nat, v: nat)
    requires DistinctKeys(t) && i < |t|
    ensures Put(t, t[i].0, v) == t[i := (t[i].0, v)]
  {
    PutExistingKeyAt(t, i, v);
  }

  lemma {:induction false} PutExistingKeyAt(t: Table, i: nat, v: nat)
    requires DistinctKeys(t) && i < |t|
    ensures |Put(t, t[i].0, v)| == |t| && Put(t, t[i].0, v)[i] == (t[i].0, v)
    ensures forall j | 0 <= j < |t| && j != i :: Put(t, t[i].0, v)[j] == t[j]
  {
    if i > 0 {
      assert t[0].0 != t[i].0;
      DistinctTail(t);
      PutExistingKeyAt(t[1..], i - 1, v);
      var rest := Put(t[1..], t[i].0, v);
      assert Put(t, t[i].0, v) == [t[0]] + rest;
    }
  }

  lemma DistinctTail(t: Table)
    requires t != [] && DistinctKeys(t)
    ensures DistinctKeys(t[1..])
  {
    forall p, q | 0 <= p < q < |t| - 1 ensures t[1..][p].0 != t[1..][q].0 {
      assert t[p + 1].0 != t[q + 1].0;
    }
  }

  /** A write changes the total by the difference between the new and the old value. */
  lemma {:induction false} SumPut(t: Table, k: string, v: nat)
    ensures Sum(Put(t, k, v)) + Get(t, k) == Sum(t) + v
  {
    if t != [] && t[0].0 != k {
      SumPut(t[1..], k, v);
    }
  }

  /** In a table with distinct keys, looking up an entry's key finds that entry's count. */
  lemma {:induction false} GetEntry(t: Table, i: nat)
    requires DistinctKeys(t) && i < |t|
    ensures Get(t, t[i].0) == t[i].1
  {
    if i > 0 {
      assert t[0].0 != t[i].0;
      DistinctTail(t);
      GetEntry(t[1..], i - 1);
    }
  }

  // ---------------------------------------------------------------------------
  // What counting promises

  lemma DedupAppend(words: seq<string>, w: string)
    ensures Dedup(words + [w]) == if w in words then Dedup(words) else Dedup(words) + [w]
  {
    assert (words + [w])[..|words|] == words;
  }

  /** The counted table's keys are the distinct words in first-seen order. */
  lemma {:induction false} TallyKeys(words: seq<string>)
    ensures Keys(Tally(words)) == Dedup(words)
  {
    if words != [] {
      var prefix, w := words[..|words| - 1], words[|words| - 1];
      var t := Tally(prefix);
      TallyKeys(prefix);
      DedupMembers(prefix);
      var u := Put(t, w, Get(t, w) + 1);
      KeysPut(t, w, Get(t, w) + 1);
      assert Tally(words) == u;
      assert w in Keys(t) <==> w in prefix;
      if w in prefix {
        assert Keys(u) == Keys(t) && Dedup(words) == Dedup(prefix);
      } else {
        assert Keys(u) == Keys(t) + [w] && Dedup(words) == Dedup(prefix) + [w];
      }
    }
  }

  /** Dedup keeps exactly the words of the text. */
  lemma {:induction false} DedupMembers(words: seq<string>)
    ensures forall w :: w in Dedup(words) <==> w in words
  {
    if words != [] {
      var prefix, w := words[..|words| - 1], words[|words| - 1];
      DedupMembers(prefix);
      assert words == prefix + [w];
    }
  }

  /** Dedup lists no word twice. */
  lemma {:induction false} DedupDistinct(words: seq<string>)
    ensures Distinct(Dedup(words))
  {
    if words != [] {
      var prefix := words[..|words| - 1];
      DedupDistinct(prefix);
      DedupMembers(prefix);
    }
  }

  /** Dedup lists the words in the order of their first occurrence. */
  lemma {:induction false} DedupFirstSeen(words: seq<string>)
    ensures forall p, q | 0 <= p < q < |Dedup(words)| ::
      Dedup(words)[p] in words && Dedup(words)[q] in words &&
      FirstIndex(words, Dedup(words)[p]) < FirstIndex(words, Dedup(words)[q])
  {
    if words != [] {
      var prefix, w := words[..|words| - 1], words[|words| - 1];
      DedupFirstSeen(prefix);
      DedupMembers(prefix);
      DedupMembers(words);
      assert words == prefix + [w];
      var d := Dedup(words);
      forall p, q | 0 <= p < q < |d|
        ensures FirstIndex(words, d[p]) < FirstIndex(words, d[q])
      {
        FirstIndexExtend(prefix, w, d[p]);
        if q < |Dedup(prefix)| {
          FirstIndexExtend(prefix, w, d[q]);
        } else {
          assert d[q] == w && w !in prefix;
          assert FirstIndex(words, w) == |prefix| by {
            var i := FirstIndex(words, w);
            assert words[..|prefix|] == prefix;
          }
        }
      }
    }
  }

  /** Appending a word does not move the first occurrence of a word already present. */
  lemma FirstIndexExtend(prefix: seq<string>, w: string, x: string)
    requires x in prefix
    ensures x in prefix + [w] && FirstIndex(prefix + [w], x) == FirstIndex(prefix, x)
  {
    var words := prefix + [w];
    var i, j := FirstIndex(words, x), FirstIndex(prefix, x);
    assert words[j] == x;
    assert forall m | 0 <= m < j :: words[m] == prefix[..j][m] != x;
    assert forall m | 0 <= m < i :: words[..i][m] != x;
  }

  lemma MultisetOfLast(words: seq<string>)
    requires words != []
    ensures multiset(words) == multiset(words[..|words| - 1]) + multiset{words[|words| - 1]}
  {
    assert words == words[..|words| - 1] + [words[|words| - 1]];
  }

  /** Each word's count in the table is its number of occurrences in the text; an absent word reads 0. */
  lemma {:induction false} TallyGet(words: seq<string>, k: string)
    ensures Get(Tally(words), k) == multiset(words)[k]
  {
    if words != [] {
      var prefix, w := words[..|words| - 1], words[|words| - 1];
      TallyGet(prefix, k);
      TallyGet(prefix, w);
      GetPut(Tally(prefix), w, Get(Tally(prefix), w) + 1, k);
      MultisetOfLast(words);
    }
  }

  /** The counts of the table add up to the number of words counted. */
  lemma {:induction false} TallySum(words: seq<string>)
    ensures Sum(Tally(words)) == |words|
  {
    if words != [] {
      var prefix, w := words[..|words| - 1], words[|words| - 1];
      TallySum(prefix);
      SumPut(Tally(prefix), w, Get(Tally(prefix), w) + 1);
    }
  }

  /**
   * The counted table as a whole: every distinct word is a key exactly once,
   * in first-seen order, and its count is its number of occurrences, at least 1.
   */
  lemma TallyEntries(words: seq<string>)
    ensures Keys(Tally(words)) == Dedup(words) && DistinctKeys(Tally(words))
    ensures forall w :: w in Keys(Tally(words)) <==> w in words
    ensures forall i | 0 <= i < |Tally(words)| ::
      Tally(words)[i].1 == multiset(words)[Tally(words)[i].0] >= 1
  {
    var t := Tally(words);
    TallyKeys(words);
    DedupDistinct(words);
    DedupMembers(words);
    TallyDistinct(words);
    forall i | 0 <= i < |t| ensures t[i].1 == multiset(words)[t[i].0] >= 1 {
      GetEntry(t, i);
      TallyGet(words, t[i].0);
      assert Keys(t)[i] == t[i].0;
    }
  }

  /** No word is counted under two entries. */
  lemma TallyDistinct(words: seq<string>)
    ensures DistinctKeys(Tally(words))
  {
    var t := Tally(words);
    TallyKeys(words);
    DedupDistinct(words);
    forall i, j | 0 <= i < j < |t| ensures t[i].0 != t[j].0 {
      assert Keys(t)[i] == t[i].0 && Keys(t)[j] == t[j].0;
    }
  }

  /** Counting one more word is one more write. */
  lemma TallyAppend(words: seq<string>, w: string)
    ensures Tally(words + [w]) == Put(Tally(words), w, Get(Tally(words), w) + 1)
  {
    var ws := words + [w];
    assert ws[..|ws| - 1] == words && ws[|ws| - 1] == w;
  }

  /** Counting a word not seen before appends it with count 1. */
  lemma TallyNewWord(words: seq<string>, w: string)
    requires w !in words
    ensures Tally(words + [w]) == Tally(words) + [(w, 1)]
  {
    var t := Tally(words);
    TallyAppend(words, w);
    TallyGet(words, w);
    assert Get(t, w) == 0;
    TallyKeys(words);
    DedupMembers(words);
    assert w !in Keys(t);
    PutNewKey(t, w, 1);
  }

  /** Counting a word seen before adds one to its entry, which keeps its place. */
  lemma TallySeenWord(words: seq<string>, w: string, i: nat)
    requires i < |Tally(words)| && Tally(words)[i].0 == w
    ensures Tally(words + [w]) == Tally(words)[i := (w, Tally(words)[i].1 + 1)]
  {
    var t := Tally(words);
    TallyDistinct(words);
    GetEntry(t, i);
    TallyAppend(words, w);
    PutExistingKey(t, i, t[i].1 + 1);
  }
}
