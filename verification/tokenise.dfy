/**
 * Tokenisation: Python's `str.split()` with no separator, over ASCII text.
 * Runs of whitespace separate tokens and empty tokens are never produced.
 */
module Tokenisation {

  /**
   * The ASCII characters for which Python's `str.isspace()` holds: space, tab,
   * line feed, vertical tab, form feed, carriage return and the four
   * information separators U+001C to U+001F.
   */
  predicate IsSpace(c: char)
  {
    c == ' ' || c == '\t' || c == '\n' || c == '\r' || c == '\U{000B}' || c == '\U{000C}'
    || ('\U{001C}' <= c <= '\U{001F}')
  }

  /** A token as `split()` yields it: non-empty, and free of whitespace. */
  predicate IsToken(w: string)
  {
    |w| > 0 && forall k | 0 <= k < |w| :: !IsSpace(w[k])
  }

  /** Splitting the rest of a text when `current` is the token read so far. */
  function SplitFrom(s: string, current: string): seq<string>
    decreases |s|
  {
    if s == [] then
      (if current == [] then [] else [current])
    else if IsSpace(s[0]) then
      (if current == [] then [] else [current]) + SplitFrom(s[1..], [])
    else
      SplitFrom(s[1..], current + [s[0]])
  }

  /**
   * `s.split()`: every token is non-empty and free of whitespace, and the
   * tokens, read one after another, are exactly the text's non-whitespace
   * characters. Where the text is cut is fixed by `SplitAtSpace` and `SplitOfToken`.
   */
  function Split(s: string): (ws: seq<string>)
    ensures forall i | 0 <= i < |ws| :: IsToken(ws[i])
    ensures Concat(ws) == NonSpace(s)
  {
    SplitFromTokens(s, []);
    SplitFromContent(s, []);
    assert [] + NonSpace(s) == NonSpace(s);
    SplitFrom(s, [])
  }

  /** The characters of `s` that are not whitespace, in order. */
  function NonSpace(s: string): string
  {
    if s == [] then [] else (if IsSpace(s[0]) then [] else [s[0]]) + NonSpace(s[1..])
  }

  function Concat(ws: seq<string>): string
  {
    if ws == [] then [] else ws[0] + Concat(ws[1..])
  }

  /** `" ".join(ws)`. */
  function Join(ws: seq<string>): string
  {
    if ws == [] then [] else if |ws| == 1 then ws[0] else ws[0] + [' '] + Join(ws[1..])
  }

  // ---------------------------------------------------------------------------

  lemma {:induction false} SplitFromTokens(s: string, current: string)
    requires forall k | 0 <= k < |current| :: !IsSpace(current[k])
    ensures forall i | 0 <= i < |SplitFrom(s, current)| :: IsToken(SplitFrom(s, current)[i])
    decreases |s|
  {
    if s != [] {
      if IsSpace(s[0]) {
        SplitFromTokens(s[1..], []);
      } else {
        SplitFromTokens(s[1..], current + [s[0]]);
      }
    }
  }

  lemma {:induction false} ConcatAppend(ws: seq<string>, w: string)
    ensures Concat(ws + [w]) == Concat(ws) + w
  {
    if ws != [] {
      assert (ws + [w])[1..] == ws[1..] + [w];
      ConcatAppend(ws[1..], w);
    } else {
      assert ws + [w] == [w];
    }
  }

  lemma {:induction false} SplitFromContent(s: string, current: string)
    ensures Concat(SplitFrom(s, current)) == current + NonSpace(s)
    decreases |s|
  {
    if s == [] {
      assert current + [] == current;
    } else if IsSpace(s[0]) {
      SplitFromContent(s[1..], []);
      assert [] + NonSpace(s[1..]) == NonSpace(s[1..]);
      assert NonSpace(s) == NonSpace(s[1..]);
      var rest := SplitFrom(s[1..], []);
      if current != [] {
        var ws := [current] + rest;
        assert ws[0] == current && ws[1..] == rest;
        assert Concat(ws) == current + Concat(rest);
      } else {
        assert [] + rest == rest;
      }
    } else {
      SplitFromContent(s[1..], current + [s[0]]);
      assert current + NonSpace(s) == current + [s[0]] + NonSpace(s[1..]);
    }
  }

  /** Reading a whitespace-free stretch extends the current token. */
  lemma {:induction false} SplitFromToken(w: string, t: string, current: string)
    requires forall k | 0 <= k < |w| :: !IsSpace(w[k])
    ensures SplitFrom(w + t, current) == SplitFrom(t, current + w)
    decreases |w|
  {
    if w == [] {
      assert w + t == t && current + w == current;
    } else {
      assert (w + t)[0] == w[0] && (w + t)[1..] == w[1..] + t;
      SplitFromToken(w[1..], t, current + [w[0]]);
      assert current + [w[0]] + w[1..] == current + w;
    }
  }

  /** Splitting a space-joined list of tokens gives the list back. */
  lemma {:induction false} SplitJoin(ws: seq<string>)
    requires forall i | 0 <= i < |ws| :: IsToken(ws[i])
    ensures Split(Join(ws)) == ws
  {
    if |ws| == 1 {
      SplitFromToken(ws[0], [], []);
      assert ws[0] + [] == ws[0] && [] + ws[0] == ws[0];
    } else if |ws| > 1 {
      var rest := [' '] + Join(ws[1..]);
      assert Join(ws) == ws[0] + rest;
      SplitFromToken(ws[0], rest, []);
      assert [] + ws[0] == ws[0];
      assert rest[1..] == Join(ws[1..]);
      SplitJoin(ws[1..]);
      assert SplitFrom(rest, ws[0]) == [ws[0]] + Split(Join(ws[1..]));
    }
  }

  /** A whitespace character ends the token being read; the rest is split afresh. */
  lemma {:induction false} SplitFromSpace(a: string, c: char, b: string, current: string)
    requires IsSpace(c)
    ensures SplitFrom(a + [c] + b, current) == SplitFrom(a, current) + SplitFrom(b, [])
    decreases |a|
  {
    var s := a + [c] + b;
    if a == [] {
      assert s == [c] + b && s[1..] == b;
    } else {
      assert s[0] == a[0] && s[1..] == a[1..] + [c] + b;
      if IsSpace(a[0]) {
        SplitFromSpace(a[1..], c, b, []);
        var head := if current == [] then [] else [current];
        assert SplitFrom(s, current) == head + (SplitFrom(a[1..], []) + SplitFrom(b, []));
        assert SplitFrom(a, current) == head + SplitFrom(a[1..], []);
      } else {
        SplitFromSpace(a[1..], c, b, current + [a[0]]);
      }
    }
  }

  /** Splitting at a whitespace character splits the two sides apart: tokens never span whitespace. */
  lemma SplitAtSpace(a: string, c: char, b: string)
    requires IsSpace(c)
    ensures Split(a + [c] + b) == Split(a) + Split(b)
  {
    SplitFromSpace(a, c, b, []);
  }

  /** A text without whitespace is one token, kept whole. */
  lemma SplitOfToken(w: string)
    requires IsToken(w)
    ensures Split(w) == [w]
  {
    SplitJoin([w]);
  }

  /** A text yields no token exactly when all of it is whitespace. */
  lemma SplitEmptyIffBlank(s: string)
    ensures Split(s) == [] <==> forall k | 0 <= k < |s| :: IsSpace(s[k])
  {
    NonSpaceEmptyIffBlank(s);
    if Split(s) != [] {
      var ws := Split(s);
      assert ws == [ws[0]] + ws[1..];
      assert IsToken(ws[0]);
      assert |Concat(ws)| >= |ws[0]| > 0;
    }
  }

  lemma {:induction false} NonSpaceEmptyIffBlank(s: string)
    ensures NonSpace(s) == [] <==> forall k | 0 <= k < |s| :: IsSpace(s[k])
  {
    if s != [] {
      NonSpaceEmptyIffBlank(s[1..]);
      assert forall k | 1 <= k < |s| :: s[k] == s[1..][k - 1];
    }
  }
}
