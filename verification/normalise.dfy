/**
 * Text normalisation: every character of Python's `string.punctuation` is
 * removed and the text is lower-cased, one `replace(c, '').lower()` per
 * punctuation character. Case folding covers the ASCII letters only.
 */
module Normalisation {

  /** Python's `string.punctuation`, in its own order. */
  const Punctuation: string := "!\"#$%&'()*+,-./:;<=>?@[\\]^_`{|}~"

  predicate IsUpper(c: char) { 'A' <= c <= 'Z' }

  predicate IsLowerLetter(c: char) { 'a' <= c <= 'z' }

  /** The ASCII capitals and their lower-case letters, in alphabetical order. */
  const Capitals: string := "ABCDEFGHIJKLMNOPQRSTUVWXYZ"
  const Smalls: string := "abcdefghijklmnopqrstuvwxyz"

  /** The capital at position `k` of the alphabet is the character `'A' + k`, and likewise for the small letters. */
  lemma AlphabetInOrder(k: int)
    requires 0 <= k < 26
    ensures Capitals[k] as int == 'A' as int + k && Smalls[k] as int == 'a' as int + k
  {
  }

  /** `c.lower()` for an ASCII letter; every other character is left as it is. */
  function LowerChar(c: char): (d: char)
    ensures !IsUpper(d)
    ensures IsLowerLetter(d) <==> IsUpper(c) || IsLowerLetter(c)
    ensures !IsUpper(c) ==> d == c
    ensures forall k | 0 <= k < 26 :: c == Capitals[k] ==> d == Smalls[k]
  {
    if IsUpper(c) then
      var d := (c as int + 32) as char;
      assert forall k | 0 <= k < 26 :: c == Capitals[k] ==> d == Smalls[k] by {
        forall k | 0 <= k < 26 && c == Capitals[k] ensures d == Smalls[k] {
          AlphabetInOrder(k);
        }
      }
      d
    else c
  }

  /** `s.lower()`: every character lower-cased, in place. */
  function Lower(s: string): (r: string)
    ensures |r| == |s|
    ensures forall i | 0 <= i < |s| :: r[i] == LowerChar(s[i])
  {
    if s == [] then [] else [LowerChar(s[0])] + Lower(s[1..])
  }

  /** `s.replace(c, '')`. */
  function RemoveAll(s: string, c: char): (r: string)
    ensures |r| <= |s| && c !in r
  {
    if s == [] then [] else (if s[0] == c then [] else [s[0]]) + RemoveAll(s[1..], c)
  }

  /** `s` without any character that occurs in `cs`. */
  function Strip(s: string, cs: string): (r: string)
    ensures |r| <= |s|
  {
    if s == [] then [] else (if s[0] in cs then [] else [s[0]]) + Strip(s[1..], cs)
  }

  /** The normalised text: no punctuation, ASCII letters folded to lower case. */
  function Normalized(raw: string): (text: string)
    ensures |text| <= |raw|
  {
    Lower(Strip(raw, Punctuation))
  }

  /**
   * The normalisation loop of the script: the text is reassigned once per
   * punctuation character, removing that character and lower-casing.
   */
  method Normalize(raw: string) returns (text: string)
    ensures text == Normalized(raw)
  {
    text := raw;
    for i := 0 to |Punctuation|
      invariant text == if i == 0 then raw else Lower(Strip(raw, Punctuation[..i]))
    {
      var c := Punctuation[i];
      assert Punctuation[..i + 1] == Punctuation[..i] + [c];
      if i == 0 {
        StripNothing(raw);
        StripOneMore(raw, [], c);
      } else {
        NormaliseStep(raw, Punctuation[..i], c);
      }
      text := Lower(RemoveAll(text, c));
    }
    assert Punctuation[..|Punctuation|] == Punctuation;
  }

  // ---------------------------------------------------------------------------
  // Lemmas behind the loop

  lemma {:induction false} StripNothing(s: string)
    ensures Strip(s, []) == s
  {
    if s != [] {
      StripNothing(s[1..]);
      assert s == [s[0]] + s[1..];
    }
  }

  /** Removing one more character after stripping a set is stripping the larger set. */
  lemma {:induction false} StripOneMore(s: string, cs: string, c: char)
    ensures RemoveAll(Strip(s, cs), c) == Strip(s, cs + [c])
  {
    if s != [] {
      StripOneMore(s[1..], cs, c);
      var head := if s[0] in cs then [] else [s[0]];
      RemoveAllConcat(head, Strip(s[1..], cs), c);
      assert Strip(s, cs) == head + Strip(s[1..], cs);
    }
  }

  lemma {:induction false} RemoveAllConcat(a: string, b: string, c: char)
    ensures RemoveAll(a + b, c) == RemoveAll(a, c) + RemoveAll(b, c)
  {
    if a != [] {
      assert (a + b)[1..] == a[1..] + b;
      RemoveAllConcat(a[1..], b, c);
    } else {
      assert a + b == b;
    }
  }

  /** No punctuation character is a letter, so lower-casing never creates or destroys one. */
  lemma PunctuationIsNotALetter(c: char)
    requires c in Punctuation
    ensures !IsUpper(c) && !IsLowerLetter(c)
  {
  }

  lemma {:induction false} LowerRemoveCommute(s: string, c: char)
    requires c in Punctuation
    ensures RemoveAll(Lower(s), c) == Lower(RemoveAll(s, c))
  {
    if s != [] {
      PunctuationIsNotALetter(c);
      LowerRemoveCommute(s[1..], c);
      var head := if s[0] == c then [] else [s[0]];
      assert Lower(s) == [LowerChar(s[0])] + Lower(s[1..]);
      assert LowerChar(s[0]) == c <==> s[0] == c;
      LowerConcat(head, RemoveAll(s[1..], c));
    }
  }

  lemma {:induction false} LowerIdempotent(s: string)
    ensures Lower(Lower(s)) == Lower(s)
  {
    if s != [] {
      LowerIdempotent(s[1..]);
      assert Lower(s)[1..] == Lower(s[1..]);
    }
  }

  lemma NormaliseStep(raw: string, done: string, c: char)
    requires c in Punctuation
    ensures Lower(RemoveAll(Lower(Strip(raw, done)), c)) == Lower(Strip(raw, done + [c]))
  {
    LowerRemoveCommute(Strip(raw, done), c);
    LowerIdempotent(RemoveAll(Strip(raw, done), c));
    StripOneMore(raw, done, c);
  }

  // ---------------------------------------------------------------------------
  // What normalisation promises

  lemma {:induction false} LowerConcat(a: string, b: string)
    ensures Lower(a + b) == Lower(a) + Lower(b)
  {
    if a != [] {
      assert (a + b)[1..] == a[1..] + b;
      LowerConcat(a[1..], b);
    } else {
      assert a + b == b;
    }
  }

  lemma {:induction false} StripConcat(a: string, b: string, cs: string)
    ensures Strip(a + b, cs) == Strip(a, cs) + Strip(b, cs)
  {
    if a != [] {
      assert (a + b)[1..] == a[1..] + b;
      StripConcat(a[1..], b, cs);
    } else {
      assert a + b == b;
    }
  }

  /** Normalisation works character by character: the text of a concatenation is the concatenation of the texts. */
  lemma NormalizedConcat(a: string, b: string)
    ensures Normalized(a + b) == Normalized(a) + Normalized(b)
  {
    StripConcat(a, b, Punctuation);
    LowerConcat(Strip(a, Punctuation), Strip(b, Punctuation));
  }

  /** A punctuation character disappears; any other character stays, lower-cased when it is an ASCII capital. */
  lemma NormalizedChar(c: char)
    ensures Normalized([c]) == if c in Punctuation then [] else [LowerChar(c)]
  {
    assert [c][1..] == [];
    assert Strip([c], Punctuation) == if c in Punctuation then [] else [c];
  }

  /** The normalised text holds no punctuation and no upper-case letter. */
  lemma {:induction false} NormalizedIsClean(raw: string)
    ensures forall k | 0 <= k < |Normalized(raw)| ::
      Normalized(raw)[k] !in Punctuation && !IsUpper(Normalized(raw)[k])
  {
    if raw != [] {
      NormalizedIsClean(raw[1..]);
      assert raw == [raw[0]] + raw[1..];
      NormalizedConcat([raw[0]], raw[1..]);
      NormalizedChar(raw[0]);
      if raw[0] !in Punctuation {
        var d := LowerChar(raw[0]);
        if d in Punctuation {
          PunctuationIsNotALetter(d);
        }
      }
    }
  }

  /** A text with no punctuation and no capital is left unchanged. */
  lemma {:induction false} NormalizedFixesCleanText(s: string)
    requires forall k | 0 <= k < |s| :: s[k] !in Punctuation && !IsUpper(s[k])
    ensures Normalized(s) == s
  {
    if s != [] {
      NormalizedFixesCleanText(s[1..]);
      assert s == [s[0]] + s[1..];
      NormalizedConcat([s[0]], s[1..]);
      NormalizedChar(s[0]);
    }
  }

  /** Normalising twice gives the same text as normalising once. */
  lemma NormalizedIdempotent(raw: string)
    ensures Normalized(Normalized(raw)) == Normalized(raw)
  {
    NormalizedIsClean(raw);
    NormalizedFixesCleanText(Normalized(raw));
  }
}
