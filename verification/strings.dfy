/**
  The handful of Python `str` operations the school reader relies on, stated
  over `seq<char>`: slicing, the `in` operator and `str.split()` with no
  separator.
 */
module Strings {

  /** Python's `None`-or-value, as returned by the reader's helpers. */
  datatype Option<+T> = None | Some(value: T)

  function Min(a: int, b: int): int
  {
    if a <= b then a else b
  }

  /** Python slice `s[:n]` for a non-negative `n`: at most the first `n` characters. */
  function Take(s: string, n: nat): (r: string)
    ensures |r| == Min(n, |s|)
    ensures r <= s
  {
    s[..Min(n, |s|)]
  }

  /** Python slice `s[n:]` for a non-negative `n`: everything after the first `n` characters. */
  function Drop(s: string, n: nat): (r: string)
    ensures |r| == |s| - Min(n, |s|)
    ensures Take(s, n) + r == s
  {
    s[Min(n, |s|)..]
  }

  /**
    The characters `str.isspace()` accepts, which are the separators of
    `str.split()`: the ASCII controls TAB..CR, the information separators
    FS..US, SPACE, NEL, NO-BREAK SPACE and the Unicode space separators.
   */
  const Whitespace: set<char> := {
    '\t', '\n', '\U{0B}', '\U{0C}', '\r',
    '\U{1C}', '\U{1D}', '\U{1E}', '\U{1F}',
    ' ', '\U{85}', '\U{A0}', '\U{1680}',
    '\U{2000}', '\U{2001}', '\U{2002}', '\U{2003}', '\U{2004}', '\U{2005}',
    '\U{2006}', '\U{2007}', '\U{2008}', '\U{2009}', '\U{200A}',
    '\U{2028}', '\U{2029}', '\U{202F}', '\U{205F}', '\U{3000}'
  }

  predicate IsSpace(c: char)
  {
    c in Whitespace
  }

  predicate NoSpace(s: string)
  {
    forall k :: 0 <= k < |s| ==> !IsSpace(s[k])
  }

  /** Python `needle in hay`, as a left-to-right scan of the candidate positions. */
  predicate Contains(hay: string, needle: string)
    decreases |hay|
  {
    if |hay| < |needle| then false
    else hay[..|needle|] == needle || Contains(hay[1..], needle)
  }

  /** `needle` sits in `hay` starting at index `i`. */
  ghost predicate OccursAt(hay: string, needle: string, i: int)
  {
    0 <= i && i + |needle| <= |hay| && hay[i..i + |needle|] == needle
  }

  lemma {:induction false} OccursAtContains(hay: string, needle: string, i: int)
    requires OccursAt(hay, needle, i)
    ensures Contains(hay, needle)
    decreases |hay|
  {
    if hay[..|needle|] != needle {
      assert i != 0;
      assert hay[1..][i - 1..i - 1 + |needle|] == hay[i..i + |needle|];
      OccursAtContains(hay[1..], needle, i - 1);
    }
  }

  lemma {:induction false} ContainsOccurs(hay: string, needle: string)
    requires Contains(hay, needle)
    ensures exists i :: OccursAt(hay, needle, i)
    decreases |hay|
  {
    if hay[..|needle|] == needle {
      assert OccursAt(hay, needle, 0);
    } else {
      ContainsOccurs(hay[1..], needle);
      var i :| OccursAt(hay[1..], needle, i);
      assert hay[1..][i..i + |needle|] == hay[i + 1..i + 1 + |needle|];
      assert OccursAt(hay, needle, i + 1);
    }
  }

  /** The scan finds the needle exactly when it occurs at some index. */
  lemma ContainsIff(hay: string, needle: string)
    ensures Contains(hay, needle) <==> exists i :: OccursAt(hay, needle, i)
  {
    if Contains(hay, needle) {
      ContainsOccurs(hay, needle);
    }
    if exists i :: OccursAt(hay, needle, i) {
      var i :| OccursAt(hay, needle, i);
      OccursAtContains(hay, needle, i);
    }
  }

  /** A string none of whose characters starts `needle` does not contain it. */
  lemma {:induction false} NotContainsFirstChar(hay: string, needle: string)
    requires |needle| > 0
    requires forall k :: 0 <= k < |hay| ==> hay[k] != needle[0]
    ensures !Contains(hay, needle)
    decreases |hay|
  {
    if |hay| >= |needle| {
      assert hay[..|needle|][0] != needle[0];
      NotContainsFirstChar(hay[1..], needle);
    }
  }

  /** A non-empty run of non-whitespace characters: what `split()` returns pieces of. */
  predicate IsWord(w: string)
  {
    |w| > 0 && NoSpace(w)
  }

  /**
    The end of the longest stretch of `s` starting at `from` whose characters
    are all whitespace (`space`) or all non-whitespace (`!space`).
   */
  function RunEnd(s: string, from: nat, space: bool): (e: nat)
    requires from <= |s|
    ensures from <= e <= |s|
    decreases |s| - from
  {
    if from < |s| && IsSpace(s[from]) == space then RunEnd(s, from + 1, space) else from
  }

  /** The stretch found is uniform, and it stops at the end or at the first character of the other kind. */
  lemma {:induction false} RunEndStretch(s: string, from: nat, space: bool)
    requires from <= |s|
    ensures forall k :: from <= k < RunEnd(s, from, space) ==> IsSpace(s[k]) == space
    ensures RunEnd(s, from, space) == |s| || IsSpace(s[RunEnd(s, from, space)]) != space
    decreases |s| - from
  {
    if from < |s| && IsSpace(s[from]) == space {
      RunEndStretch(s, from + 1, space);
    }
  }

  /** A stretch is determined by where its characters stop matching. */
  lemma {:induction false} RunEndIs(s: string, from: nat, space: bool, e: nat)
    requires from <= e <= |s|
    requires forall k :: from <= k < e ==> IsSpace(s[k]) == space
    requires e == |s| || IsSpace(s[e]) != space
    ensures RunEnd(s, from, space) == e
    decreases e - from
  {
    if from < e {
      RunEndIs(s, from + 1, space, e);
    }
  }

  /** The words of `s[from..]`, as `split()` finds them. */
  function SplitFrom(s: string, from: nat): (words: seq<string>)
    requires from <= |s|
    decreases |s| - from
  {
    var i := RunEnd(s, from, true);
    if i == |s| then []
    else
      var j := RunEnd(s, i, false);
      [s[i..j]] + SplitFrom(s, j)
  }

  /** Every piece the scan finds is a word: non-empty and free of whitespace. */
  lemma {:induction false} SplitFromWords(s: string, from: nat)
    requires from <= |s|
    ensures forall k :: 0 <= k < |SplitFrom(s, from)| ==> IsWord(SplitFrom(s, from)[k])
    decreases |s| - from
  {
    var i := RunEnd(s, from, true);
    RunEndStretch(s, from, true);
    if i < |s| {
      var j := RunEnd(s, i, false);
      RunEndStretch(s, i, false);
      assert IsWord(s[i..j]) by {
        assert forall k :: 0 <= k < j - i ==> s[i..j][k] == s[i + k];
      }
      SplitFromWords(s, j);
      var words := SplitFrom(s, from);
      assert words == [s[i..j]] + SplitFrom(s, j);
      assert forall k :: 1 <= k < |words| ==> words[k] == SplitFrom(s, j)[k - 1];
    }
  }

  /**
    Python `s.split()` with no separator: skip whitespace, take the maximal run
    of non-whitespace that follows, and repeat until the end.
   */
  function Split(s: string): (words: seq<string>)
  {
    SplitFrom(s, 0)
  }

  /** Every piece `split()` returns is a word. */
  lemma SplitWords(s: string)
    ensures forall k :: 0 <= k < |Split(s)| ==> IsWord(Split(s)[k])
  {
    SplitFromWords(s, 0);
  }

  /** A whitespace character at the scan position does not change the words found. */
  lemma SplitFromSkipsSpace(s: string, from: nat)
    requires from < |s| && IsSpace(s[from])
    ensures SplitFrom(s, from) == SplitFrom(s, from + 1)
  {
  }

  lemma {:induction false} RunEndShift(a: string, b: string, from: nat, space: bool)
    requires from <= |b|
    ensures RunEnd(a + b, |a| + from, space) == |a| + RunEnd(b, from, space)
    decreases |b| - from
  {
    if from < |b| {
      assert (a + b)[|a| + from] == b[from];
      RunEndShift(a, b, from + 1, space);
    }
  }

  /** One step of the scan: the whitespace up to `i` is skipped and the word `s[i..j]` is taken. */
  lemma SplitFromStep(s: string, from: nat, i: nat, j: nat, w: string, rest: seq<string>)
    requires from <= |s| && RunEnd(s, from, true) == i < |s| && RunEnd(s, i, false) == j
    requires s[i..j] == w && SplitFrom(s, j) == rest
    ensures SplitFrom(s, from) == [w] + rest
  {
  }

  lemma SliceOfAppend(a: string, b: string, i: nat, j: nat)
    requires i <= j <= |b|
    ensures (a + b)[|a| + i..|a| + j] == b[i..j]
  {
    assert forall k :: 0 <= k < j - i ==> (a + b)[|a| + i..|a| + j][k] == b[i..j][k];
  }

  /** One step of the scan of `a + b` from inside `b`, given that the rest of the scans agree. */
  lemma SplitFromShiftStep(a: string, b: string, from: nat, i: nat, j: nat)
    requires from <= |b| && RunEnd(b, from, true) == i < |b| && RunEnd(b, i, false) == j
    requires SplitFrom(a + b, |a| + j) == SplitFrom(b, j)
    ensures SplitFrom(a + b, |a| + from) == SplitFrom(b, from)
  {
    var s := a + b;
    var w := b[i..j];
    var rest := SplitFrom(b, j);
    SplitFromStep(b, from, i, j, w, rest);
    RunEndShift(a, b, from, true);
    RunEndShift(a, b, i, false);
    SliceOfAppend(a, b, i, j);
    assert |s| == |a| + |b|;
    assert RunEnd(s, |a| + from, true) == |a| + i;
    assert RunEnd(s, |a| + i, false) == |a| + j;
    assert s[|a| + i..|a| + j] == w;
    assert SplitFrom(s, |a| + j) == rest;
    SplitFromStep(s, |a| + from, |a| + i, |a| + j, w, rest);
  }

  /** Scanning `a + b` from inside `b` finds what scanning `b` alone finds. */
  lemma {:induction false} SplitFromShift(a: string, b: string, from: nat)
    requires from <= |b|
    ensures SplitFrom(a + b, |a| + from) == SplitFrom(b, from)
    decreases |b| - from
  {
    var i := RunEnd(b, from, true);
    RunEndShift(a, b, from, true);
    if i < |b| {
      RunEndStretch(b, from, true);
      var j := RunEnd(b, i, false);
      assert j == RunEnd(b, i + 1, false);
      SplitFromShift(a, b, j);
      SplitFromShiftStep(a, b, from, i, j);
    } else {
      assert SplitFrom(a + b, |a| + from) == [] == SplitFrom(b, from);
    }
  }

  /** `s[i..j]` is the first word of `s`: only whitespace before it, none inside, whitespace or the end after. */
  ghost predicate IsFirstWord(s: string, i: int, j: int)
  {
    && 0 <= i < j <= |s|
    && (forall k :: 0 <= k < i ==> IsSpace(s[k]))
    && (forall k :: i <= k < j ==> !IsSpace(s[k]))
    && (j == |s| || IsSpace(s[j]))
  }

  /** `split()` yields no word exactly when every character is whitespace. */
  lemma SplitEmptyIff(s: string)
    ensures Split(s) == [] <==> forall k :: 0 <= k < |s| ==> IsSpace(s[k])
  {
    RunEndStretch(s, 0, true);
  }

  /** When `s` has a first word, `split()[0]` is exactly that word. */
  lemma SplitFirstWord(s: string, i: int, j: int)
    requires IsFirstWord(s, i, j)
    ensures Split(s) != [] && Split(s)[0] == s[i..j]
  {
    RunEndIs(s, 0, true, i);
    RunEndIs(s, i, false, j);
  }

  /** A string with a non-whitespace character has a first word. */
  lemma FirstWordExists(s: string, p: int)
    requires 0 <= p < |s| && !IsSpace(s[p])
    ensures exists i, j :: IsFirstWord(s, i, j)
  {
    var i := RunEnd(s, 0, true);
    RunEndStretch(s, 0, true);
    assert i < |s|;
    var j := RunEnd(s, i, false);
    RunEndStretch(s, i, false);
    assert IsFirstWord(s, i, j);
  }

  /** Words joined by single spaces, the shape `split()` undoes. */
  function JoinWords(words: seq<string>): string
  {
    if words == [] then ""
    else if |words| == 1 then words[0]
    else words[0] + " " + JoinWords(words[1..])
  }

  /** `split()` recovers words that were joined with single spaces. */
  lemma {:induction false} SplitJoinWords(words: seq<string>)
    requires forall k :: 0 <= k < |words| ==> IsWord(words[k])
    ensures Split(JoinWords(words)) == words
    decreases |words|
  {
    if words != [] {
      var w := words[0];
      var s := JoinWords(words);
      var rest := if |words| == 1 then "" else " " + JoinWords(words[1..]);
      assert s == w + rest;
      RunEndIs(s, 0, true, 0);
      RunEndIs(s, 0, false, |w|);
      assert s[0..|w|] == w;
      SplitJoinWords(words[1..]);
      if |words| == 1 {
        assert SplitFrom(s, |w|) == [];
      } else {
        var tail := JoinWords(words[1..]);
        SplitFromSkipsSpace(s, |w|);
        assert s == (w + " ") + tail;
        SplitFromShift(w + " ", tail, 0);
      }
    }
  }
}
