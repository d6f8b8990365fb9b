/**
 Text normalisation before comparison: `preprocess_text` in app.py lowers
 the case of the text, replaces every run of whitespace by one space and
 strips whitespace from both ends. Each step is modelled on its own, over
 the ASCII character classes of module Chars.
 */
module Normalize {
  import opened Chars
  import opened Words

  /** No character of `x` is an ASCII capital. */
  predicate NoUpper(x: string) {
    forall k :: 0 <= k < |x| ==> !IsUpper(x[k])
  }

  /**
   Every whitespace character of `x` is a plain space, and no two are
   adjacent. The adjacency clause binds the two neighbouring positions
   separately (`j == i + 1`) so that the verifier can instantiate it on the
   index terms `x[i]` and `x[j]` without a trigger on `i + 1`.
   */
  predicate SingleSpaced(x: string) {
    && (forall k :: 0 <= k < |x| && IsSpace(x[k]) ==> x[k] == ' ')
    && (forall i, j :: 0 <= i < |x| && i < j < |x| && j == i + 1 ==> !(IsSpace(x[i]) && IsSpace(x[j])))
  }

  /** `x` neither starts nor ends with whitespace. */
  predicate Trimmed(x: string) {
    x == [] || (!IsSpace(x[0]) && !IsSpace(x[|x| - 1]))
  }

  /** The shape of every text `Preprocess` produces. */
  predicate Normalized(x: string) {
    SingleSpaced(x) && Trimmed(x)
  }

  /** `text.lower()`, character by character. */
  function Lower(s: string): (r: string)
    ensures |r| == |s|
    ensures forall k :: 0 <= k < |s| ==> r[k] == ToLower(s[k])
    ensures NoUpper(r)
  {
    if s == [] then [] else [ToLower(s[0])] + Lower(s[1..])
  }

  /** Lower-cases each word of a list. */
  function LowerAll(ws: seq<string>): (r: seq<string>)
    ensures |r| == |ws|
    ensures forall k :: 0 <= k < |ws| ==> r[k] == Lower(ws[k])
  {
    if ws == [] then [] else [Lower(ws[0])] + LowerAll(ws[1..])
  }

  /** `s.lstrip()`: `s` without its longest all-whitespace prefix. */
  function StripLeft(s: string): (r: string)
    ensures |r| <= |s| && r == s[|s| - |r|..]
    ensures forall k :: 0 <= k < |s| - |r| ==> IsSpace(s[k])
    ensures r == [] || !IsSpace(r[0])
  {
    if s != [] && IsSpace(s[0]) then
      var r := StripLeft(s[1..]);
      DropDrop(s, 1, |s| - 1 - |r|);
      r
    else s
  }

  /** `s.rstrip()`: `s` without its longest all-whitespace suffix. */
  function StripRight(s: string): (r: string)
    ensures |r| <= |s| && r == s[..|r|]
    ensures forall k :: |r| <= k < |s| ==> IsSpace(s[k])
    ensures r == [] || !IsSpace(r[|r| - 1])
  {
    if s != [] && IsSpace(s[|s| - 1]) then
      var r := StripRight(s[..|s| - 1]);
      TakeTake(s, |s| - 1, |r|);
      r
    else s
  }

  /**
   `s.strip()`: the middle of `s` that remains once the whitespace at both
   ends is gone.
   */
  function Strip(s: string): (r: string)
    ensures Trimmed(r)
    ensures var i := |s| - |StripLeft(s)|;
      && i + |r| <= |s|
      && r == s[i..i + |r|]
      && (forall k :: 0 <= k < i ==> IsSpace(s[k]))
      && (forall k :: i + |r| <= k < |s| ==> IsSpace(s[k]))
  {
    var l := StripLeft(s);
    var r := StripRight(l);
    StripSlice(s, l, r);
    r
  }

  lemma StripSlice(s: string, l: string, r: string)
    requires |l| <= |s| && l == s[|s| - |l|..]
    requires |r| <= |l| && r == l[..|r|]
    ensures var i := |s| - |l|; r == s[i..i + |r|]
  {
  }

  /**
   `re.sub(r'\s+', ' ', s)`: every maximal whitespace run becomes a single
   space; the text between runs is copied unchanged.
   */
  function Collapse(s: string): string
    decreases |s|
  {
    if s == [] then []
    else if IsSpace(s[0]) then
      var rest := StripLeft(s);
      assert |rest| < |s|;
      [' '] + Collapse(rest)
    else
      var w := Word(s);
      w + Collapse(s[|w|..])
  }

  /** What `Collapse` guarantees, stated without mentioning `Collapse`. */
  predicate CollapseShape(s: string, r: string) {
    && SingleSpaced(r)
    && (NoUpper(s) ==> NoUpper(r))
    && (r == [] <==> s == [])
    && (r != [] ==> (IsSpace(r[0]) <==> IsSpace(s[0])))
    && (r != [] ==> (IsSpace(r[|r| - 1]) <==> IsSpace(s[|s| - 1])))
  }

  /**
   The output of `Collapse` is single-spaced, gains no capital, is empty
   only for empty input, and starts and ends with whitespace exactly when
   the input does.
   */
  lemma {:induction false} CollapseShapeHolds(s: string)
    ensures CollapseShape(s, Collapse(s))
    decreases |s|
  {
    if s == [] {
    } else if IsSpace(s[0]) {
      var rest := StripLeft(s);
      CollapseShapeHolds(rest);
      CollapseSpaceCase(s, rest, Collapse(rest));
    } else {
      var w := Word(s);
      var rest := s[|w|..];
      CollapseShapeHolds(rest);
      CollapseWordCase(s, w, rest, Collapse(rest));
    }
  }

  /** A whitespace run followed by collapsed text keeps the shape `Collapse` promises. */
  lemma CollapseSpaceCase(s: string, rest: string, c: string)
    requires s != [] && IsSpace(s[0])
    requires |rest| < |s| && rest == s[|s| - |rest|..]
    requires forall k :: 0 <= k < |s| - |rest| ==> IsSpace(s[k])
    requires rest == [] || !IsSpace(rest[0])
    requires CollapseShape(rest, c)
    ensures CollapseShape(s, [' '] + c)
  {
    SingleSpacedConcat([' '], c);
    if NoUpper(s) {
      assert forall k :: 0 <= k < |rest| ==> rest[k] == s[|s| - |rest| + k];
      assert NoUpper(rest);
    }
    if c != [] {
      assert ([' '] + c)[|c|] == c[|c| - 1];
      assert rest[|rest| - 1] == s[|s| - 1];
    }
  }

  /** A word followed by collapsed text keeps the shape `Collapse` promises. */
  lemma CollapseWordCase(s: string, w: string, rest: string, c: string)
    requires 0 < |w| <= |s| && w == s[..|w|] && NoSpace(w) && rest == s[|w|..]
    requires CollapseShape(rest, c)
    ensures CollapseShape(s, w + c)
  {
    TakeDrop(s, |w|);
    SingleSpacedConcat(w, c);
    if NoUpper(s) {
      assert forall k :: 0 <= k < |w| ==> w[k] == s[k];
      assert forall k :: 0 <= k < |rest| ==> rest[k] == s[|w| + k];
      assert NoUpper(rest);
    }
    if c != [] {
      assert (w + c)[|w + c| - 1] == c[|c| - 1];
      assert rest[|rest| - 1] == s[|s| - 1];
    } else {
      assert (w + c)[|w + c| - 1] == w[|w| - 1] == s[|s| - 1];
    }
  }

  /** Gluing two single-spaced texts that do not both have whitespace at the seam. */
  lemma SingleSpacedConcat(a: string, b: string)
    requires SingleSpaced(a) && SingleSpaced(b)
    requires a == [] || b == [] || !IsSpace(a[|a| - 1]) || !IsSpace(b[0])
    ensures SingleSpaced(a + b)
  {
    var ab := a + b;
    forall k, j | 0 <= k < j < |ab| && j == k + 1
      ensures !(IsSpace(ab[k]) && IsSpace(ab[j]))
    {
      if k + 1 < |a| {
        assert ab[k] == a[k] && ab[k + 1] == a[k + 1];
      } else if k + 1 == |a| {
        assert ab[k] == a[|a| - 1] && ab[k + 1] == b[0];
      } else {
        assert ab[k] == b[k - |a|] && ab[k + 1] == b[k - |a| + 1];
      }
    }
    forall k | 0 <= k < |ab| && IsSpace(ab[k])
      ensures ab[k] == ' '
    {
      if k < |a| {
        assert ab[k] == a[k];
      } else {
        assert ab[k] == b[k - |a|];
      }
    }
  }

  /** `preprocess_text`: lower-case, collapse whitespace runs, strip. */
  function Preprocess(s: string): (r: string)
    ensures Normalized(r)
    ensures NoUpper(r)
  {
    var c := Collapse(Lower(s));
    CollapseLowerShape(s);
    StripKeepsShape(c);
    Strip(c)
  }

  /** Collapsing a lower-cased text leaves it single-spaced and without capitals. */
  lemma CollapseLowerShape(s: string)
    ensures SingleSpaced(Collapse(Lower(s))) && NoUpper(Collapse(Lower(s)))
  {
    CollapseShapeHolds(Lower(s));
  }

  /** Stripping a single-spaced text without capitals gives a normalised one. */
  lemma StripKeepsShape(c: string)
    requires SingleSpaced(c) && NoUpper(c)
    ensures Normalized(Strip(c)) && NoUpper(Strip(c))
  {
    TrimmedSlice(c, |c| - |StripLeft(c)|, Strip(c));
  }

  lemma TrimmedSlice(c: string, i: nat, r: string)
    requires i + |r| <= |c| && r == c[i..i + |r|]
    requires Trimmed(r) && SingleSpaced(c) && NoUpper(c)
    ensures Normalized(r) && NoUpper(r)
  {
    SliceKeepsShape(c, i, i + |r|);
  }

  /** A slice of a single-spaced text without capitals is again so. */
  lemma SliceKeepsShape(x: string, i: nat, j: nat)
    requires i <= j <= |x|
    ensures SingleSpaced(x) ==> SingleSpaced(x[i..j])
    ensures NoUpper(x) ==> NoUpper(x[i..j])
  {
    var y := x[i..j];
    assert forall k :: 0 <= k < |y| ==> y[k] == x[i + k];
  }

  // ----- Words survive normalisation -----

  lemma LowerDrop(s: string, k: nat)
    requires k <= |s|
    ensures Lower(s)[k..] == Lower(s[k..])
  {
    assert forall i :: 0 <= i < |s| - k ==> Lower(s)[k..][i] == Lower(s[k..])[i];
  }

  /** The first word of the lower-cased text is the lower-cased first word. */
  lemma {:induction false} WordLower(s: string)
    ensures Word(Lower(s)) == Lower(Word(s))
    decreases |s|
  {
    if s != [] {
      LowerDrop(s, 1);
      WordLower(s[1..]);
      if !IsSpace(s[0]) {
        assert Lower(Word(s)) == [ToLower(s[0])] + Lower(Word(s[1..]));
      }
    }
  }

  /** Lower-casing then splitting gives the lower-cased words of the original split. */
  lemma {:induction false} LowerSplit(s: string)
    ensures Split(Lower(s)) == LowerAll(Split(s))
    decreases |s|
  {
    var low := Lower(s);
    if s == [] {
    } else if IsSpace(s[0]) {
      LowerDrop(s, 1);
      LowerSplit(s[1..]);
    } else {
      var w := Word(s);
      WordLower(s);
      LowerDrop(s, |w|);
      LowerSplit(s[|w|..]);
      assert Split(low) == [Lower(w)] + Split(low[|w|..]);
      assert LowerAll(Split(s)) == LowerAll([w] + Split(s[|w|..]));
    }
  }

  /** Collapsing whitespace runs changes no word. */
  lemma {:induction false} CollapseSplit(s: string)
    ensures Split(Collapse(s)) == Split(s)
    decreases |s|
  {
    if s == [] {
    } else if IsSpace(s[0]) {
      var rest := StripLeft(s);
      CollapseSplit(rest);
      SpaceRunSplit(s, rest, Collapse(rest));
    } else {
      var w := Word(s);
      var rest := s[|w|..];
      CollapseSplit(rest);
      CollapseShapeHolds(rest);
      WordRunSplit(s, w, rest, Collapse(rest));
    }
  }

  /** The space branch of `CollapseSplit`. */
  lemma SpaceRunSplit(s: string, rest: string, c: string)
    requires |rest| <= |s| && rest == s[|s| - |rest|..]
    requires forall k :: 0 <= k < |s| - |rest| ==> IsSpace(s[k])
    requires Split(c) == Split(rest)
    ensures Split([' '] + c) == Split(s)
  {
    SplitSpaceStep([' '], c);
    assert [' '][1..] + c == c;
    assert s == s[..|s| - |rest|] + rest;
    SplitSkipsSpaces(s[..|s| - |rest|], rest);
  }

  /** The word branch of `CollapseSplit`. */
  lemma WordRunSplit(s: string, w: string, rest: string, c: string)
    requires s != [] && !IsSpace(s[0])
    requires w == Word(s) && rest == s[|w|..]
    requires Split(c) == Split(rest) && CollapseShape(rest, c)
    ensures Split(w + c) == Split(s)
  {
    assert |w| > 0;
    SplitConcat(w, c);
    SplitOneWord(w);
  }

  /** Stripping the ends changes no word. */
  lemma StripSplit(s: string)
    ensures Split(Strip(s)) == Split(s)
  {
    var r := Strip(s);
    EndSpacesSplit(s, |s| - |StripLeft(s)|, r);
  }

  /** Removing whitespace at both ends of `s` leaves its words alone. */
  lemma EndSpacesSplit(s: string, i: nat, r: string)
    requires i + |r| <= |s| && r == s[i..i + |r|]
    requires forall k :: 0 <= k < i ==> IsSpace(s[k])
    requires forall k :: i + |r| <= k < |s| ==> IsSpace(s[k])
    ensures Split(r) == Split(s)
  {
    var head, tail := s[..i], s[i + |r|..];
    assert s == head + (r + tail);
    SplitSkipsSpaces(head, r + tail);
    SplitIgnoresTrailingSpaces(r, tail);
  }

  /**
   Normalisation keeps the words: the words of the normalised text are the
   lower-cased words of the original, in the same order.
   */
  lemma {:induction false} PreprocessKeepsWords(s: string)
    ensures Split(Preprocess(s)) == LowerAll(Split(s))
  {
    var low := Lower(s);
    StripSplit(Collapse(low));
    CollapseSplit(low);
    LowerSplit(s);
  }

  /** A text that starts with a non-whitespace character still has a word after normalisation. */
  lemma HasWordAfterPreprocess(t: string)
    requires t != [] && !IsSpace(t[0])
    ensures Split(Preprocess(t)) != []
  {
    SplitStartsWithWord(t);
    PreprocessKeepsWords(t);
  }

  /** A normalised text is its own words joined by single spaces. */
  lemma {:induction false} NormalizedIsJoin(x: string)
    requires Normalized(x)
    ensures Join(Split(x), ' ') == x
    decreases |x|
  {
    if x != [] {
      var w := Word(x);
      if |w| == |x| {
        assert w == x;
        SplitOneWord(w);
      } else {
        var tail := NormalizedStep(x);
        NormalizedIsJoin(tail);
        var ts := Split(tail);
        assert ([w] + ts)[1..] == ts;
      }
    }
  }

  /**
   A normalised text longer than its first word continues with one space
   and a normalised, non-empty remainder.
   */
  lemma NormalizedStep(x: string) returns (tail: string)
    requires Normalized(x) && x != [] && |Word(x)| < |x|
    ensures |tail| < |x| && Normalized(tail) && tail != []
    ensures x == Word(x) + [' '] + tail
    ensures Split(x) == [Word(x)] + Split(tail) && Split(tail) != []
  {
    var w := Word(x);
    tail := x[|w| + 1..];
    NormalizedTailShape(x, |w|);
    SplitAfterSpace(x, w, tail);
  }

  lemma NormalizedTailShape(x: string, n: nat)
    requires Normalized(x) && n < |x| && IsSpace(x[n])
    ensures n + 1 < |x| && Normalized(x[n + 1..]) && x[n] == ' '
  {
    assert n + 1 < |x|;
    var tail := x[n + 1..];
    assert x[n + 1] == tail[0];
    assert tail[|tail| - 1] == x[|x| - 1];
    SliceKeepsShape(x, n + 1, |x|);
  }

  lemma SplitAfterSpace(x: string, w: string, tail: string)
    requires IsWord(w) && |w| < |x| && w == x[..|w|] && x[|w|] == ' ' && tail == x[|w| + 1..]
    requires tail != [] && !IsSpace(tail[0])
    ensures x == w + [' '] + tail
    ensures Split(x) == [w] + Split(tail) && Split(tail) != []
  {
    var rest := [' '] + tail;
    assert x == w + rest;
    assert w + [' '] + tail == w + rest;
    SplitConcat(w, rest);
    SplitOneWord(w);
    SplitConsSpace(' ', tail);
    SplitStartsWithWord(tail);
  }

  /**
   An independent description of `preprocess_text`: the lower-cased words
   of the input joined by single spaces.
   */
  lemma {:induction false} PreprocessIsJoin(s: string)
    ensures Preprocess(s) == Join(LowerAll(Split(s)), ' ')
  {
    NormalizedIsJoin(Preprocess(s));
    PreprocessKeepsWords(s);
  }

  // ----- Fixed points and idempotence -----

  lemma LowerFixes(x: string)
    requires NoUpper(x)
    ensures Lower(x) == x
  {
  }

  /** A single-spaced text is left unchanged by `Collapse`. */
  lemma {:induction false} CollapseFixes(x: string)
    requires SingleSpaced(x)
    ensures Collapse(x) == x
    decreases |x|
  {
    if x == [] {
    } else if IsSpace(x[0]) {
      SliceKeepsShape(x, 1, |x|);
      CollapseFixes(x[1..]);
      CollapseFixesSpace(x);
    } else {
      var w := Word(x);
      SliceKeepsShape(x, |w|, |x|);
      CollapseFixes(x[|w|..]);
      CollapseFixesWord(x);
    }
  }

  /** The space branch of `CollapseFixes`. */
  lemma CollapseFixesSpace(x: string)
    requires SingleSpaced(x) && x != [] && IsSpace(x[0])
    requires Collapse(x[1..]) == x[1..]
    ensures Collapse(x) == x
  {
    LoneSpaceStrip(x);
    assert x == [' '] + x[1..];
  }

  /** The word branch of `CollapseFixes`. */
  lemma CollapseFixesWord(x: string)
    requires x != [] && !IsSpace(x[0])
    requires Collapse(x[|Word(x)|..]) == x[|Word(x)|..]
    ensures Collapse(x) == x
  {
    CollapseUnfoldWord(x);
    TakeDrop(x, |Word(x)|);
  }

  /** One step of `Collapse` on a text that starts with a word. */
  lemma CollapseUnfoldWord(s: string)
    requires s != [] && !IsSpace(s[0])
    ensures Collapse(s) == Word(s) + Collapse(s[|Word(s)|..])
  {
  }

  /** In a single-spaced text, a leading space is a run of one. */
  lemma LoneSpaceStrip(x: string)
    requires SingleSpaced(x) && x != [] && IsSpace(x[0])
    ensures StripLeft(x) == x[1..]
  {
    var tail := x[1..];
    if tail != [] {
      assert x[1] == tail[0];
      assert !IsSpace(tail[0]);
    }
    assert StripLeft(tail) == tail;
  }

  lemma StripFixes(x: string)
    requires Trimmed(x)
    ensures Strip(x) == x
  {
    assert StripLeft(x) == x;
    assert StripRight(x) == x;
  }

  /**
   The texts `preprocess_text` leaves unchanged are exactly the normalised
   ones without capitals.
   */
  lemma {:induction false} PreprocessFixedPoints(x: string)
    ensures Preprocess(x) == x <==> Normalized(x) && NoUpper(x)
  {
    if Normalized(x) && NoUpper(x) {
      LowerFixes(x);
      CollapseFixes(x);
      StripFixes(x);
    }
  }

  /** Lower-casing the input first does not change the normalised text. */
  lemma {:induction false} PreprocessLower(s: string)
    ensures Preprocess(Lower(s)) == Preprocess(s)
  {
    LowerFixes(Lower(s));
  }

  /** `preprocess_text` is idempotent. */
  lemma {:induction false} PreprocessIdempotent(s: string)
    ensures Preprocess(Preprocess(s)) == Preprocess(s)
  {
    PreprocessFixedPoints(Preprocess(s));
  }
}
