/**
 Whitespace word splitting, as Python's `str.split()` with no separator
 does it: the words are the maximal runs of non-whitespace characters, in
 order; whitespace at either end or repeated between words yields no empty
 word.
 */
module Words {
  import opened Chars

  /** A word is a non-empty string holding no whitespace. */
  predicate IsWord(w: string) {
    |w| > 0 && forall k :: 0 <= k < |w| ==> !IsSpace(w[k])
  }

  /** True when no character of `s` is whitespace. */
  predicate NoSpace(s: string) {
    forall k :: 0 <= k < |s| ==> !IsSpace(s[k])
  }

  /** True when every character of `s` is whitespace. */
  predicate AllSpace(s: string) {
    forall k :: 0 <= k < |s| ==> IsSpace(s[k])
  }

  /** A text is its first `n` characters followed by the rest. */
  lemma TakeDrop(s: string, n: nat)
    requires n <= |s|
    ensures s[..n] + s[n..] == s
  {
  }

  /** Dropping `a` characters, then `b` more, drops `a + b`. */
  lemma DropDrop(s: string, a: nat, b: nat)
    requires a + b <= |s|
    ensures s[a..][b..] == s[a + b..]
  {
  }

  /** Keeping `a` characters, then the first `b` of those, keeps `b`. */
  lemma TakeTake(s: string, a: nat, b: nat)
    requires b <= a <= |s|
    ensures s[..a][..b] == s[..b]
  {
  }

  /** The longest prefix of `s` that holds no whitespace. */
  function Word(s: string): (w: string)
    ensures |w| <= |s| && w == s[..|w|]
    ensures NoSpace(w)
    ensures |w| == |s| || IsSpace(s[|w|])
  {
    if s == [] || IsSpace(s[0]) then [] else [s[0]] + Word(s[1..])
  }

  /** `s.split()`: the maximal non-whitespace runs of `s`, left to right. */
  function Split(s: string): (ws: seq<string>)
    ensures forall k :: 0 <= k < |ws| ==> IsWord(ws[k])
    decreases |s|
  {
    if s == [] then []
    else if IsSpace(s[0]) then Split(s[1..])
    else
      var w := Word(s);
      [w] + Split(s[|w|..])
  }

  /** `sep.join(ws)` for a one-character separator. */
  function Join(ws: seq<string>, sep: char): string {
    if |ws| == 0 then []
    else if |ws| == 1 then ws[0]
    else ws[0] + [sep] + Join(ws[1..], sep)
  }

  /** The concatenation of the words, with nothing between them. */
  function Concat(ws: seq<string>): string {
    if ws == [] then [] else ws[0] + Concat(ws[1..])
  }

  /** The characters of `s` that are not whitespace, in order. */
  function NonSpace(s: string): string {
    if s == [] then []
    else if IsSpace(s[0]) then NonSpace(s[1..])
    else [s[0]] + NonSpace(s[1..])
  }

  /** Splitting a string that holds no word yields no word. */
  lemma {:induction false} SplitAllSpace(s: string)
    requires AllSpace(s)
    ensures Split(s) == []
    decreases |s|
  {
    if s != [] {
      SplitAllSpace(s[1..]);
    }
  }

  /** A string with no whitespace, that is a single word, splits into itself. */
  lemma SplitOneWord(w: string)
    requires IsWord(w)
    ensures Split(w) == [w]
  {
    assert !IsSpace(w[0]);
    var v := Word(w);
    assert |v| == |w|;
    assert v == w[..|w|] == w;
    assert w[|v|..] == [];
    assert Split(w) == [v] + Split(w[|v|..]);
  }

  /** Appending text after a word boundary does not change the first word. */
  lemma {:induction false} WordConcat(a: string, b: string)
    requires |Word(a)| < |a| || b == [] || IsSpace(b[0])
    ensures Word(a + b) == Word(a)
    decreases |a|
  {
    if a == [] {
    } else if IsSpace(a[0]) {
      assert (a + b)[0] == a[0];
    } else {
      assert (a + b)[0] == a[0];
      assert (a + b)[1..] == a[1..] + b;
      WordConcat(a[1..], b);
    }
  }

  /** `a` and `b` meet at whitespace, or one of them is empty. */
  predicate Seam(a: string, b: string) {
    a == [] || b == [] || IsSpace(a[|a| - 1]) || IsSpace(b[0])
  }

  /** A seam after `a` is also a seam after any suffix of `a`. */
  lemma SeamSuffix(a: string, k: nat, b: string)
    requires k <= |a| && Seam(a, b)
    ensures Seam(a[k..], b)
  {
    if k < |a| {
      assert a[k..][|a[k..]| - 1] == a[|a| - 1];
    }
  }

  /**
   Splitting distributes over concatenation when the two halves meet at
   whitespace (or one of them is empty): no word straddles the seam.
   */
  lemma {:induction false} SplitConcat(a: string, b: string)
    requires Seam(a, b)
    ensures Split(a + b) == Split(a) + Split(b)
    decreases |a|
  {
    if a == [] {
      assert a + b == b;
    } else if IsSpace(a[0]) {
      SplitSpaceStep(a, b);
      SeamSuffix(a, 1, b);
      SplitConcat(a[1..], b);
    } else {
      var w := Word(a);
      SeamSuffix(a, |w|, b);
      SplitConcat(a[|w|..], b);
      SplitWordStep(a, b);
    }
  }

  /** One step of `SplitConcat`: a leading space of `a` is skipped in `a + b` too. */
  lemma SplitSpaceStep(a: string, b: string)
    requires a != [] && IsSpace(a[0])
    ensures Split(a + b) == Split(a[1..] + b)
  {
    assert (a + b)[0] == a[0];
    assert (a + b)[1..] == a[1..] + b;
  }

  /** One step of `SplitConcat`: the first word of `a` is also the first word of `a + b`. */
  lemma SplitWordStep(a: string, b: string)
    requires a != [] && !IsSpace(a[0]) && Seam(a, b)
    ensures Split(a + b) == [Word(a)] + Split(a[|Word(a)|..] + b)
    ensures Split(a) == [Word(a)] + Split(a[|Word(a)|..])
  {
    var w := Word(a);
    var ab := a + b;
    assert ab[0] == a[0];
    if |w| == |a| {
      assert !IsSpace(a[|a| - 1]);
    }
    WordConcat(a, b);
    assert ab[|w|..] == a[|w|..] + b;
  }

  /** One whitespace character in front changes no word. */
  lemma SplitConsSpace(c: char, t: string)
    requires IsSpace(c)
    ensures Split([c] + t) == Split(t)
  {
    assert ([c] + t)[1..] == t;
  }

  /** A text that starts with a non-whitespace character has at least one word. */
  lemma SplitStartsWithWord(t: string)
    requires t != [] && !IsSpace(t[0])
    ensures Split(t) != [] && Split(t)[0] == Word(t)
  {
  }

  /** Leading whitespace is invisible to the split. */
  lemma SplitSkipsSpaces(p: string, s: string)
    requires AllSpace(p)
    ensures Split(p + s) == Split(s)
  {
    SplitAllSpace(p);
    SplitConcat(p, s);
  }

  /** Trailing whitespace is invisible to the split. */
  lemma SplitIgnoresTrailingSpaces(s: string, p: string)
    requires AllSpace(p)
    ensures Split(s + p) == Split(s)
  {
    SplitAllSpace(p);
    SplitConcat(s, p);
    assert Split(s) + [] == Split(s);
  }

  /**
   Joining texts with a whitespace separator and splitting the result gives
   the words of each text, in order.
   */
  lemma {:induction false} SplitJoin(ts: seq<string>, sep: char)
    requires IsSpace(sep)
    ensures Split(Join(ts, sep)) == SplitAll(ts)
  {
    if |ts| == 0 {
    } else if |ts| == 1 {
      assert SplitAll(ts) == Split(ts[0]) + SplitAll([]);
    } else {
      var rest := [sep] + Join(ts[1..], sep);
      assert Join(ts, sep) == ts[0] + rest;
      SplitConcat(ts[0], rest);
      SplitSpaceStep(rest, []);
      assert rest[1..] == Join(ts[1..], sep);
      assert rest + [] == rest && rest[1..] + [] == rest[1..];
      SplitJoin(ts[1..], sep);
    }
  }

  /** Words joined by single spaces split back into the same words. */
  lemma JoinSplitRoundTrip(ws: seq<string>)
    requires forall k :: 0 <= k < |ws| ==> IsWord(ws[k])
    ensures Split(Join(ws, ' ')) == ws
  {
    SplitJoin(ws, ' ');
    SplitAllOfWords(ws);
  }

  /** The words of every text of a list, in order. */
  function SplitAll(ts: seq<string>): seq<string> {
    if ts == [] then [] else Split(ts[0]) + SplitAll(ts[1..])
  }

  lemma {:induction false} SplitAllOfWords(ws: seq<string>)
    requires forall k :: 0 <= k < |ws| ==> IsWord(ws[k])
    ensures SplitAll(ws) == ws
  {
    if ws != [] {
      SplitOneWord(ws[0]);
      SplitAllOfWords(ws[1..]);
    }
  }

  lemma {:induction false} NonSpaceConcat(a: string, b: string)
    ensures NonSpace(a + b) == NonSpace(a) + NonSpace(b)
    decreases |a|
  {
    if a == [] {
      assert a + b == b;
    } else {
      assert (a + b)[0] == a[0];
      assert (a + b)[1..] == a[1..] + b;
      NonSpaceConcat(a[1..], b);
    }
  }

  lemma {:induction false} NonSpaceOfNoSpace(s: string)
    requires NoSpace(s)
    ensures NonSpace(s) == s
    decreases |s|
  {
    if s != [] {
      NonSpaceOfNoSpace(s[1..]);
    }
  }

  /**
   The split keeps every non-whitespace character and invents none: laid
   end to end, the words are exactly the non-whitespace characters of `s`.
   */
  lemma {:induction false} SplitKeepsCharacters(s: string)
    ensures Concat(Split(s)) == NonSpace(s)
    decreases |s|
  {
    if s == [] {
    } else if IsSpace(s[0]) {
      SplitKeepsCharacters(s[1..]);
    } else {
      var w := Word(s);
      var rest := s[|w|..];
      TakeDrop(s, |w|);
      SplitKeepsCharacters(rest);
      NonSpaceConcat(w, rest);
      NonSpaceOfNoSpace(w);
      assert Concat([w] + Split(rest)) == w + Concat(Split(rest));
    }
  }
}
