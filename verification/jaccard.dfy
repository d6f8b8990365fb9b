/**
 Word-set Jaccard similarity, `jaccard_similarity` in app.py: the two
 texts are split into words, each word list becomes a set, and the score
 is the size of the intersection over the size of the union, or 0 when
 the union is empty. The division is exact over `real`; the percentage
 scaling and rounding done by the caller are not part of this module.
 */
module Jaccard {
  import opened Words

  /** `set(text.split())`. */
  function WordSet(text: string): (ws: set<string>)
    ensures forall w :: w in ws <==> w in Split(text)
  {
    set w | w in Split(text)
  }

  /** The quotient |A ∩ B| / |A ∪ B| of two sets, 0 when the union is empty. */
  function Ratio<T>(a: set<T>, b: set<T>): (r: real)
    ensures 0.0 <= r <= 1.0
    ensures r == 0.0 <==> a * b == {}
    ensures r == 1.0 <==> a == b && a != {}
  {
    IntersectionBound(a, b);
    if |a + b| > 0 then
      var i, u := |a * b| as real, |a + b| as real;
      RatioFacts(i, u);
      i / u
    else
      0.0
  }

  /** `jaccard_similarity(text1, text2)`. */
  function Similarity(text1: string, text2: string): (r: real)
    ensures 0.0 <= r <= 1.0
  {
    Ratio(WordSet(text1), WordSet(text2))
  }

  /**
   The intersection is never larger than the union, and is as large only
   when the two sets are equal.
   */
  lemma IntersectionBound<T>(a: set<T>, b: set<T>)
    ensures |a * b| <= |a + b|
    ensures |a * b| == |a + b| <==> a == b
  {
    if a == b {
      assert a * b == a + b;
    }
    assert |a + b| == |a - b| + |b - a| + |a * b|;
    if |a * b| == |a + b| {
      assert a - b == {};
      assert b - a == {};
      forall x | x in a ensures x in b {
        assert x !in a - b;
      }
      forall x | x in b ensures x in a {
        assert x !in b - a;
      }
    }
  }

  /** Bounds of a quotient of two non-negative reals with the smaller on top. */
  lemma RatioFacts(i: real, u: real)
    requires 0.0 <= i <= u && u > 0.0
    ensures 0.0 <= i / u <= 1.0
    ensures i / u == 0.0 <==> i == 0.0
    ensures i / u == 1.0 <==> i == u
  {
    var r := i / u;
    assert r * u == i;
  }

  /** The score does not depend on the order of the two texts. */
  lemma SimilaritySymmetric(text1: string, text2: string)
    ensures Similarity(text1, text2) == Similarity(text2, text1)
  {
    var a, b := WordSet(text1), WordSet(text2);
    assert a * b == b * a;
    assert a + b == b + a;
  }

  /** Two texts without words score 0. */
  lemma SimilarityNoWords(text1: string, text2: string)
    requires Split(text1) == [] && Split(text2) == []
    ensures Similarity(text1, text2) == 0.0
  {
    assert WordSet(text1) == {};
  }

  /** The score is 1 exactly when both texts have the same non-empty set of words. */
  lemma SimilarityIsOne(text1: string, text2: string)
    ensures Similarity(text1, text2) == 1.0 <==> WordSet(text1) == WordSet(text2) && Split(text1) != []
  {
    if Split(text1) != [] {
      assert Split(text1)[0] in WordSet(text1);
    }
  }

  /**
   The score is 0 exactly when the texts share no word, which covers a
   text without words.
   */
  lemma SimilarityIsZero(text1: string, text2: string)
    ensures Similarity(text1, text2) == 0.0 <==> forall w :: w in Split(text1) ==> w !in Split(text2)
  {
    var a, b := WordSet(text1), WordSet(text2);
    if a * b != {} {
      var w :| w in a * b;
      assert w in Split(text1) && w in Split(text2);
    }
  }

  /** A text compared with itself scores 1 when it has a word. */
  lemma SimilarityReflexive(text: string)
    requires Split(text) != []
    ensures Similarity(text, text) == 1.0
  {
    SimilarityIsOne(text, text);
  }
}
