/**
 The plagiarism check of `upload_files` in app.py: every stored text is
 compared with every later one. The doubly nested loop walks all index
 pairs (i, j) and skips those with i >= j, so each unordered pair of
 documents is compared once, with the earlier document as `file1`, in
 lexicographic order of (i, j).

 The cosine score comes from scikit-learn's TF-IDF vectoriser, which is
 not part of this model; it is a function parameter. Both scores are kept
 as exact reals, before the caller's scaling to a rounded percentage.
 */
module Pairs {
  import opened Jaccard

  /** A file name with its normalised text, as kept in `stored_texts`. */
  datatype StoredText = StoredText(filename: string, text: string)

  /** One entry of `plagiarism_results`. */
  datatype Comparison = Comparison(file1: string, file2: string, cosine: real, jaccard: real)

  /** An index pair (i, j) of two stored texts. */
  type Pair = (nat, nat)

  /** Lexicographic order on index pairs. */
  predicate LexLess(p: Pair, q: Pair) {
    p.0 < q.0 || (p.0 == q.0 && p.1 < q.1)
  }

  /** Every element is lexicographically below every later one. */
  predicate StrictlySorted(s: seq<Pair>) {
    forall a, b :: 0 <= a < b < |s| ==> LexLess(s[a], s[b])
  }

  /** The pairs (i, k) with i < k < j, in increasing k: one pass of the inner loop. */
  function Row(i: nat, j: nat): (r: seq<Pair>)
    ensures |r| == if j > i + 1 then j - i - 1 else 0
    ensures forall k :: 0 <= k < |r| ==> r[k] == (i, i + 1 + k)
    decreases j
  {
    if j <= i + 1 then [] else Row(i, j - 1) + [(i, j - 1)]
  }

  /** The pairs the loops have produced once the outer index has reached `i`. */
  function Upto(i: nat, n: nat): (r: seq<Pair>)
    ensures forall k :: 0 <= k < |r| ==> r[k].0 < i && r[k].0 < r[k].1 < n
  {
    if i == 0 then [] else Upto(i - 1, n) + Row(i - 1, n)
  }

  /** All the pairs compared for `n` stored texts, in the order they are compared. */
  function Schedule(n: nat): seq<Pair> {
    Upto(n, n)
  }

  /** The record for the pair (i, j). */
  function Compare(docs: seq<StoredText>, p: Pair, cosine: (string, string) -> real): (c: Comparison)
    requires p.0 < |docs| && p.1 < |docs|
    ensures c.file1 == docs[p.0].filename && c.file2 == docs[p.1].filename
    ensures c.jaccard == Similarity(docs[p.0].text, docs[p.1].text)
    ensures c.cosine == cosine(docs[p.0].text, docs[p.1].text)
    ensures 0.0 <= c.jaccard <= 1.0
  {
    var a, b := docs[p.0], docs[p.1];
    Comparison(a.filename, b.filename, cosine(a.text, b.text), Similarity(a.text, b.text))
  }

  /** Every pair of `ps` indexes two of `n` texts. */
  predicate Indexes(ps: seq<Pair>, n: nat) {
    forall k :: 0 <= k < |ps| ==> ps[k].0 < n && ps[k].1 < n
  }

  /** The records for a list of index pairs, in the same order. */
  function Records(docs: seq<StoredText>, ps: seq<Pair>, cosine: (string, string) -> real): (r: seq<Comparison>)
    requires Indexes(ps, |docs|)
    ensures |r| == |ps|
    ensures forall k :: 0 <= k < |ps| ==> r[k] == Compare(docs, ps[k], cosine)
  {
    seq(|ps|, k requires 0 <= k < |ps| => Compare(docs, ps[k], cosine))
  }

  /** `plagiarism_results` for the stored texts `docs`. */
  function Results(docs: seq<StoredText>, cosine: (string, string) -> real): (r: seq<Comparison>)
    ensures |r| == |Schedule(|docs|)|
    ensures forall k :: 0 <= k < |r| ==>
      var p := Schedule(|docs|)[k];
      p.0 < p.1 < |docs| && r[k] == Compare(docs, p, cosine)
  {
    Records(docs, Schedule(|docs|), cosine)
  }

  /** Appending one pair appends its record. */
  lemma RecordsSnoc(docs: seq<StoredText>, ps: seq<Pair>, p: Pair, cosine: (string, string) -> real)
    requires Indexes(ps, |docs|)
    requires p.0 < |docs| && p.1 < |docs|
    ensures Records(docs, ps + [p], cosine) == Records(docs, ps, cosine) + [Compare(docs, p, cosine)]
  {
  }

  /** The records of two lists of pairs, one after the other. */
  lemma RecordsConcat(docs: seq<StoredText>, ps: seq<Pair>, qs: seq<Pair>, cosine: (string, string) -> real)
    requires Indexes(ps, |docs|) && Indexes(qs, |docs|)
    ensures Indexes(ps + qs, |docs|)
    ensures Records(docs, ps + qs, cosine) == Records(docs, ps, cosine) + Records(docs, qs, cosine)
  {
    var pq := ps + qs;
    forall k | 0 <= k < |pq| ensures pq[k].0 < |docs| && pq[k].1 < |docs| {
      if k < |ps| {
        assert pq[k] == ps[k];
      } else {
        assert pq[k] == qs[k - |ps|];
      }
    }
  }

  /**
   The nested loops of `upload_files`: for every i, the inner loop compares
   text i with every later text, and its records are appended in turn.
   Together they build exactly `Results`.
   */
  method CompareAll(docs: seq<StoredText>, cosine: (string, string) -> real) returns (results: seq<Comparison>)
    ensures results == Results(docs, cosine)
    ensures |results| == |docs| * (|docs| - 1) / 2
  {
    var n := |docs|;
    results := [];
    var i := 0;
    while i < n
      invariant 0 <= i <= n
      invariant results == Records(docs, Upto(i, n), cosine)
    {
      var row := CompareWithLater(docs, i, cosine);
      RecordsConcat(docs, Upto(i, n), Row(i, n), cosine);
      results := results + row;
      i := i + 1;
    }
    ScheduleLength(n);
  }

  /**
   The inner loop of `upload_files` for text i: every j is visited, those
   with i >= j are skipped, and the others are compared with i in
   increasing order.
   */
  method CompareWithLater(docs: seq<StoredText>, i: nat, cosine: (string, string) -> real) returns (row: seq<Comparison>)
    requires i < |docs|
    ensures row == Records(docs, Row(i, |docs|), cosine)
  {
    var n := |docs|;
    row := [];
    var j := 0;
    while j < n
      invariant 0 <= j <= n
      invariant row == Records(docs, Row(i, j), cosine)
    {
      if i >= j {
        assert Row(i, j + 1) == [];
        j := j + 1;
        continue;
      }
      RecordsSnoc(docs, Row(i, j), (i, j), cosine);
      row := row + [Compare(docs, (i, j), cosine)];
      j := j + 1;
    }
  }

  // ----- The schedule: how many pairs, which ones, in what order -----

  /** n texts give n(n-1)/2 comparisons. */
  lemma ScheduleLength(n: nat)
    ensures |Schedule(n)| == n * (n - 1) / 2
  {
    UptoLength(n, n);
  }

  lemma {:induction false} UptoLength(i: nat, n: nat)
    requires i <= n
    ensures 2 * |Upto(i, n)| == i * (2 * n - i - 1)
  {
    if i > 0 {
      UptoLength(i - 1, n);
      assert |Row(i - 1, n)| == n - i;
      assert i * (2 * n - i - 1) == (i - 1) * (2 * n - (i - 1) - 1) + 2 * (n - i);
    }
  }

  /** A pair is compared exactly when its first index is below its second and both are in range. */
  lemma ScheduleMembers(n: nat, i: nat, j: nat)
    ensures (i, j) in Schedule(n) <==> i < j < n
  {
    if i < j < n {
      UptoContains(n, n, i, j);
    }
  }

  lemma {:induction false} UptoContains(i: nat, n: nat, a: nat, b: nat)
    requires a < i && a < b < n
    ensures (a, b) in Upto(i, n)
  {
    if a == i - 1 {
      assert Row(i - 1, n)[b - a - 1] == (a, b);
    } else {
      UptoContains(i - 1, n, a, b);
    }
  }

  /** The comparisons come in strictly increasing lexicographic order of (i, j). */
  lemma ScheduleSorted(n: nat)
    ensures StrictlySorted(Schedule(n))
  {
    UptoSorted(n, n);
  }

  lemma {:induction false} UptoSorted(i: nat, n: nat)
    ensures StrictlySorted(Upto(i, n))
  {
    if i > 0 {
      UptoSorted(i - 1, n);
      var x, y := Upto(i - 1, n), Row(i - 1, n);
      assert StrictlySorted(y);
      SortedConcat(x, y);
    }
  }

  lemma SortedConcat(x: seq<Pair>, y: seq<Pair>)
    requires StrictlySorted(x) && StrictlySorted(y)
    requires forall a, b :: 0 <= a < |x| && 0 <= b < |y| ==> LexLess(x[a], y[b])
    ensures StrictlySorted(x + y)
  {
    var z := x + y;
    forall a, b | 0 <= a < b < |z|
      ensures LexLess(z[a], z[b])
    {
      if b < |x| {
        assert z[a] == x[a] && z[b] == x[b];
      } else if a < |x| {
        assert z[a] == x[a] && z[b] == y[b - |x|];
      } else {
        assert z[a] == y[a - |x|] && z[b] == y[b - |x|];
      }
    }
  }

  /** A strictly sorted list holds each element once. */
  lemma {:induction false} SortedCountsOnce(s: seq<Pair>, p: Pair)
    requires StrictlySorted(s)
    ensures multiset(s)[p] == if p in s then 1 else 0
  {
    if s != [] {
      var t := s[1..];
      assert s == [s[0]] + t;
      assert StrictlySorted(t) by {
        forall a, b | 0 <= a < b < |t| ensures LexLess(t[a], t[b]) {
          assert t[a] == s[a + 1] && t[b] == s[b + 1];
        }
      }
      assert s[0] !in t by {
        forall k | 0 <= k < |t| ensures t[k] != s[0] {
          assert LexLess(s[0], s[k + 1]);
        }
      }
      SortedCountsOnce(t, p);
    }
  }

  /**
   Each unordered pair of distinct documents is compared exactly once, as
   (i, j) with i < j; no document is compared with itself and no pair is
   compared the other way round.
   */
  lemma ScheduleExactlyOnce(n: nat, i: nat, j: nat)
    ensures multiset(Schedule(n))[(i, j)] == if i < j < n then 1 else 0
  {
    ScheduleSorted(n);
    ScheduleMembers(n, i, j);
    SortedCountsOnce(Schedule(n), (i, j));
  }

  // ----- The records -----

  /**
   The results hold n(n-1)/2 records; the k-th compares the texts at the
   k-th scheduled pair (i, j), names `file1` after i and `file2` after j,
   and has a Jaccard score between 0 and 1.
   */
  lemma ResultsShape(docs: seq<StoredText>, cosine: (string, string) -> real)
    ensures |Results(docs, cosine)| == |docs| * (|docs| - 1) / 2
    ensures forall k :: 0 <= k < |Results(docs, cosine)| ==>
      var (i, j) := Schedule(|docs|)[k];
      var c := Results(docs, cosine)[k];
      && i < j < |docs|
      && c.file1 == docs[i].filename && c.file2 == docs[j].filename
      && c.jaccard == Similarity(docs[i].text, docs[j].text)
      && c.cosine == cosine(docs[i].text, docs[j].text)
      && 0.0 <= c.jaccard <= 1.0
  {
    ScheduleLength(|docs|);
  }

  /** For every i < j there is a record comparing document i with document j. */
  lemma ResultsCoverEveryPair(docs: seq<StoredText>, cosine: (string, string) -> real, i: nat, j: nat)
    requires i < j < |docs|
    ensures exists k ::
      && 0 <= k < |Results(docs, cosine)|
      && Schedule(|docs|)[k] == (i, j)
      && Results(docs, cosine)[k] == Compare(docs, (i, j), cosine)
  {
    ScheduleMembers(|docs|, i, j);
    var k :| 0 <= k < |Schedule(|docs|)| && Schedule(|docs|)[k] == (i, j);
    assert Results(docs, cosine)[k] == Compare(docs, (i, j), cosine);
  }
}
