/**
 * The pairwise similarity table (`compute_similarity_matrix`): the diagonal
 * is seeded with 1.0 and each unordered pair of documents is scored once,
 * the score being mirrored across the diagonal.
 */
module SimilarityMatrix {
  import opened Matrix
  import opened Similarity

  /** The pairs (a, b) with a < b < n that the loop has scored before row i: (n-1) + (n-2) + ... over a < i. */
  function PairsBefore(i: nat, n: nat): nat
    requires i <= n
  {
    if i == 0 then 0 else PairsBefore(i - 1, n) + (n - i)
  }

  /** After i rows, twice the counter is i(2n-1-i). */
  lemma {:induction false} PairsBeforeClosedForm(i: nat, n: nat)
    requires i <= n
    ensures 2 * PairsBefore(i, n) == i * (2 * n - 1 - i)
  {
    if i > 0 {
      PairsBeforeClosedForm(i - 1, n);
      assert i * (2 * n - 1 - i) == (i - 1) * (2 * n - 1 - (i - 1)) + 2 * (n - i);
    }
  }

  /** After every row the counter reaches n(n-1)/2, the total the code announces. */
  lemma AllPairsCount(n: nat)
    ensures PairsBefore(n, n) == n * (n - 1) / 2
  {
    PairsBeforeClosedForm(n, n);
  }

  /** The cells (a, b) and (b, a), holding `ab` and `ba`, both hold the score of rows a and b. */
  ghost predicate Scored(rows: seq<seq<real>>, norm: seq<real> -> real, a: nat, b: nat, ab: Float, ba: Float) {
    a < |rows| && b < |rows| && |rows[a]| == |rows[b]| &&
    ab == Cosine(rows[a], rows[b], norm) && ba == ab
  }

  /**
   * The inner loop of `compute_similarity_matrix` for row `i`: scores the
   * pairs (i, j) for i < j < n into both (i, j) and (j, i), counting each.
   * It stops (IndexError) at the first `j` past the last row of `rows`.
   */
  method ScoreRow(simMat: array2<Float>, rows: seq<seq<real>>, norm: seq<real> -> real, i: nat)
    returns (ok: bool, count: nat)
    requires simMat.Length0 == simMat.Length1 && i < simMat.Length0
    requires forall a, b :: 0 <= a < b < |rows| ==> |rows[a]| == |rows[b]|
    modifies simMat
    ensures ok <==> i + 1 == simMat.Length0 || simMat.Length0 <= |rows|
    ensures ok ==> count == simMat.Length0 - 1 - i
    ensures ok ==> forall b :: i < b < simMat.Length0 ==> Scored(rows, norm, i, b, simMat[i, b], simMat[b, i])
    ensures forall a, b :: 0 <= a < simMat.Length0 && 0 <= b < simMat.Length0 && a <= i && b <= i ==>
      simMat[a, b] == old(simMat[a, b])
    ensures forall a, b :: 0 <= a < i && 0 <= b < simMat.Length0 ==>
      simMat[a, b] == old(simMat[a, b]) && simMat[b, a] == old(simMat[b, a])
    ensures forall a, b :: 0 <= a < simMat.Length0 && 0 <= b < simMat.Length0 && a != i && b != i ==>
      simMat[a, b] == old(simMat[a, b])
  {
    var n := simMat.Length0;
    count := 0;
    for j := i + 1 to n
      invariant j > i + 1 ==> j - 1 < |rows|
      invariant count == j - i - 1
      invariant forall b :: i < b < j ==> Scored(rows, norm, i, b, simMat[i, b], simMat[b, i])
      invariant forall a, b :: 0 <= a < n && 0 <= b < n && a <= i && b <= i ==> simMat[a, b] == old(simMat[a, b])
      invariant forall a, b :: 0 <= a < i && 0 <= b < n ==>
        simMat[a, b] == old(simMat[a, b]) && simMat[b, a] == old(simMat[b, a])
      invariant forall a, b :: 0 <= a < n && 0 <= b < n && a != i && b != i ==> simMat[a, b] == old(simMat[a, b])
    {
      if j >= |rows| {
        // tfidf[j] raises IndexError
        return false, count;
      }
      simMat[i, j] := Cosine(rows[i], rows[j], norm);
      simMat[j, i] := simMat[i, j];
      count := count + 1;
    }
    ok := true;
  }

  /**
   * `compute_similarity_matrix`. Fails (IndexError) when there are at least
   * two row labels and fewer rows in `tfidf` than labels. Otherwise the table
   * is n by n for n row labels, its diagonal is exactly 1.0, every pair
   * i < j holds the cosine score of rows i and j, the table is symmetric, and
   * the pair counter reaches n(n-1)/2.
   */
  method ComputeSimilarityMatrix(rownames: seq<string>, tfidf: array2<real>, norm: seq<real> -> real)
    returns (ok: bool, simMat: array2<Float>, comparisons: nat)
    ensures fresh(simMat)
    ensures !ok <==> 2 <= |rownames| && tfidf.Length0 < |rownames|
    ensures ok ==> simMat.Length0 == |rownames| && simMat.Length1 == |rownames|
    ensures ok ==> comparisons == |rownames| * (|rownames| - 1) / 2
    ensures ok ==> forall i :: 0 <= i < |rownames| ==> simMat[i, i] == Finite(1.0)
    ensures ok ==> forall i, j :: 0 <= i < |rownames| && 0 <= j < |rownames| ==> simMat[i, j] == simMat[j, i]
    ensures ok ==> forall i, j :: 0 <= i < |rownames| && 0 <= j < |rownames| && i != j ==>
      simMat[i, j] == Cosine(Cells(tfidf)[i], Cells(tfidf)[j], norm)
  {
    var n := |rownames|;
    var rows := Cells(tfidf);
    // sim_mat = [[0.0 ...] ...]
    simMat := new Float[n, n]((i, j) => Finite(0.0));
    comparisons := 0;
    ok := true;
    for i := 0 to n
      invariant i > 0 && 2 <= n ==> n <= |rows|
      invariant comparisons == PairsBefore(i, n)
      invariant forall a :: 0 <= a < i ==> simMat[a, a] == Finite(1.0)
      invariant forall a, b :: 0 <= a < i && a < b < n ==> Scored(rows, norm, a, b, simMat[a, b], simMat[b, a])
    {
      simMat[i, i] := Finite(1.0);
      var rowOk, count := ScoreRow(simMat, rows, norm, i);
      if !rowOk {
        ok := false;
        return;
      }
      comparisons := comparisons + count;
      forall a, b | 0 <= a <= i && a < b < n
        ensures Scored(rows, norm, a, b, simMat[a, b], simMat[b, a])
      {
      }
    }
    AllPairsCount(n);
    MirroredTable(simMat, rows, norm);
  }

  /** A table filled above the diagonal and mirrored below it is symmetric and scores every pair. */
  lemma MirroredTable(m: array2<Float>, rows: seq<seq<real>>, norm: seq<real> -> real)
    requires m.Length0 == m.Length1
    requires forall a, b :: 0 <= a < b < m.Length0 ==> Scored(rows, norm, a, b, m[a, b], m[b, a])
    ensures m.Length0 >= 2 ==> m.Length0 <= |rows|
    ensures forall a, b :: 0 <= a < m.Length0 && 0 <= b < m.Length0 ==> m[a, b] == m[b, a]
    ensures forall a, b :: 0 <= a < m.Length0 && 0 <= b < m.Length0 && a != b ==>
      |rows[a]| == |rows[b]| && m[a, b] == Cosine(rows[a], rows[b], norm)
  {
    if m.Length0 >= 2 {
      assert Scored(rows, norm, 0, m.Length0 - 1, m[0, m.Length0 - 1], m[m.Length0 - 1, 0]);
    }
    forall a, b | 0 <= a < m.Length0 && 0 <= b < m.Length0 && a != b
      ensures |rows[a]| == |rows[b]| && m[a, b] == Cosine(rows[a], rows[b], norm)
      ensures m[a, b] == m[b, a]
    {
      if a < b {
        assert Scored(rows, norm, a, b, m[a, b], m[b, a]);
      } else {
        assert Scored(rows, norm, b, a, m[b, a], m[a, b]);
        CosineSymmetric(rows[b], rows[a], norm);
      }
    }
  }
}
