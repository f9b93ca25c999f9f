/**
 * TF-IDF weighting (`compute_tf_idf_matrix`): a copy of the count matrix whose
 * rows are multiplied, element by element, by the weight vector. numpy
 * broadcasting accepts a weight vector as long as the row or of length 1.
 */
module TfIdf {
  import opened Matrix

  /** numpy can broadcast a weight vector of length `|w|` against a row of length `m`. */
  predicate Broadcastable(w: seq<real>, m: nat) {
    |w| == m || |w| == 1
  }

  /** The weight broadcast onto column `j`. */
  function WeightAt(w: seq<real>, j: nat): real
    requires |w| == 1 || j < |w|
  {
    if |w| == 1 then w[0] else w[j]
  }

  /** `row * idf`. */
  function ScaleRow(row: seq<real>, w: seq<real>): seq<real>
    requires Broadcastable(w, |row|)
  {
    seq(|row|, j requires 0 <= j < |row| => row[j] * WeightAt(w, j))
  }

  /** Every row multiplied by the weights, one row after another as the loop does it. */
  function Scale(rows: seq<seq<real>>, w: seq<real>): (r: seq<seq<real>>)
    requires forall i :: 0 <= i < |rows| ==> |w| == |rows[i]| || |w| == 1
    ensures |r| == |rows|
    ensures forall i :: 0 <= i < |rows| ==> |r[i]| == |rows[i]|
    ensures forall i, j :: 0 <= i < |rows| && 0 <= j < |rows[i]| ==> r[i][j] == rows[i][j] * WeightAt(w, j)
  {
    if rows == [] then []
    else Scale(rows[..|rows| - 1], w) + [ScaleRow(rows[|rows| - 1], w)]
  }

  /** With an all-ones weight vector the TF-IDF matrix is the count matrix. */
  lemma ScaleByOnes(rows: seq<seq<real>>, w: seq<real>)
    requires forall i :: 0 <= i < |rows| ==> |w| == |rows[i]| || |w| == 1
    requires forall j :: 0 <= j < |w| ==> w[j] == 1.0
    ensures Scale(rows, w) == rows
  {
    var r := Scale(rows, w);
    forall i | 0 <= i < |rows| ensures r[i] == rows[i] {
      forall j | 0 <= j < |rows[i]| ensures r[i][j] == rows[i][j] {
        assert WeightAt(w, j) == 1.0;
      }
    }
  }

  /**
   * `compute_tf_idf_matrix`: fails (numpy's broadcast error) when some row
   * exists and the weights do not broadcast against it; otherwise every cell
   * of the copy is the count times its column's weight, and the input is
   * left as it was.
   */
  method ComputeTfIdfMatrix(tdf: array2<real>, idf: array<real>) returns (ok: bool, tfidf: array2<real>)
    ensures fresh(tfidf)
    ensures ok <==> tdf.Length0 == 0 || Broadcastable(idf[..], tdf.Length1)
    ensures ok ==> Cells(tfidf) == Scale(Cells(tdf), idf[..])
  {
    var n, m := tdf.Length0, tdf.Length1;
    var w := idf[..];
    // tdf = array(tdf)
    tfidf := new real[n, m]((i, j) requires 0 <= i < n && 0 <= j < m reads tdf => tdf[i, j]);
    ok := true;
    for i := 0 to n
      invariant i > 0 ==> Broadcastable(w, m)
      invariant forall a, b :: 0 <= a < i && 0 <= b < m ==> tfidf[a, b] == tdf[a, b] * WeightAt(w, b)
      invariant forall a, b :: i <= a < n && 0 <= b < m ==> tfidf[a, b] == tdf[a, b]
    {
      if !Broadcastable(w, m) {
        ok := false;
        return;
      }
      for j := 0 to m
        invariant forall a, b :: 0 <= a < i && 0 <= b < m ==> tfidf[a, b] == tdf[a, b] * WeightAt(w, b)
        invariant forall b :: 0 <= b < j ==> tfidf[i, b] == tdf[i, b] * WeightAt(w, b)
        invariant forall a, b :: i < a < n && 0 <= b < m ==> tfidf[a, b] == tdf[a, b]
        invariant forall b :: j <= b < m ==> tfidf[i, b] == tdf[i, b]
      {
        tfidf[i, j] := tfidf[i, j] * WeightAt(w, j);
      }
    }
    ScaledCells(tdf, tfidf, w);
  }

  lemma ScaledCells(tdf: array2<real>, tfidf: array2<real>, w: seq<real>)
    requires tfidf.Length0 == tdf.Length0 && tfidf.Length1 == tdf.Length1
    requires tdf.Length0 > 0 ==> Broadcastable(w, tdf.Length1)
    requires forall a, b :: 0 <= a < tdf.Length0 && 0 <= b < tdf.Length1 ==> tfidf[a, b] == tdf[a, b] * WeightAt(w, b)
    ensures Cells(tfidf) == Scale(Cells(tdf), w)
  {
    var want := Scale(Cells(tdf), w);
    var got := Cells(tfidf);
    forall a | 0 <= a < tdf.Length0 ensures got[a] == want[a] {
      assert forall b :: 0 <= b < tdf.Length1 ==> got[a][b] == want[a][b];
    }
  }
}
