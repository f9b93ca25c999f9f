/**
 * Document-frequency weighting (`compute_idf`). The logarithm is the
 * parameter `ln`. As in the code, the frequencies are summed down each column
 * and divided by the number of COLUMNS, not the number of rows.
 */
module Idf {
  import opened Matrix

  /** The incidence indicator `where(tdf > 0, 1, 0)` at column `j` of one row. */
  predicate Occurs(row: seq<real>, j: nat) {
    j < |row| && row[j] > 0.0
  }

  /** `sum(axis=0)` of the incidence matrix at column `j`: the rows that have a positive count there. */
  function DocFreq(rows: seq<seq<real>>, j: nat): (df: nat)
    ensures df <= |rows|
  {
    if rows == [] then 0
    else DocFreq(rows[..|rows| - 1], j) + (if Occurs(rows[|rows| - 1], j) then 1 else 0)
  }

  /** The document frequency of column `j` is the number of rows with a positive entry in that column. */
  lemma {:induction false} DocFreqCountsRows(rows: seq<seq<real>>, j: nat)
    ensures DocFreq(rows, j) == |set i | 0 <= i < |rows| && Occurs(rows[i], j)|
  {
    if rows != [] {
      var n := |rows| - 1;
      var init := rows[..n];
      DocFreqCountsRows(init, j);
      var before := set i | 0 <= i < n && Occurs(init[i], j);
      var after := set i | 0 <= i < |rows| && Occurs(rows[i], j);
      if Occurs(rows[n], j) {
        assert after == before + {n};
      } else {
        assert after == before;
      }
    }
  }

  /** A column positive in every row has document frequency equal to the row count. */
  lemma {:induction false} DocFreqFullColumn(rows: seq<seq<real>>, j: nat)
    requires forall i :: 0 <= i < |rows| ==> Occurs(rows[i], j)
    ensures DocFreq(rows, j) == |rows|
  {
    if rows != [] {
      DocFreqFullColumn(rows[..|rows| - 1], j);
    }
  }

  /** A column positive in no row has document frequency 0. */
  lemma {:induction false} DocFreqEmptyColumn(rows: seq<seq<real>>, j: nat)
    requires forall i :: 0 <= i < |rows| ==> !Occurs(rows[i], j)
    ensures DocFreq(rows, j) == 0
  {
    if rows != [] {
      DocFreqEmptyColumn(rows[..|rows| - 1], j);
    }
  }

  /**
   * Because the division is by the column count, the ratio is not bounded by
   * 1: two rows and one column, both counts positive, give ratio 2.
   */
  lemma RatioCanExceedOne()
    ensures DocFreq([[1.0], [1.0]], 0) as real / 1 as real == 2.0
  {
  }

  /** The ratio is zero exactly when the document frequency is. */
  lemma RatioZero(df: nat, m: nat)
    requires m > 0
    ensures (df as real / m as real == 0.0) <==> df == 0
  {
  }

  /**
   * `compute_idf`: one weight per column of `tdf`. A column no row uses gets
   * exactly 1.0; any other gets 1 + ln(df / number of columns). In particular
   * a column positive in every row of a non-empty table gets
   * 1 + ln(rows / columns), which is 1.0 only for a square table.
   */
  method ComputeIdf(tdf: array2<real>, ln: real -> real) returns (idf: array<real>)
    ensures fresh(idf) && idf.Length == tdf.Length1
    ensures forall j :: 0 <= j < idf.Length ==>
      idf[j] == if DocFreq(Cells(tdf), j) == 0 then 1.0
                else 1.0 + ln(DocFreq(Cells(tdf), j) as real / tdf.Length1 as real)
    ensures forall j :: 0 <= j < idf.Length && (forall i :: 0 <= i < tdf.Length0 ==> tdf[i, j] <= 0.0) ==>
      idf[j] == 1.0
    ensures forall j :: 0 <= j < idf.Length && tdf.Length0 > 0 && (forall i :: 0 <= i < tdf.Length0 ==> tdf[i, j] > 0.0) ==>
      idf[j] == 1.0 + ln(tdf.Length0 as real / tdf.Length1 as real)
  {
    var totalDocuments := tdf.Length1;
    var rows := Cells(tdf);
    // doc_freq / float(total_documents)
    idf := new real[totalDocuments](j requires 0 <= j < totalDocuments =>
      DocFreq(rows, j) as real / totalDocuments as real);
    for i := 0 to totalDocuments
      invariant rows == Cells(tdf)
      invariant forall j :: 0 <= j < i ==>
        idf[j] == if DocFreq(rows, j) == 0 then 1.0 else 1.0 + ln(DocFreq(rows, j) as real / totalDocuments as real)
      invariant forall j :: i <= j < totalDocuments ==> idf[j] == DocFreq(rows, j) as real / totalDocuments as real
    {
      RatioZero(DocFreq(rows, i), totalDocuments);
      if idf[i] == 0.0 {
        idf[i] := 1.0;
      } else {
        idf[i] := 1.0 + ln(idf[i]);
      }
    }
    forall j | 0 <= j < totalDocuments && (forall i :: 0 <= i < tdf.Length0 ==> tdf[i, j] <= 0.0)
      ensures idf[j] == 1.0
    {
      DocFreqEmptyColumn(rows, j);
    }
    forall j | 0 <= j < totalDocuments && tdf.Length0 > 0 && (forall i :: 0 <= i < tdf.Length0 ==> tdf[i, j] > 0.0)
      ensures idf[j] == 1.0 + ln(tdf.Length0 as real / tdf.Length1 as real)
    {
      DocFreqFullColumn(rows, j);
    }
  }
}
