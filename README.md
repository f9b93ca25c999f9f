# TF-IDF and cosine-similarity pipeline, modelled in Dafny

This project models the numeric pipeline of `similarity.py`, which turns a
term-document count table into TF-IDF weights and a table of pairwise
cosine similarities between documents:

- `load_tdf` — reads the tab-delimited table (header of column labels, then
  one line per row: a label followed by counts), modelled from the list of
  lines already read (`TableLoader`);
- `compute_idf` — document frequency per column and its logarithmic weight
  (`Idf`);
- `compute_tf_idf_matrix` — a copy of the count matrix with each row
  multiplied element-wise by the weight vector (`TfIdf`);
- `compute_similarity` and `compute_similarity_normalized` — the two scorers,
  at the level of the inner product (`Similarity`);
- `compute_similarity_matrix` — the n×n table: diagonal seeded with 1.0, each
  unordered pair scored once and mirrored (`SimilarityMatrix`).

Real-number maths the code delegates to libraries stays abstract and is
passed in as a function parameter: `ln` for `math.log`, `norm` for
`linalg.norm`, and `parse` for `float()` (returning `None` where `float()`
raises `ValueError`). numpy 2-D arrays that the code fills or rewrites in
place are Dafny `array2`s; `Matrix.Cells` reads one back as its rows.
Division of a float64 by a zero norm is kept apart as `Similarity.Float.NonFinite`.

Behaviour of the code that the model keeps:

- Division by a zero norm in `compute_similarity` yields inf or nan with a
  runtime warning; it does not raise `ZeroDivisionError`, so the
  `except ZeroDivisionError` branches (similarity.py:59-60, 69-70) are never
  taken and no score falls back to 1.0 (`CosineOfZeroVector`). Vectors of
  different lengths make `inner` raise `ValueError`, which nothing catches; the
  scorers therefore require vectors of equal length.
- `compute_idf` divides the document frequency by `shape(tdf)[1]`, the number
  of columns (similarity.py:28, 31). When a table has more rows than columns
  the ratio can exceed 1: it does for a column positive in more rows than
  there are columns (`RatioCanExceedOne`). A column positive in every row gets
  weight 1 + ln(rows/columns), which is 1.0 only for a square table
  (`ComputeIdf`).
- `tdf[i]*idf` in `compute_tf_idf_matrix` follows numpy broadcasting: a weight
  vector as long as the row or of length 1 is accepted, any other length
  raises, and a table with no rows never multiplies at all.
- `compute_similarity_matrix` raises `IndexError` only when there are at
  least two row labels and fewer TF-IDF rows than labels; it has no other
  error path. The pair counter `k`, local in the code, is returned as
  `comparisons` so that its final value can be stated.

## Model

| member | source | states |
|---|---|---|
| `TableLoader.Strip` | similarity.py:14 | the result of `strip()` is no longer than the line, neither starts nor ends with whitespace, and is empty exactly when the line is all whitespace |
| `TableLoader.StripSlice` | similarity.py:14 | the result of `strip()` is the slice of the line starting after its leading whitespace (`StripStart`), and every character cut off before or after that slice is whitespace |
| `TableLoader.StripIdempotent` | similarity.py:18 | stripping an already stripped line changes nothing |
| `TableLoader.Split` | similarity.py:18 | `split('\t')` yields at least one field and no field contains a tab |
| `TableLoader.JoinSplit` | similarity.py:18 | joining the split fields with tabs gives back the stripped line |
| `TableLoader.SplitJoin` | similarity.py:18 | splitting a tab-join of tab-free fields gives back exactly those fields |
| `TableLoader.ParseFloats` | similarity.py:22 | `[float(x) for x in p[1:]]` succeeds exactly when every field parses, and then yields one value per field, in order |
| `TableLoader.ParseBody` | similarity.py:17-22 | the loop over data lines yields one row label and one data row per line, or fails at the index of one of the lines |
| `TableLoader.ParseBodySuccess` | similarity.py:17-22 | the loop over data lines succeeds exactly when every line parses, giving one row label and one data row per line, in order |
| `TableLoader.ParseBodyFirstFailure` | similarity.py:17-22 | a failing loop stops at the first line whose fields do not all parse |
| `TableLoader.ParseTable` | similarity.py:12-23 | `load_tdf` raises IndexError exactly when there are no lines; a result has one row label and one data row per line after the header; a `float()` error names a line after the header |
| `TableLoader.LoadTdfMeaning` | similarity.py:12-23 | no lines: no header (IndexError); otherwise column labels are the header's fields minus the first, row k's label is line k+1's first field and its data are line k+1's other fields parsed, or the failure names the first bad line |
| `TableLoader.LoadTdf` | similarity.py:10-23 | the appending loop returns exactly the table (or error) described by `ParseTable` |
| `Idf.DocFreq` | similarity.py:29-30 | the column sum of the incidence matrix lies between 0 and the number of rows |
| `Idf.DocFreqCountsRows` | similarity.py:29-30 | a column's document frequency is the number of rows with a positive entry in that column |
| `Idf.DocFreqFullColumn` | similarity.py:29-30 | a column positive in every row has document frequency equal to the row count |
| `Idf.DocFreqEmptyColumn` | similarity.py:29-30 | a column positive in no row has document frequency 0 |
| `Idf.RatioZero` | similarity.py:31-33 | the ratio `doc_freq / total_documents` is 0 exactly when the document frequency is 0 |
| `Idf.RatioCanExceedOne` | similarity.py:28-31 | dividing by the column count lets the ratio reach 2 for two rows and one column |
| `Idf.ComputeIdf` | similarity.py:25-37 | one weight per column; exactly 1.0 when no row uses the column, otherwise 1 + ln(df / number of columns); so a column positive in every row of a non-empty table gets 1 + ln(rows / columns); input untouched |
| `TfIdf.Scale` | similarity.py:43-44 | the row-by-row product keeps the shape and each cell is count × its column's (broadcast) weight |
| `TfIdf.ScaleByOnes` | similarity.py:43-44 | with an all-ones weight vector the TF-IDF matrix equals the count matrix |
| `TfIdf.ComputeTfIdfMatrix` | similarity.py:39-45 | fails exactly when some row exists and the weights do not broadcast; otherwise a fresh matrix equal to `Scale` of the input, which is left unchanged |
| `Similarity.InnerSymmetric` | similarity.py:58 | the inner product does not depend on the order of its arguments |
| `Similarity.InnerZero` | similarity.py:58 | a vector of zeros has inner product 0 with every vector of its length |
| `Similarity.SimilarityNormalized` | similarity.py:63-71 | `compute_similarity_normalized` is the inner product with the arguments in either order (so it is symmetric), and is 0 when either document has no terms |
| `Similarity.Cosine` | similarity.py:53-61 | non-finite exactly when a norm is zero; otherwise the score times both norms is the inner product |
| `Similarity.CosineSymmetric` | similarity.py:53-61 | `compute_similarity(v1, v2) == compute_similarity(v2, v1)` for all vectors of equal length |
| `Similarity.CosineSelf` | similarity.py:53-61 | a vector of non-zero norm whose squared norm is its inner product with itself scores exactly 1.0 against itself |
| `Similarity.CosineOfUnitVectors` | similarity.py:53-71 | for vectors of norm 1 the two scorers agree |
| `Similarity.CosineOfZeroVector` | similarity.py:57-60 | a zero norm does not reach the 1.0 fallback: the result is non-finite |
| `Similarity.DisjointDocuments` | similarity.py:53-71 | documents `[1, 0]` and `[0, 1]` score 0 under both scorers |
| `SimilarityMatrix.PairsBeforeClosedForm` | similarity.py:79-85 | after i rows the counter has counted i(2n-1-i)/2 pairs |
| `SimilarityMatrix.AllPairsCount` | similarity.py:77 | after all rows the counter equals n(n-1)/2, the announced total |
| `SimilarityMatrix.ScoreRow` | similarity.py:81-85 | the inner loop scores every pair (i, j), j > i, into both (i, j) and (j, i), counts each once, leaves every cell outside row and column i and every cell (a, b) with a, b ≤ i unchanged, and fails exactly when a needed row is missing |
| `SimilarityMatrix.MirroredTable` | similarity.py:82-84 | a table scored above the diagonal and mirrored below is symmetric and holds the score of every off-diagonal pair |
| `SimilarityMatrix.ComputeSimilarityMatrix` | similarity.py:73-89 | an n×n table for n row labels with diagonal exactly 1.0, `sim[i][j] == compute_similarity(tfidf[i], tfidf[j])` for every i ≠ j, symmetric, every cell written, n(n-1)/2 comparisons; fails exactly when at least two labels have fewer rows than labels |

## Left out

- `normalize_tf_idf` (similarity.py:47-51): rests on the Euclidean norm's square root and divides by a zero norm unguarded; floating point is not modelled.
- The values of `math.log`, `linalg.norm` and `float()`: they are parameters, so no property depends on them; float64 rounding is not modelled (cells are exact reals).
- The `except ZeroDivisionError` fallbacks (similarity.py:59-60, 69-70): numpy division by zero does not raise, so they are unreachable and the model has no 1.0 fallback.
- The conversion `matrix(data)` at the end of `load_tdf`: the model returns the data rows as sequences and does not check that they have equal length.
- `compute_idf` returns a 1×M numpy matrix; the model returns its single row as an array of M weights.
- `write_similarity` (similarity.py:91-105) and `main` (similarity.py:107-125): file output and driver code.
- `clusters.kcluster`: an external module; it is not part of this model.
- The progress messages (similarity.py:86-88) and opening the input file (similarity.py:12): output and I/O.
- `SimilarityMatrix.ComputeSimilarityMatrix`: the inner loop is a separate method, `ScoreRow`, and on failure the partly filled table is returned with `ok == false` (the code raises and nothing is returned).
- `Similarity.Cosine`: requires vectors of equal length. In the code, vectors of different lengths make `inner` raise a `ValueError` that nothing catches; the model has no such error path, since every caller passes two rows of one matrix.
- `Similarity.SimilarityNormalized`: requires vectors of equal length, for the same reason as `Cosine`: the code's uncaught `ValueError` from `inner` is not modelled.
- `Similarity.CosineSelf`: the norm is abstract, so self-similarity 1.0 is proved for vectors whose norm squared equals their inner product with themselves, which is what `linalg.norm` promises, rather than for every non-zero vector.
