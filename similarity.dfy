/**
 * The two scorers (`compute_similarity`, `compute_similarity_normalized`) at
 * the level of the inner product. The Euclidean norm is the parameter `norm`.
 */
module Similarity {

  /**
   * A float64 result. Dividing by a zero norm gives numpy's inf or nan (with a
   * runtime warning, not a ZeroDivisionError), so it is kept apart from the
   * finite values.
   */
  datatype Float = Finite(value: real) | NonFinite

  /** numpy's `inner(v1, v2)`: the sum of the products of matching entries. */
  function Inner(v1: seq<real>, v2: seq<real>): real
    requires |v1| == |v2|
  {
    if v1 == [] then 0.0 else v1[0] * v2[0] + Inner(v1[1..], v2[1..])
  }

  /** The inner product does not depend on the order of its arguments. */
  lemma {:induction false} InnerSymmetric(v1: seq<real>, v2: seq<real>)
    requires |v1| == |v2|
    ensures Inner(v1, v2) == Inner(v2, v1)
  {
    if v1 != [] {
      InnerSymmetric(v1[1..], v2[1..]);
    }
  }

  /** A zero vector has inner product 0 with every vector. */
  lemma {:induction false} InnerZero(v1: seq<real>, v2: seq<real>)
    requires |v1| == |v2|
    ensures (forall k :: 0 <= k < |v1| ==> v1[k] == 0.0) ==> Inner(v1, v2) == 0.0
  {
    if v1 != [] {
      InnerZero(v1[1..], v2[1..]);
      assert forall k :: 0 <= k < |v1| - 1 ==> v1[1..][k] == v1[k + 1];
    }
  }

  /**
   * `compute_similarity_normalized`: the inner product alone, for vectors
   * assumed to have norm 1. It does not depend on the order of the two
   * documents, and a document with no terms scores 0 against any other.
   */
  function SimilarityNormalized(v1: seq<real>, v2: seq<real>): (r: real)
    requires |v1| == |v2|
    ensures r == Inner(v2, v1)
    ensures (forall k :: 0 <= k < |v1| ==> v1[k] == 0.0) ==> r == 0.0
    ensures (forall k :: 0 <= k < |v2| ==> v2[k] == 0.0) ==> r == 0.0
  {
    InnerSymmetric(v1, v2);
    InnerZero(v1, v2);
    InnerZero(v2, v1);
    Inner(v1, v2)
  }

  /** `compute_similarity`: `inner(v1, v2) / norm(v1) / norm(v2)`. */
  function Cosine(v1: seq<real>, v2: seq<real>, norm: seq<real> -> real): (r: Float)
    requires |v1| == |v2|
    ensures r.NonFinite? <==> norm(v1) == 0.0 || norm(v2) == 0.0
    ensures r.Finite? ==> r.value * norm(v1) * norm(v2) == Inner(v1, v2)
  {
    if norm(v1) == 0.0 || norm(v2) == 0.0 then NonFinite
    else Finite(Inner(v1, v2) / norm(v1) / norm(v2))
  }

  lemma DivideTwice(x: real, a: real, b: real)
    requires a != 0.0 && b != 0.0
    ensures x / a / b == x / (a * b)
  {
  }

  lemma ZeroFactor(a: real, b: real)
    requires b != 0.0 && a * b == 0.0
    ensures a == 0.0
  {
  }

  lemma {:induction false} CosineSymmetric(v1: seq<real>, v2: seq<real>, norm: seq<real> -> real)
    requires |v1| == |v2|
    ensures Cosine(v1, v2, norm) == Cosine(v2, v1, norm)
  {
    InnerSymmetric(v1, v2);
    var n1, n2 := norm(v1), norm(v2);
    if n1 != 0.0 && n2 != 0.0 {
      var x := Inner(v1, v2);
      DivideTwice(x, n1, n2);
      DivideTwice(x, n2, n1);
      assert n1 * n2 == n2 * n1;
    }
  }

  /** A vector whose norm squared is its inner product with itself, and is not zero, has similarity 1 with itself. */
  lemma CosineSelf(v: seq<real>, norm: seq<real> -> real)
    requires norm(v) != 0.0
    requires norm(v) * norm(v) == Inner(v, v)
    ensures Cosine(v, v, norm) == Finite(1.0)
  {
    var n := norm(v);
    var q := Inner(v, v) / n;
    assert q * n == Inner(v, v);
    assert (q - n) * n == 0.0;
    ZeroFactor(q - n, n);
    assert Inner(v, v) / n / n == n / n == 1.0;
  }

  /** For vectors of norm 1 the two scorers agree. */
  lemma CosineOfUnitVectors(v1: seq<real>, v2: seq<real>, norm: seq<real> -> real)
    requires |v1| == |v2|
    requires norm(v1) == 1.0 && norm(v2) == 1.0
    ensures Cosine(v1, v2, norm) == Finite(SimilarityNormalized(v1, v2))
  {
  }

  /** A zero norm reaches no fallback value: the result is not a finite number. */
  lemma CosineOfZeroVector(v1: seq<real>, v2: seq<real>, norm: seq<real> -> real)
    requires |v1| == |v2|
    requires norm(v2) == 0.0
    ensures Cosine(v1, v2, norm) == NonFinite
  {
  }

  /** Two documents with no term in common have similarity 0 under both scorers. */
  lemma DisjointDocuments(norm: seq<real> -> real)
    requires norm([1.0, 0.0]) != 0.0 && norm([0.0, 1.0]) != 0.0
    ensures SimilarityNormalized([1.0, 0.0], [0.0, 1.0]) == 0.0
    ensures Cosine([1.0, 0.0], [0.0, 1.0], norm) == Finite(0.0)
  {
  }
}
