/** Embeddings as real vectors, with the dot product and the L2 normalisation. */
module Vectors {
  /** An embedding: the float32 vector numpy holds, read as reals. */
  type Embedding = seq<real>

  /** `np.dot` of two one-dimensional arrays of the same length. */
  function Dot(a: Embedding, b: Embedding): real
    requires |a| == |b|
  {
    if |a| == 0 then 0.0 else a[0] * b[0] + Dot(a[1..], b[1..])
  }

  function Scale(a: Embedding, c: real): (r: Embedding)
    ensures |r| == |a|
  {
    if a == [] then [] else [a[0] * c] + Scale(a[1..], c)
  }

  lemma {:induction false} DotOfScaled(a: Embedding, c: real)
    ensures Dot(Scale(a, c), Scale(a, c)) == c * c * Dot(a, a)
  {
    if |a| > 0 {
      DotOfScaled(a[1..], c);
      calc {
        Dot(Scale(a, c), Scale(a, c));
        (a[0] * c) * (a[0] * c) + c * c * Dot(a[1..], a[1..]);
        c * c * (a[0] * a[0] + Dot(a[1..], a[1..]));
      }
    }
  }

  /** `norm` is the Euclidean length of `v` (the square root Dafny's reals lack is supplied). */
  predicate IsNormOf(v: Embedding, norm: real) {
    norm >= 0.0 && norm * norm == Dot(v, v)
  }

  /**
   * sklearn's L2 `normalize` of a single row: divide by the norm, leaving a
   * zero row as it is.
   */
  function Normalize(v: Embedding, norm: real): (r: Embedding)
    requires IsNormOf(v, norm)
    ensures |r| == |v|
  {
    if norm == 0.0 then v else Scale(v, 1.0 / norm)
  }

  /** A normalised non-zero vector has unit length; a zero vector is passed through. */
  lemma NormalizedIsUnit(v: Embedding, norm: real)
    requires IsNormOf(v, norm)
    ensures norm > 0.0 ==> Dot(Normalize(v, norm), Normalize(v, norm)) == 1.0
    ensures norm == 0.0 ==> Normalize(v, norm) == v
  {
    if norm > 0.0 {
      DotOfScaled(v, 1.0 / norm);
      assert (1.0 / norm) * (1.0 / norm) * (norm * norm) == 1.0;
    }
  }
}
