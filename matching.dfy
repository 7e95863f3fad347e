/** The similarity `_match_face` gives an identity: the mean dot product with its same-shape embeddings. */
module Matching {
  import opened Vectors
  import opened Dict
  import opened GalleryStore

  /** The embeddings of the list that have the query's length, in order. */
  function SameShape(q: Embedding, embs: seq<Embedding>): (r: seq<Embedding>)
    ensures |r| <= |embs|
    ensures forall e :: e in r ==> |e| == |q| && e in embs
  {
    if embs == [] then []
    else (if |embs[0]| == |q| then [embs[0]] else []) + SameShape(q, embs[1..])
  }

  /** The dot product of the query with each embedding, in order; all have the query's length. */
  function Similarities(q: Embedding, embs: seq<Embedding>): (r: seq<real>)
    requires forall e :: e in embs ==> |e| == |q|
    ensures |r| == |embs|
  {
    if embs == [] then [] else [Dot(q, embs[0])] + Similarities(q, embs[1..])
  }

  function Sum(xs: seq<real>): real {
    if xs == [] then 0.0 else xs[0] + Sum(xs[1..])
  }

  /** The arithmetic mean of a non-empty list. */
  function Mean(xs: seq<real>): real
    requires xs != []
  {
    Sum(xs) / |xs| as real
  }

  /** The mean similarity of the query to an identity's same-length embeddings, of which there is at least one. */
  function MeanSimilarity(q: Embedding, embs: seq<Embedding>): real
    requires SameShape(q, embs) != []
  {
    Mean(Similarities(q, SameShape(q, embs)))
  }

  /** The `i`-th identity of `g` has an embedding of the query's shape, so it gets a score. */
  predicate Scorable(g: Gallery, q: Embedding, i: int)
    requires WellFormed(g)
  {
    0 <= i < |g.keys| && SameShape(q, g.values[g.keys[i]]) != []
  }

  /** The score of the `i`-th identity of `g`. */
  function Score(g: Gallery, q: Embedding, i: int): real
    requires WellFormed(g) && Scorable(g, q, i)
  {
    MeanSimilarity(q, g.values[g.keys[i]])
  }

  lemma {:induction false} SumBounded(xs: seq<real>, b: real)
    requires forall i :: 0 <= i < |xs| ==> xs[i] <= b
    ensures Sum(xs) <= |xs| as real * b
  {
    if xs != [] {
      var rest := xs[1..];
      SumBounded(rest, b);
      var m := |rest| as real;
      assert xs[0] <= b;
      assert Sum(rest) <= m * b;
      calc {
        Sum(xs);
      ==
        xs[0] + Sum(rest);
      <=
        b + m * b;
      ==
        (m + 1.0) * b;
      }
    }
  }

  lemma DivideBound(sum: real, n: real, b: real)
    requires n > 0.0 && sum <= n * b
    ensures sum / n <= b
  {
    assert sum / n <= (n * b) / n;
  }

  /** The mean of values that are all at most `b` is at most `b`. */
  lemma MeanBounded(xs: seq<real>, b: real)
    requires xs != []
    requires forall i :: 0 <= i < |xs| ==> xs[i] <= b
    ensures Mean(xs) <= b
  {
    SumBounded(xs, b);
    DivideBound(Sum(xs), |xs| as real, b);
  }

  lemma {:induction false} SimilaritiesBounded(q: Embedding, embs: seq<Embedding>, b: real)
    requires forall e :: e in embs ==> |e| == |q| && Dot(q, e) <= b
    ensures forall i :: 0 <= i < |embs| ==> Similarities(q, embs)[i] <= b
  {
    if embs != [] {
      assert forall e :: e in embs[1..] ==> e in embs;
      SimilaritiesBounded(q, embs[1..], b);
      assert embs[0] in embs;
    }
  }

  /**
   * An identity none of whose same-shape embeddings is more than `b` similar
   * to the query scores at most `b`.
   */
  lemma MeanSimilarityBounded(q: Embedding, embs: seq<Embedding>, b: real)
    requires SameShape(q, embs) != []
    requires forall e :: e in embs && |e| == |q| ==> Dot(q, e) <= b
    ensures MeanSimilarity(q, embs) <= b
  {
    var s := SameShape(q, embs);
    SimilaritiesBounded(q, s, b);
    MeanBounded(Similarities(q, s), b);
  }

  /**
   * `_match_face`'s loop after the first `i` identities: `best` is at least
   * every score so far; `w` is -1 with `best` 0 when none was positive, and
   * otherwise the first identity whose score `best` is.
   */
  predicate Leading(g: Gallery, q: Embedding, i: nat, w: int, best: real)
    requires WellFormed(g) && i <= |g.keys|
  {
    && best >= 0.0
    && (forall t :: 0 <= t < i && Scorable(g, q, t) ==> Score(g, q, t) <= best)
    && (w == -1 ==> best == 0.0)
    && (w != -1 ==>
      && 0 <= w < i
      && Scorable(g, q, w)
      && Score(g, q, w) == best > 0.0
      && forall u :: 0 <= u < w && Scorable(g, q, u) ==> Score(g, q, u) < best)
  }

  lemma LeadingStart(g: Gallery, q: Embedding)
    requires WellFormed(g)
    ensures Leading(g, q, 0, -1, 0.0)
  {
  }

  /** An identity that is not scorable, or scores no more than the best so far, changes nothing. */
  lemma LeadingSkip(g: Gallery, q: Embedding, i: nat, w: int, best: real)
    requires WellFormed(g) && i < |g.keys| && Leading(g, q, i, w, best)
    requires Scorable(g, q, i) ==> Score(g, q, i) <= best
    ensures Leading(g, q, i + 1, w, best)
  {
    forall t | 0 <= t < i + 1 && Scorable(g, q, t) ensures Score(g, q, t) <= best {
      if t < i {
        assert Score(g, q, t) <= best;
      }
    }
  }

  /** An identity that scores strictly more than the best so far becomes the leader. */
  lemma LeadingTake(g: Gallery, q: Embedding, i: nat, w: int, best: real)
    requires WellFormed(g) && i < |g.keys| && Leading(g, q, i, w, best)
    requires Scorable(g, q, i) && Score(g, q, i) > best
    ensures Leading(g, q, i + 1, i, Score(g, q, i))
  {
    var s := Score(g, q, i);
    forall t | 0 <= t < i + 1 && Scorable(g, q, t) ensures Score(g, q, t) <= s {
      if t < i {
        assert Score(g, q, t) <= best;
      }
    }
    forall u | 0 <= u < i && Scorable(g, q, u) ensures Score(g, q, u) < s {
      assert Score(g, q, u) <= best;
    }
  }

  /**
   * After the whole gallery the best is the highest score of all, and when it
   * is positive it is the score of `w`, the first identity to reach it.
   */
  lemma LeadingAll(g: Gallery, q: Embedding, w: int, best: real)
    requires WellFormed(g) && Leading(g, q, |g.keys|, w, best)
    ensures best >= 0.0
    ensures forall t :: Scorable(g, q, t) ==> Score(g, q, t) <= best
    ensures best > 0.0 ==>
      && Scorable(g, q, w)
      && Score(g, q, w) == best
      && forall u :: 0 <= u < w && Scorable(g, q, u) ==> Score(g, q, u) < best
  {
  }
}
