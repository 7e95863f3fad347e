/**
 * `clean_gallery`'s pruning: each embedding of an identity is scored by its
 * mean similarity to the identity's other embeddings, the scores are sorted in
 * descending order by Python's stable sort, and the first `keep_best` are kept.
 */
module Curator {
  import opened Dict
  import opened Vectors
  import opened GalleryStore
  import opened Matching

  /** Every two embeddings of the list have the same length, so `np.dot` accepts each pair. */
  predicate SameDimension(embs: seq<Embedding>) {
    forall i, j :: 0 <= i < |embs| && 0 <= j < |embs| ==> |embs[i]| == |embs[j]|
  }

  /**
   * Scoring the identity raises: it is long enough to be pruned, and two of
   * its embeddings differ in length, so some `np.dot(e1, e2)` raises.
   */
  predicate PruneRaises(embs: seq<Embedding>, keepBest: int) {
    |embs| > keepBest && !SameDimension(embs)
  }

  /** The list without its `i`-th embedding: the others that embedding is compared with. */
  function Others(embs: seq<Embedding>, i: nat): (r: seq<Embedding>)
    requires i < |embs|
    ensures |r| == |embs| - 1
    ensures forall e :: e in r ==> e in embs
  {
    embs[..i] + embs[i + 1..]
  }

  /** The score of the `i`-th embedding: its mean dot product with the others, or 0 when it is alone. */
  function Centrality(embs: seq<Embedding>, i: nat): real
    requires SameDimension(embs) && i < |embs|
  {
    if |embs| > 1 then
      assert forall e :: e in Others(embs, i) ==> |e| == |embs[i]|;
      Mean(Similarities(embs[i], Others(embs, i)))
    else 0.0
  }

  /** One element `(s, e1)` of `sims`, with the embedding named by its position in the list. */
  datatype Scored = Scored(score: real, pos: nat)

  /**
   * `a` comes before `b` after `sims.sort(key=score, reverse=True)`: a higher
   * score, or the same score and an earlier place, since the sort is stable.
   */
  predicate Before(a: Scored, b: Scored) {
    a.score > b.score || (a.score == b.score && a.pos < b.pos)
  }

  predicate SortedDesc(s: seq<Scored>) {
    forall i, j :: 0 <= i < j < |s| ==> Before(s[i], s[j])
  }

  predicate DistinctPositions(s: seq<Scored>) {
    forall i, j :: 0 <= i < j < |s| ==> s[i].pos != s[j].pos
  }

  function Insert(x: Scored, s: seq<Scored>): (r: seq<Scored>)
    ensures multiset(r) == multiset(s) + multiset{x}
  {
    if s == [] then [x]
    else if Before(x, s[0]) then [x] + s
    else
      assert s == [s[0]] + s[1..];
      [s[0]] + Insert(x, s[1..])
  }

  /** The sorted `sims`: the same elements, ordered by `Before`. */
  function SortDesc(s: seq<Scored>): (r: seq<Scored>)
    ensures multiset(r) == multiset(s)
  {
    if s == [] then []
    else
      assert s == [s[0]] + s[1..];
      Insert(s[0], SortDesc(s[1..]))
  }

  lemma {:induction false} InsertSorted(x: Scored, s: seq<Scored>)
    requires SortedDesc(s)
    requires forall y :: y in s ==> y.pos != x.pos
    ensures SortedDesc(Insert(x, s))
  {
    if s != [] && !Before(x, s[0]) {
      var rest := s[1..];
      assert forall y :: y in rest ==> y in s;
      InsertSorted(x, rest);
      var r := Insert(x, rest);
      forall y | y in r ensures Before(s[0], y) {
        assert y in multiset(r);
        if y != x {
          assert y in rest;
        }
      }
      assert Insert(x, s) == [s[0]] + r;
    }
  }

  /** Sorting elements with distinct positions yields them in strictly descending `Before` order. */
  lemma {:induction false} SortDescSorted(s: seq<Scored>)
    requires DistinctPositions(s)
    ensures SortedDesc(SortDesc(s))
  {
    if s != [] {
      var rest := s[1..];
      assert DistinctPositions(rest);
      SortDescSorted(rest);
      forall y | y in SortDesc(rest) ensures y.pos != s[0].pos {
        assert y in multiset(SortDesc(rest));
        var j :| 0 <= j < |rest| && rest[j] == y;
        assert s[j + 1] == y;
      }
      InsertSorted(s[0], SortDesc(rest));
    }
  }

  /** The scores `s` of the identity's embeddings, in list order. */
  function Centralities(embs: seq<Embedding>): (r: seq<real>)
    requires SameDimension(embs)
    ensures |r| == |embs|
    ensures forall i :: 0 <= i < |r| ==> r[i] == Centrality(embs, i)
  {
    seq(|embs|, i requires 0 <= i < |embs| => Centrality(embs, i))
  }

  /** `sims` before the sort: each score paired with its embedding's position. */
  function Scores(scores: seq<real>): (r: seq<Scored>)
    ensures |r| == |scores|
    ensures forall i :: 0 <= i < |r| ==> r[i] == Scored(scores[i], i)
  {
    seq(|scores|, i requires 0 <= i < |scores| => Scored(scores[i], i))
  }

  /** Every element pairs a position with that position's score. */
  predicate ScoresOf(scores: seq<real>, s: seq<Scored>) {
    forall x :: x in s ==> x.pos < |scores| && x.score == scores[x.pos]
  }

  /** `sims` after the sort: every position once, by descending score, ties in list order. */
  function Rank(scores: seq<real>): (r: seq<Scored>)
    ensures |r| == |scores|
    ensures SortedDesc(r)
    ensures ScoresOf(scores, r)
    ensures forall i :: 0 <= i < |scores| ==> Scored(scores[i], i) in r
  {
    var s := Scores(scores);
    var r := SortDesc(s);
    assert |r| == |multiset(r)| == |multiset(s)| == |s|;
    SortDescSorted(s);
    assert forall x :: x in r <==> x in s by {
      forall x ensures x in r <==> x in s {
        assert x in r <==> x in multiset(r);
        assert x in s <==> x in multiset(s);
      }
    }
    assert forall i :: 0 <= i < |scores| ==> s[i] in s;
    r
  }

  /** How many elements `sims[:keep_best]` has: Python slicing, where a negative bound counts from the end. */
  function TakeCount(n: nat, keepBest: int): (m: nat)
    ensures m <= n
    ensures 0 <= keepBest ==> m == if keepBest <= n then keepBest else n
  {
    if keepBest >= 0 then (if keepBest <= n then keepBest else n)
    else if n + keepBest >= 0 then n + keepBest
    else 0
  }

  /** The positions of the embeddings `sims[:keep_best]` keeps, in their new order. */
  function Kept(scores: seq<real>, keepBest: int): (ps: seq<nat>)
    ensures |ps| == TakeCount(|scores|, keepBest)
    ensures forall t :: 0 <= t < |ps| ==> ps[t] == Rank(scores)[t].pos
  {
    var ranked := Rank(scores);
    seq(TakeCount(|ranked|, keepBest), t requires 0 <= t < TakeCount(|ranked|, keepBest) => ranked[t].pos)
  }

  /** The kept positions are positions of the list, each kept once. */
  lemma KeptAreDistinct(scores: seq<real>, keepBest: int)
    ensures forall t :: 0 <= t < |Kept(scores, keepBest)| ==> Kept(scores, keepBest)[t] < |scores|
    ensures forall t, u :: 0 <= t < u < |Kept(scores, keepBest)| ==> Kept(scores, keepBest)[t] != Kept(scores, keepBest)[u]
  {
    var ranked := Rank(scores);
    var ps := Kept(scores, keepBest);
    forall t | 0 <= t < |ps| ensures ps[t] < |scores| {
      assert ranked[t] in ranked;
    }
    forall t, u | 0 <= t < u < |ps| ensures ps[t] != ps[u] {
      assert ranked[t] in ranked && ranked[u] in ranked;
      assert Before(ranked[t], ranked[u]);
    }
  }

  /**
   * Every kept position scores at least as high as every discarded one, and
   * on equal scores the kept one came earlier in the original list.
   */
  lemma KeptBeatDiscarded(scores: seq<real>, keepBest: int, t: int, q: int)
    requires 0 <= t < |Kept(scores, keepBest)| && 0 <= q < |scores|
    requires q !in Kept(scores, keepBest)
    ensures
      var p := Kept(scores, keepBest)[t];
      p < |scores| && (scores[p] > scores[q] || (scores[p] == scores[q] && p < q))
  {
    var ranked := Rank(scores);
    var ps := Kept(scores, keepBest);
    var x := Scored(scores[q], q);
    assert x in ranked;
    var u :| 0 <= u < |ranked| && ranked[u] == x;
    assert forall w :: 0 <= w < |ps| ==> ranked[w].pos == ps[w] != q;
    assert u >= |ps|;
    assert Before(ranked[t], ranked[u]);
    assert ranked[t] in ranked;
  }

  /** The kept embeddings are in descending score order, ties in their original order. */
  lemma KeptInRankOrder(scores: seq<real>, keepBest: int, t: int, u: int)
    requires 0 <= t < u < |Kept(scores, keepBest)|
    ensures
      var p, p' := Kept(scores, keepBest)[t], Kept(scores, keepBest)[u];
      p < |scores| && p' < |scores| && (scores[p] > scores[p'] || (scores[p] == scores[p'] && p < p'))
  {
    var ranked := Rank(scores);
    assert ranked[t] in ranked && ranked[u] in ranked;
    assert Before(ranked[t], ranked[u]);
  }

  /** `self.embeddings[name]` after `clean_gallery(keep_best)`: untouched, or `[e for _, e in sims[:keep_best]]`. */
  function Pruned(embs: seq<Embedding>, keepBest: int): (r: seq<Embedding>)
    requires !PruneRaises(embs, keepBest)
    ensures forall e :: e in r ==> e in embs
  {
    if |embs| <= keepBest then embs
    else
      var ps := Kept(Centralities(embs), keepBest);
      KeptAreDistinct(Centralities(embs), keepBest);
      seq(|ps|, t requires 0 <= t < |ps| => embs[ps[t]])
  }

  /**
   * An identity with at most `keep_best` embeddings is left as it is; a longer
   * one keeps exactly `keep_best` of them (for a non-negative `keep_best`;
   * Python slicing otherwise), each a different entry of the original list.
   */
  lemma PrunedFromOriginal(embs: seq<Embedding>, keepBest: int)
    requires !PruneRaises(embs, keepBest)
    ensures |embs| <= keepBest ==> Pruned(embs, keepBest) == embs
    ensures |embs| > keepBest ==> |Pruned(embs, keepBest)| == TakeCount(|embs|, keepBest)
    ensures 0 <= keepBest < |embs| ==> |Pruned(embs, keepBest)| == keepBest
    ensures |embs| > keepBest ==>
      var ps := Kept(Centralities(embs), keepBest);
      && (forall t :: 0 <= t < |ps| ==> ps[t] < |embs| && Pruned(embs, keepBest)[t] == embs[ps[t]])
      && (forall t, u :: 0 <= t < u < |ps| ==> ps[t] != ps[u])
  {
    if |embs| > keepBest {
      KeptAreDistinct(Centralities(embs), keepBest);
    }
  }

  /** The loop over `enumerate(embs)` that builds `sims`. */
  method ScoreAll(embs: seq<Embedding>) returns (sims: seq<Scored>)
    requires SameDimension(embs)
    ensures sims == Scores(Centralities(embs))
  {
    sims := [];
    var i := 0;
    while i < |embs|
      invariant 0 <= i <= |embs|
      invariant |sims| == i
      invariant forall t :: 0 <= t < i ==> sims[t] == Scored(Centrality(embs, t), t)
    {
      var s := if |embs| > 1 then Centrality(embs, i) else 0.0;
      sims := sims + [Scored(s, i)];
      i := i + 1;
    }
  }

  /** The body of `clean_gallery`'s loop for one identity it prunes: build `sims`, sort it, keep its head. */
  method PruneIdentity(embs: seq<Embedding>, keepBest: int) returns (kept: seq<Embedding>)
    requires |embs| > keepBest && SameDimension(embs)
    ensures kept == Pruned(embs, keepBest)
  {
    var sims := ScoreAll(embs);
    var ranked := SortDesc(sims);
    assert ranked == Rank(Centralities(embs));
    var m := TakeCount(|ranked|, keepBest);
    assert forall t :: 0 <= t < m ==> ranked[t] in ranked;
    kept := seq(m, t requires 0 <= t < m => embs[ranked[t].pos]);
  }

  /** No identity among the first `n` raises while it is pruned. */
  predicate NoRaiseBefore(g: Gallery, keepBest: int, n: nat)
    requires WellFormed(g) && n <= |g.keys|
  {
    forall t :: 0 <= t < n ==> !PruneRaises(g.values[g.keys[t]], keepBest)
  }

  lemma NoRaiseNext(g: Gallery, keepBest: int, n: nat)
    requires WellFormed(g) && n < |g.keys|
    requires NoRaiseBefore(g, keepBest, n) && !PruneRaises(g.values[g.keys[n]], keepBest)
    ensures NoRaiseBefore(g, keepBest, n + 1)
  {
  }

  /** One identity whose scoring raises makes the whole loop raise. */
  lemma RaisesAt(g: Gallery, keepBest: int, n: nat)
    requires WellFormed(g) && n < |g.keys| && PruneRaises(g.values[g.keys[n]], keepBest)
    ensures !NoRaiseBefore(g, keepBest, |g.keys|)
  {
  }

  /** The pruned list of every identity long enough to prune whose scoring does not raise. */
  function Replacements(g: Gallery, keepBest: int): map<string, seq<Embedding>> {
    map k | k in g.values && |g.values[k]| > keepBest && SameDimension(g.values[k]) :: Pruned(g.values[k], keepBest)
  }

  /**
   * The gallery once the loop over the snapshot of its names has handled the
   * first `n`: each identity with more than `keep_best` embeddings is
   * reassigned its pruned list, the others are skipped.
   */
  function PrunedBefore(g: Gallery, keepBest: int, n: nat): (r: Gallery)
    requires WellFormed(g) && n <= |g.keys|
    ensures WellFormed(r) && r.keys == g.keys
  {
    ReplaceFirst(g, Replacements(g, keepBest), n)
  }

  /** `self.embeddings` after a `clean_gallery(keep_best)` that does not raise. */
  function Cleaned(g: Gallery, keepBest: int): (r: Gallery)
    requires WellFormed(g) && NoRaiseBefore(g, keepBest, |g.keys|)
    ensures WellFormed(r) && r.keys == g.keys
  {
    PrunedBefore(g, keepBest, |g.keys|)
  }

  /** Some identity has more than `keep_best` embeddings, so `cleaned` ends above 0. */
  predicate AnyPruned(g: Gallery, keepBest: int) {
    exists k :: k in g.values && |g.values[k]| > keepBest
  }

  /** Some identity among the first `n` has more than `keep_best` embeddings. */
  predicate AnyPrunedBefore(g: Gallery, keepBest: int, n: nat)
    requires WellFormed(g) && n <= |g.keys|
  {
    exists t :: 0 <= t < n && |g.values[g.keys[t]]| > keepBest
  }

  lemma AnyPrunedAll(g: Gallery, keepBest: int)
    requires WellFormed(g)
    ensures AnyPrunedBefore(g, keepBest, |g.keys|) <==> AnyPruned(g, keepBest)
  {
    if AnyPruned(g, keepBest) {
      var k :| k in g.values && |g.values[k]| > keepBest;
      var t :| 0 <= t < |g.keys| && g.keys[t] == k;
    }
  }

  /** The loop's next step: reassign the next identity when it is long enough, skip it otherwise. */
  lemma PrunedBeforeNext(g: Gallery, keepBest: int, n: nat)
    requires WellFormed(g) && n < |g.keys|
    ensures var name := g.keys[n];
      PrunedBefore(g, keepBest, n + 1) ==
        if |g.values[name]| > keepBest && SameDimension(g.values[name])
        then Put(PrunedBefore(g, keepBest, n), name, Pruned(g.values[name], keepBest))
        else PrunedBefore(g, keepBest, n)
  {
  }

  /**
   * The loop of `clean_gallery` over a snapshot of the identities: each one
   * with more than `keep_best` embeddings is reassigned its pruned list and
   * counted in `cleaned`; scoring one whose lengths differ raises, and the
   * identities before it stay pruned.
   */
  method PruneAll(snapshot: Gallery, keepBest: int) returns (raised: bool, g: Gallery, cleaned: nat)
    requires WellFormed(snapshot)
    ensures raised <==> !NoRaiseBefore(snapshot, keepBest, |snapshot.keys|)
    ensures !raised ==> g == Cleaned(snapshot, keepBest)
    ensures !raised ==> (cleaned > 0 <==> AnyPruned(snapshot, keepBest))
    ensures raised ==> exists r ::
      && 0 <= r < |snapshot.keys|
      && NoRaiseBefore(snapshot, keepBest, r)
      && PruneRaises(snapshot.values[snapshot.keys[r]], keepBest)
      && g == PrunedBefore(snapshot, keepBest, r)
  {
    g := snapshot;
    cleaned := 0;
    var i := 0;
    while i < |snapshot.keys|
      invariant 0 <= i <= |snapshot.keys|
      invariant NoRaiseBefore(snapshot, keepBest, i)
      invariant g == PrunedBefore(snapshot, keepBest, i)
      invariant cleaned > 0 <==> AnyPrunedBefore(snapshot, keepBest, i)
    {
      var name := snapshot.keys[i];
      var embs := snapshot.values[name];
      PrunedBeforeNext(snapshot, keepBest, i);
      if |embs| <= keepBest {
        NoRaiseNext(snapshot, keepBest, i);
        i := i + 1;
        continue;
      }
      if !SameDimension(embs) {
        RaisesAt(snapshot, keepBest, i);
        return true, g, cleaned;
      }
      NoRaiseNext(snapshot, keepBest, i);
      var kept := PruneIdentity(embs, keepBest);
      g := Put(g, name, kept);
      cleaned := cleaned + 1;
      i := i + 1;
    }
    raised := false;
    AnyPrunedAll(snapshot, keepBest);
  }

  /** Each of the first `n` identities holds its pruned list, the rest their original one. */
  lemma PrunedBeforeValues(g: Gallery, keepBest: int, n: nat)
    requires WellFormed(g) && n <= |g.keys| && NoRaiseBefore(g, keepBest, n)
    ensures forall t :: 0 <= t < |g.keys| ==>
      PrunedBefore(g, keepBest, n).values[g.keys[t]] ==
        if t < n then Pruned(g.values[g.keys[t]], keepBest) else g.values[g.keys[t]]
  {
    var repl := Replacements(g, keepBest);
    ReplaceFirstValues(g, repl, n);
    forall t | 0 <= t < n && g.keys[t] !in repl ensures Pruned(g.values[g.keys[t]], keepBest) == g.values[g.keys[t]] {
      assert !PruneRaises(g.values[g.keys[t]], keepBest);
    }
  }

  /** A gallery none of whose first `n` identities is long enough to prune comes out unchanged. */
  lemma {:induction false} NothingToPrune(g: Gallery, keepBest: int, n: nat)
    requires WellFormed(g) && n <= |g.keys|
    requires forall t :: 0 <= t < n ==> |g.values[g.keys[t]]| <= keepBest
    ensures NoRaiseBefore(g, keepBest, n) && PrunedBefore(g, keepBest, n) == g
  {
    if n > 0 {
      NothingToPrune(g, keepBest, n - 1);
    }
  }

  /** With `keep_best` >= 1 a non-empty list of valid entries stays non-empty and valid. */
  lemma PrunedStaysValid(embs: seq<Embedding>, keepBest: int)
    requires !PruneRaises(embs, keepBest) && keepBest >= 1
    requires embs != [] && forall i :: 0 <= i < |embs| ==> |embs[i]| >= MinDimension
    ensures Pruned(embs, keepBest) != []
    ensures forall i :: 0 <= i < |Pruned(embs, keepBest)| ==> |Pruned(embs, keepBest)[i]| >= MinDimension
  {
    PrunedFromOriginal(embs, keepBest);
    if |embs| > keepBest {
      var ps := Kept(Centralities(embs), keepBest);
      forall i | 0 <= i < |Pruned(embs, keepBest)| ensures |Pruned(embs, keepBest)[i]| >= MinDimension {
        assert Pruned(embs, keepBest)[i] == embs[ps[i]];
      }
    }
  }

  /**
   * With `keep_best` >= 1 cleaning keeps each identity non-empty and made of
   * valid entries, so the cleaned gallery still saves and loads back unchanged.
   */
  lemma CleanedStaysStorable(g: Gallery, keepBest: int)
    requires WellFormed(g) && NoRaiseBefore(g, keepBest, |g.keys|)
    requires Storable(g) && keepBest >= 1
    ensures Storable(Cleaned(g, keepBest))
  {
    var r := Cleaned(g, keepBest);
    PrunedBeforeValues(g, keepBest, |g.keys|);
    forall k | k in r.values
      ensures r.values[k] != [] && forall i :: 0 <= i < |r.values[k]| ==> |r.values[k][i]| >= MinDimension
    {
      var t :| 0 <= t < |g.keys| && g.keys[t] == k;
      PrunedStaysValid(g.values[k], keepBest);
    }
  }

  /** A second `clean_gallery` with the same non-negative `keep_best` prunes nothing and changes nothing. */
  lemma CleanIsIdempotent(g: Gallery, keepBest: int)
    requires WellFormed(g) && NoRaiseBefore(g, keepBest, |g.keys|) && keepBest >= 0
    ensures !AnyPruned(Cleaned(g, keepBest), keepBest)
    ensures NoRaiseBefore(Cleaned(g, keepBest), keepBest, |g.keys|)
    ensures Cleaned(Cleaned(g, keepBest), keepBest) == Cleaned(g, keepBest)
  {
    var r := Cleaned(g, keepBest);
    PrunedBeforeValues(g, keepBest, |g.keys|);
    forall t | 0 <= t < |r.keys| ensures |r.values[r.keys[t]]| <= keepBest {
      PrunedFromOriginal(g.values[g.keys[t]], keepBest);
    }
    NothingToPrune(r, keepBest, |r.keys|);
  }
}
