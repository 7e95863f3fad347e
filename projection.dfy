/**
 * The projection model: the guards `_retrain_pca` applies before fitting a
 * PCA on the gallery, and the gates `get_embedding` puts around the
 * extraction backend, the normalisation and the PCA transform. The PCA
 * numerics themselves are a parameter.
 */
module Projection {
  import opened Wrappers
  import opened Vectors
  import opened GalleryStore
  import opened Crop

  /** A fitted PCA: `(x - mean_) @ components_.T` projects `x`. */
  datatype LinearMap = LinearMap(mean: Embedding, components: seq<Embedding>)

  /**
   * `self.pca` when it is not `None`: a `PCA(n_components=nComponents)` object,
   * with its fitted map when `fit` succeeded.
   */
  datatype Pca = Pca(nComponents: nat, fitted: Option<LinearMap>)

  /** The PCA transform succeeds on `x`: a fitted model whose input length is `|x|`. */
  predicate Applies(pca: Option<Pca>, x: Embedding) {
    && pca.Some? && pca.value.fitted.Some?
    && |pca.value.fitted.value.mean| == |x|
    && forall c :: c in pca.value.fitted.value.components ==> |c| == |x|
  }

  function Minus(a: Embedding, b: Embedding): (r: Embedding)
    requires |a| == |b|
    ensures |r| == |a|
  {
    seq(|a|, i requires 0 <= i < |a| => a[i] - b[i])
  }

  /** The projection of `x` by a fitted model of matching width, or `x` itself when the transform raises and the error is swallowed. */
  function Transform(pca: Option<Pca>, x: Embedding): (r: Embedding)
    ensures Applies(pca, x) ==> |r| == |pca.value.fitted.value.components|
    ensures !Applies(pca, x) ==> r == x
  {
    if Applies(pca, x) then
      var m := pca.value.fitted.value;
      seq(|m.components|, i requires 0 <= i < |m.components| => Dot(m.components[i], Minus(x, m.mean)))
    else x
  }

  /** What the embedding backend returns for a crop: its vector and that vector's Euclidean norm. */
  datatype Extraction = Extraction(vector: Embedding, norm: real)

  /**
   * `get_embedding(face_crop)`, where `extracted` is what the configured
   * backend (insightface or face_recognition) produced for the crop, `None`
   * when it found no face or raised.
   */
  function GetEmbedding(pca: Option<Pca>, crop: Option<Rect>, extracted: Option<Extraction>): (r: Option<Embedding>)
    requires extracted.Some? ==> IsNormOf(extracted.value.vector, extracted.value.norm)
    ensures r.Some? <==>
      crop.Some? && !IsEmpty(crop.value) && extracted.Some? && |extracted.value.vector| >= MinDimension
    ensures r.Some? ==>
      var v := Normalize(extracted.value.vector, extracted.value.norm);
      if Applies(pca, v) then |r.value| == |pca.value.fitted.value.components| else r.value == v
  {
    if crop.None? || IsEmpty(crop.value) then None
    else if extracted.None? then None
    else if |extracted.value.vector| < MinDimension then None
    else Some(Transform(pca, Normalize(extracted.value.vector, extracted.value.norm)))
  }

  /** Without an applicable projection the stored embedding is the unit-length backend vector. */
  lemma UnprojectedEmbeddingIsUnit(pca: Option<Pca>, crop: Option<Rect>, extracted: Option<Extraction>)
    requires extracted.Some? ==> IsNormOf(extracted.value.vector, extracted.value.norm)
    requires GetEmbedding(pca, crop, extracted).Some? && extracted.value.norm > 0.0
    requires !Applies(pca, Normalize(extracted.value.vector, extracted.value.norm))
    ensures var e := GetEmbedding(pca, crop, extracted).value;
      |e| == |extracted.value.vector| && Dot(e, e) == 1.0
  {
    NormalizedIsUnit(extracted.value.vector, extracted.value.norm);
  }

  /** The embeddings of length `d`, in order (the list `compatible`). */
  function OfLength(all: seq<Embedding>, d: nat): (r: seq<Embedding>)
    ensures |r| <= |all|
    ensures forall e :: e in r ==> |e| == d
  {
    if all == [] then []
    else (if |all[0]| == d then [all[0]] else []) + OfLength(all[1..], d)
  }

  lemma {:induction false} OfLengthMembers(all: seq<Embedding>, d: nat, e: Embedding)
    ensures e in OfLength(all, d) <==> e in all && |e| == d
  {
    if all != [] {
      OfLengthMembers(all[1..], d, e);
      assert all == [all[0]] + all[1..];
    }
  }

  /** How many embeddings have length `d` (`lengths.count(d)`). */
  function CountOfLength(all: seq<Embedding>, d: nat): nat {
    |OfLength(all, d)|
  }

  /**
   * Length `|x|` wins over length `|y|` in `max(set(lengths), key=lengths.count)`:
   * it is more frequent, or as frequent and not longer.
   */
  predicate Prefers(all: seq<Embedding>, x: Embedding, y: Embedding) {
    var cx, cy := CountOfLength(all, |x|), CountOfLength(all, |y|);
    cy < cx || (cy == cx && |x| <= |y|)
  }

  /** An index into `cands` whose length is preferred to every other candidate's. */
  function ModalIndex(all: seq<Embedding>, cands: seq<Embedding>): (i: nat)
    requires cands != []
    ensures i < |cands|
  {
    if |cands| == 1 then 0
    else
      var m := 1 + ModalIndex(all, cands[1..]);
      if Prefers(all, cands[0], cands[m]) then 0 else m
  }

  lemma PrefersChain(all: seq<Embedding>, x: Embedding, y: Embedding, z: Embedding)
    requires Prefers(all, x, y) && Prefers(all, y, z)
    ensures Prefers(all, x, z)
  {
  }

  lemma PrefersTotal(all: seq<Embedding>, x: Embedding, y: Embedding)
    ensures Prefers(all, x, y) || Prefers(all, y, x)
  {
  }

  /** The chosen candidate's length is most frequent, and the smallest among the most frequent. */
  lemma {:induction false} ModalIndexIsModal(all: seq<Embedding>, cands: seq<Embedding>)
    requires cands != []
    ensures forall j :: 0 <= j < |cands| ==> Prefers(all, cands[ModalIndex(all, cands)], cands[j])
  {
    if |cands| == 1 {
      assert Prefers(all, cands[0], cands[0]);
    } else {
      var rest := cands[1..];
      ModalIndexIsModal(all, rest);
      var m := 1 + ModalIndex(all, rest);
      var c := ModalIndex(all, cands);
      assert cands[m] == rest[m - 1];
      PrefersTotal(all, cands[0], cands[m]);
      forall j | 0 <= j < |cands| ensures Prefers(all, cands[c], cands[j]) {
        if j == 0 {
          assert Prefers(all, cands[0], cands[0]);
        } else {
          assert cands[j] == rest[j - 1];
          assert Prefers(all, cands[m], cands[j]);
          if c == 0 {
            PrefersChain(all, cands[0], cands[m], cands[j]);
          }
        }
      }
    }
  }

  /**
   * The shortest of the most frequent lengths of `all` (0 for an empty list):
   * one way to break the ties that the `max` over a set leaves to CPython's
   * set iteration order.
   */
  function ModalLength(all: seq<Embedding>): (d: nat)
    ensures all != [] ==> exists x :: x in all && |x| == d
  {
    if all == [] then 0 else |all[ModalIndex(all, all)]|
  }

  /** The modal length is the length of some embedding, and no length is more frequent. */
  lemma ModalLengthIsMostFrequent(all: seq<Embedding>, e: Embedding)
    requires e in all
    ensures exists x :: x in all && |x| == ModalLength(all)
    ensures CountOfLength(all, |e|) <= CountOfLength(all, ModalLength(all))
  {
    var k :| 0 <= k < |all| && all[k] == e;
    ModalIndexIsModal(all, all);
    assert Prefers(all, all[ModalIndex(all, all)], all[k]);
    assert all[ModalIndex(all, all)] in all;
  }

  /** `d` can be `main_len`: it is the length of some embedding, and no length is more frequent. */
  predicate IsModalLength(all: seq<Embedding>, d: nat) {
    && (exists x :: x in all && |x| == d)
    && forall e :: e in all ==> CountOfLength(all, |e|) <= CountOfLength(all, d)
  }

  /**
   * `max(set(lengths), key=lengths.count)` as a choice of length for every
   * non-empty list: always a most frequent one, with ties broken in a way the
   * model leaves open.
   */
  ghost predicate IsModalChoice(mainLength: seq<Embedding> -> nat) {
    forall all: seq<Embedding> :: all != [] ==> IsModalLength(all, mainLength(all))
  }

  /** Breaking ties toward the shortest length is one such choice. */
  lemma ModalLengthIsModalChoice()
    ensures IsModalChoice(ModalLength)
  {
    forall all: seq<Embedding> | all != [] ensures IsModalLength(all, ModalLength(all)) {
      forall e | e in all ensures CountOfLength(all, |e|) <= CountOfLength(all, ModalLength(all)) {
        ModalLengthIsMostFrequent(all, e);
      }
      ModalLengthIsMostFrequent(all, all[0]);
    }
  }

  function Min3(a: int, b: int, c: int): int {
    if a <= b && a <= c then a else if b <= c then b else c
  }

  /** The largest number of components `_retrain_pca` asks for. */
  const MaxComponents: nat := 64

  /** What `_retrain_pca` decides: keep `self.pca`, or fit a new PCA on `samples`. */
  datatype RetrainPlan = KeepModel | Refit(samples: seq<Embedding>, nComponents: nat)

  /**
   * The guards of `_retrain_pca` on the gallery's embeddings, in order, where
   * `mainLen` is the `main_len` computed once there are at least 3.
   */
  function PlanRetrain(all: seq<Embedding>, mainLen: nat): (p: RetrainPlan)
    ensures p.KeepModel? <==>
      || |all| < 3
      || CountOfLength(all, mainLen) < 3
      || Min3(MaxComponents, mainLen, CountOfLength(all, mainLen) - 1) < 2
    ensures p.Refit? ==>
      && p.samples == OfLength(all, mainLen)
      && 2 <= p.nComponents <= MaxComponents
      && p.nComponents <= mainLen
      && p.nComponents < |p.samples|
  {
    if |all| < 3 then KeepModel
    else
      var compatible := OfLength(all, mainLen);
      if |compatible| < 3 then KeepModel
      else
        var n := Min3(MaxComponents, mainLen, |compatible| - 1);
        if n < 2 then KeepModel else Refit(compatible, n)
  }

  /**
   * A refit with a most frequent `main_len` fits on embeddings of the gallery,
   * all of that length, and no other length has more embeddings.
   */
  lemma RefitUsesLargestGroup(all: seq<Embedding>, mainLength: seq<Embedding> -> nat, e: Embedding)
    requires IsModalChoice(mainLength) && PlanRetrain(all, mainLength(all)).Refit? && e in all
    ensures var samples := PlanRetrain(all, mainLength(all)).samples;
      && (forall x :: x in samples ==> x in all && |x| == mainLength(all))
      && CountOfLength(all, |e|) <= |samples|
  {
    assert IsModalLength(all, mainLength(all));
    forall x | x in PlanRetrain(all, mainLength(all)).samples ensures x in all && |x| == mainLength(all) {
      OfLengthMembers(all, mainLength(all), x);
    }
  }

  /**
   * `self.pca` after `_retrain_pca` on gallery `g`, where `fit` stands for
   * `PCA(n_components=n).fit(samples)` (`None` when it raises) and
   * `mainLength` for the choice of `main_len`. The new PCA
   * object is assigned before `fit` runs, so a failing fit leaves an unfitted
   * model in place of the old one.
   */
  function Retrained(pca: Option<Pca>, g: Gallery, fit: (seq<Embedding>, nat) -> Option<LinearMap>,
                     mainLength: seq<Embedding> -> nat): (r: Option<Pca>)
    requires Dict.WellFormed(g)
  {
    match PlanRetrain(AllEmbeddings(g), mainLength(AllEmbeddings(g)))
    case KeepModel => pca
    case Refit(samples, n) => Some(Pca(n, fit(samples, n)))
  }

  /** `fit` returns as many components as it is asked for. */
  ghost predicate FitShaped(fit: (seq<Embedding>, nat) -> Option<LinearMap>) {
    forall s, n :: fit(s, n).Some? ==> |fit(s, n).value.components| == n
  }

  /** A PCA `_retrain_pca` can have made: 2 to 64 components, and a fitted map of that many. */
  ghost predicate PcaShaped(pca: Option<Pca>) {
    pca.Some? ==>
      && 2 <= pca.value.nComponents <= MaxComponents
      && (pca.value.fitted.Some? ==> |pca.value.fitted.value.components| == pca.value.nComponents)
  }

  lemma RetrainedIsShaped(pca: Option<Pca>, g: Gallery, fit: (seq<Embedding>, nat) -> Option<LinearMap>,
                           mainLength: seq<Embedding> -> nat)
    requires Dict.WellFormed(g) && PcaShaped(pca) && FitShaped(fit)
    ensures PcaShaped(Retrained(pca, g, fit, mainLength))
  {
  }

  /**
   * Once a projection applies, `get_embedding` returns at most 64 components,
   * fewer than the 100 `load_gallery` demands: such an embedding, enrolled and
   * saved, is dropped when the gallery is loaded again.
   */
  lemma ProjectedEmbeddingIsShort(pca: Option<Pca>, crop: Option<Rect>, extracted: Option<Extraction>)
    requires extracted.Some? ==> IsNormOf(extracted.value.vector, extracted.value.norm)
    requires PcaShaped(pca) && GetEmbedding(pca, crop, extracted).Some?
    requires Applies(pca, Normalize(extracted.value.vector, extracted.value.norm))
    ensures |GetEmbedding(pca, crop, extracted).value| <= MaxComponents < MinDimension
  {
  }
}
