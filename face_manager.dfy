/**
 * `FaceRecognitionManager`: the gallery of enrolled identities, its file, the
 * optional PCA projection, and the operations that enroll, prune, retrain and
 * match against them.
 */
module FaceManager {
  import opened Wrappers
  import opened Dict
  import opened Vectors
  import opened GalleryStore
  import opened Crop
  import opened Projection
  import opened Matching
  import opened Curator

  /** The name `_match_face` returns when no identity is similar enough. */
  const Unknown: string := "unknown"

  /** The similarity an identity must exceed to be recognized, per embedding backend. */
  function Threshold(useInsightface: bool): (t: real)
    ensures 0.0 < t < 1.0
  {
    if useInsightface then 0.43 else 0.58
  }

  /** `self.embeddings` after `enroll_person(name, e)`: `e` appended to the identity, which is created when new. */
  function Enrolled(g: Gallery, name: string, e: Embedding): (r: Gallery)
    requires WellFormed(g)
    ensures WellFormed(r)
  {
    Put(g, name, (if name in g.values then g.values[name] else []) + [e])
  }

  /**
   * Enrolling grows the named list by exactly one embedding, `e`, at its end; a
   * new name is added last with the list `[e]`; every other identity is unchanged.
   */
  lemma EnrolledAppendsOne(g: Gallery, name: string, e: Embedding)
    requires WellFormed(g)
    ensures var r := Enrolled(g, name, e);
      && name in r.values
      && |r.values[name]| == (if name in g.values then |g.values[name]| else 0) + 1
      && r.values[name][|r.values[name]| - 1] == e
      && (name in g.values ==> r.keys == g.keys && r.values[name][..|g.values[name]|] == g.values[name])
      && (name !in g.values ==> r.keys == g.keys + [name] && r.values[name] == [e])
      && (forall k :: k != name ==> (k in r.values <==> k in g.values))
      && (forall k :: k != name && k in g.values ==> r.values[k] == g.values[k])
  {
    var r := Enrolled(g, name, e);
    if name in g.values {
      assert r.values[name][..|g.values[name]|] == g.values[name];
    }
  }

  /** `setdefault(name, [])` followed by `append(e)` is `Enrolled`. */
  lemma EnrolledInTwoSteps(g: Gallery, name: string, e: Embedding)
    requires WellFormed(g)
    ensures var g1 := if name in g.values then g else Put(g, name, []);
      Put(g1, name, g1.values[name] + [e]) == Enrolled(g, name, e)
  {
    if name !in g.values {
      assert [] + [e] == [e];
    }
  }

  /** Enrolling an embedding of at least 100 components keeps a gallery that saves and loads back unchanged. */
  lemma EnrolledStaysStorable(g: Gallery, name: string, e: Embedding)
    requires WellFormed(g) && Storable(g) && |e| >= MinDimension
    ensures Storable(Enrolled(g, name, e))
  {
    var r := Enrolled(g, name, e);
    forall k | k in r.values
      ensures r.values[k] != [] && forall i :: 0 <= i < |r.values[k]| ==> |r.values[k][i]| >= MinDimension
    {
      if k == name {
        var old_ := if name in g.values then g.values[name] else [];
        assert r.values[k] == old_ + [e];
        forall i | 0 <= i < |r.values[k]| ensures |r.values[k][i]| >= MinDimension {
          if i < |old_| {
            assert r.values[k][i] == g.values[name][i];
          }
        }
      }
    }
  }

  /**
   * A gallery that loads back unchanged still does after an enrollment of an
   * embedding of at least 100 components, and the new manager built on the
   * saved file holds the enrolled name.
   */
  lemma EnrollThenReload(g: Gallery, name: string, e: Embedding)
    requires WellFormed(g) && Storable(g) && |e| >= MinDimension
    ensures LoadStore(Save(Enrolled(g, name, e))) == Loaded(Enrolled(g, name, e))
    ensures name in LoadStore(Save(Enrolled(g, name, e))).gallery.values
  {
    EnrolledStaysStorable(g, name, e);
    SaveLoadRoundTrip(Enrolled(g, name, e));
    EnrolledAppendsOne(g, name, e);
  }

  class FaceRecognitionManager {
    /** `self.embeddings`: identity name to its embeddings, in enrollment order. */
    var embeddings: Gallery
    /** The projection applied to new embeddings, `None` until one is fitted. */
    var pca: Option<Pca>
    /** What the file at `self.gallery_path` holds. */
    var store: StoreFile
    /** `USE_INSIGHTFACE`: whether the insightface backend could be imported. */
    const useInsightface: bool
    /** `PCA(n_components=n).fit(samples)`: the fitted map, or `None` when fitting raises. */
    const fit: (seq<Embedding>, nat) -> Option<LinearMap>
    /** How `_retrain_pca` picks `main_len`: a most frequent length, ties broken by set iteration order. */
    const mainLength: seq<Embedding> -> nat

    ghost predicate Valid()
      reads this
    {
      && WellFormed(embeddings)
      && (store.Object? ==> WellFormed(store.document))
      && PcaShaped(pca)
      && FitShaped(fit)
      && IsModalChoice(mainLength)
    }

    /**
     * `__init__`: an empty gallery and no projection, then `load_gallery`. When
     * loading raises, `__init__` raises too; the object is then left with the
     * empty gallery it had before the load.
     */
    constructor (file: StoreFile, useInsightface: bool, fit: (seq<Embedding>, nat) -> Option<LinearMap>,
                 mainLength: seq<Embedding> -> nat)
      requires file.Object? ==> WellFormed(file.document)
      requires FitShaped(fit) && IsModalChoice(mainLength)
      ensures Valid()
      ensures store == file && pca == None
      ensures this.useInsightface == useInsightface && this.fit == fit && this.mainLength == mainLength
      ensures embeddings == if LoadStore(file).Loaded? then LoadStore(file).gallery else Empty()
    {
      embeddings := Empty();
      pca := None;
      store := file;
      this.useInsightface := useInsightface;
      this.fit := fit;
      this.mainLength := mainLength;
      new;
      var raised := LoadGallery();
    }

    /** `save_gallery`: the file now holds the gallery. */
    method SaveGallery()
      requires Valid()
      modifies this
      ensures Valid()
      ensures store == Save(embeddings)
      ensures embeddings == old(embeddings) && pca == old(pca)
    {
      store := Save(embeddings);
    }

    /**
     * `load_gallery`: the gallery read from the file, or `raised` when the
     * document is not an object or holds a value that cannot be iterated.
     */
    method LoadGallery() returns (raised: bool)
      requires Valid()
      modifies this
      ensures Valid()
      ensures raised == LoadStore(store).Raised?
      ensures embeddings == if raised then old(embeddings) else LoadStore(store).gallery
      ensures store == old(store) && pca == old(pca)
    {
      raised := false;
      match store
      case Missing =>
        embeddings := Empty();
      case Unreadable =>
        embeddings := Empty();
      case NotAnObject =>
        raised := true;
      case Object(doc) =>
        var clean;
        raised, clean := CollectGallery(doc);
        if !raised {
          embeddings := clean;
        }
    }

    /**
     * `_retrain_pca`: keep the model when a guard says so; otherwise assign a
     * new `PCA(n)` and fit it, which leaves it unfitted when fitting raises.
     */
    method RetrainPca()
      requires Valid()
      modifies this
      ensures Valid()
      ensures pca == Retrained(old(pca), embeddings, fit, mainLength)
      ensures embeddings == old(embeddings) && store == old(store)
    {
      var all := AllEmbeddings(embeddings);
      if |all| < 3 {
        return;
      }
      var mainLen := mainLength(all);
      var compatible := OfLength(all, mainLen);
      if |compatible| < 3 {
        return;
      }
      var n := Min3(MaxComponents, mainLen, |compatible| - 1);
      if n < 2 {
        return;
      }
      pca := Some(Pca(n, None));
      pca := Some(Pca(n, fit(compatible, n)));
    }

    /**
     * `enroll_person(name, emb, retrain=retrain)`: nothing when `emb` is
     * `None`; otherwise `emb` is appended to the identity, the gallery is
     * saved, and the projection retrained when asked.
     */
    method EnrollPerson(name: string, emb: Option<Embedding>, retrain: bool)
      requires Valid()
      modifies this
      ensures Valid()
      ensures emb.None? ==> embeddings == old(embeddings) && store == old(store) && pca == old(pca)
      ensures emb.Some? ==> embeddings == Enrolled(old(embeddings), name, emb.value)
      ensures emb.Some? ==> store == Save(embeddings)
      ensures emb.Some? ==> pca == if retrain then Retrained(old(pca), embeddings, fit, mainLength) else old(pca)
    {
      if emb.None? {
        return;
      }
      if name !in embeddings.values {
        embeddings := Put(embeddings, name, []);
      }
      embeddings := Put(embeddings, name, embeddings.values[name] + [emb.value]);
      EnrolledInTwoSteps(old(embeddings), name, emb.value);
      SaveGallery();
      if retrain {
        RetrainPca();
      }
    }

    /**
     * `add_embedding_to_person(name, frame, bbox)`, where `extracted` is what
     * the backend produces for the crop: false and no change when the name is
     * not enrolled or no embedding comes out; otherwise the embedding is
     * enrolled without retraining.
     */
    method AddEmbeddingToPerson(name: string, frame: Frame, bbox: seq<real>, extracted: Option<Extraction>)
      returns (added: bool)
      requires Valid()
      requires extracted.Some? ==> IsNormOf(extracted.value.vector, extracted.value.norm)
      modifies this
      ensures Valid()
      ensures added <==>
        name in old(embeddings).values && GetEmbedding(old(pca), CropFace(frame, bbox, 3.0), extracted).Some?
      ensures !added ==> embeddings == old(embeddings) && store == old(store) && pca == old(pca)
      ensures added ==>
        && embeddings == Enrolled(old(embeddings), name, GetEmbedding(old(pca), CropFace(frame, bbox, 3.0), extracted).value)
        && embeddings.keys == old(embeddings).keys
        && store == Save(embeddings)
        && pca == old(pca)
    {
      if name !in embeddings.values {
        return false;
      }
      var crop := CropFace(frame, bbox, 3.0);
      var emb := GetEmbedding(pca, crop, extracted);
      if emb.None? {
        return false;
      }
      EnrollPerson(name, emb, false);
      return true;
    }

    /**
     * `clean_gallery(keep_best)`: prune every identity with more than
     * `keep_best` embeddings, then save and retrain when anything was pruned.
     * `raised` when scoring an identity meets embeddings of different lengths;
     * the identities before it stay pruned and nothing is saved.
     */
    method CleanGallery(keepBest: int) returns (raised: bool)
      requires Valid()
      modifies this
      ensures Valid()
      ensures raised <==> !NoRaiseBefore(old(embeddings), keepBest, |old(embeddings).keys|)
      ensures !raised ==> embeddings == Cleaned(old(embeddings), keepBest)
      ensures !raised && AnyPruned(old(embeddings), keepBest) ==>
        store == Save(embeddings) && pca == Retrained(old(pca), embeddings, fit, mainLength)
      ensures !raised && !AnyPruned(old(embeddings), keepBest) ==> store == old(store) && pca == old(pca)
      ensures raised ==> store == old(store) && pca == old(pca)
      ensures raised ==> exists r ::
        && 0 <= r < |old(embeddings).keys|
        && NoRaiseBefore(old(embeddings), keepBest, r)
        && PruneRaises(old(embeddings).values[old(embeddings).keys[r]], keepBest)
        && embeddings == PrunedBefore(old(embeddings), keepBest, r)
    {
      var cleaned, pruned;
      raised, pruned, cleaned := PruneAll(embeddings, keepBest);
      embeddings := pruned;
      if raised {
        return;
      }
      if cleaned > 0 {
        SaveGallery();
        RetrainPca();
      }
    }

    /**
     * `_match_face(emb)`: the first identity with the highest mean similarity
     * to `emb`, and that similarity, when it exceeds the backend's threshold.
     */
    method MatchFace(emb: Option<Embedding>) returns (name: string, score: real)
      requires Valid()
      ensures emb.None? || embeddings.keys == [] ==> name == Unknown && score == 0.0
      ensures score >= 0.0
      ensures emb.Some? ==> forall t :: Scorable(embeddings, emb.value, t) ==> Score(embeddings, emb.value, t) <= score
      ensures score > 0.0 ==>
        emb.Some? && exists t :: Scorable(embeddings, emb.value, t) && Score(embeddings, emb.value, t) == score
      ensures score <= Threshold(useInsightface) ==> name == Unknown
      ensures score > Threshold(useInsightface) ==> emb.Some? && exists t ::
        && Scorable(embeddings, emb.value, t)
        && Score(embeddings, emb.value, t) == score
        && name == embeddings.keys[t]
        && forall u :: 0 <= u < t && Scorable(embeddings, emb.value, u) ==> Score(embeddings, emb.value, u) < score
    {
      if emb.None? || embeddings.keys == [] {
        return Unknown, 0.0;
      }
      var q := emb.value;
      var bestName, bestSim := Unknown, 0.0;
      ghost var winner := -1;
      LeadingStart(embeddings, q);
      var i := 0;
      while i < |embeddings.keys|
        invariant 0 <= i <= |embeddings.keys|
        invariant Leading(embeddings, q, i, winner, bestSim)
        invariant winner == -1 ==> bestName == Unknown
        invariant winner != -1 ==> 0 <= winner < |embeddings.keys| && bestName == embeddings.keys[winner]
      {
        var k := embeddings.keys[i];
        var same := SameShape(q, embeddings.values[k]);
        if same != [] {
          var sim := Mean(Similarities(q, same));
          assert sim == Score(embeddings, q, i);
          if sim > bestSim {
            LeadingTake(embeddings, q, i, winner, bestSim);
            bestSim, bestName := sim, k;
            winner := i;
          } else {
            LeadingSkip(embeddings, q, i, winner, bestSim);
          }
        } else {
          LeadingSkip(embeddings, q, i, winner, bestSim);
        }
        i := i + 1;
      }
      LeadingAll(embeddings, q, winner, bestSim);
      if bestSim > Threshold(useInsightface) {
        return bestName, bestSim;
      }
      return Unknown, bestSim;
    }
  }
}
