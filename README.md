# Face gallery manager

A Dafny model of `FaceRecognitionManager` from `recognition/face_manager.py`.
The manager keeps a gallery: an insertion-ordered dictionary from identity
name to that identity's list of embedding vectors. Its operations:

- it persists the gallery to a JSON file and reads it back, validating every entry;
- it enrolls new embeddings;
- it prunes each identity down to its `keep_best` most central embeddings;
- it decides whether to refit a PCA projection, and with how many components;
- it computes the widened face crop;
- it matches a query embedding against the gallery by best mean similarity.

Numbers are Dafny `real`s. The dot product is exact real arithmetic.

Modules, one per concern of the class:

| file | module | what it holds |
|---|---|---|
| `wrappers.dfy` | `Wrappers` | `Option` |
| `dict.dfy` | `Dict` | Python's insertion-ordered `dict` (`OrderedMap`): `d[k] = v`, and a replacement of values key by key in key order |
| `vectors.dfy` | `Vectors` | embeddings, the dot product, L2 normalisation given the norm |
| `gallery_store.dfy` | `GalleryStore` | the gallery, the stored JSON document, `save_gallery` / `load_gallery` as functions, and the two loops `load_gallery` runs, as methods |
| `crop.dfy` | `Crop` | `crop_face` |
| `projection.dfy` | `Projection` | the gates of `get_embedding`, and the guards of `_retrain_pca` together with its outcome |
| `matching.dfy` | `Matching` | the mean similarity that `_match_face` scores an identity with, and the invariant of its loop |
| `curator.dfy` | `Curator` | the centrality score, the stable descending sort and the slice of `clean_gallery`, and its loop over identities |
| `face_manager.dfy` | `FaceManager` | the class itself: fields `embeddings`, `pca`, `store`, and one method per operation |

The class takes these inputs as parameters:

- `store` is the content of the gallery file.
- `useInsightface` selects the backend.
- `fit` stands for `PCA(n).fit(samples)`.
- `mainLength` is how `max(set(lengths), key=lengths.count)` picks `main_len`. It is constrained only to pick a most frequent length, because among equally frequent lengths the result depends on CPython's set iteration order.

An operation that depends on the face backend takes its output as a parameter (`extracted`).

The stored file is a datatype `StoreFile`. It is missing, unreadable as JSON, JSON whose top level is not an object, or an object. Each value in an object either can be iterated, as a list of entries, or cannot. An entry either converts to a float array with some number of dimensions, or its conversion raises.

Where the code and the written description of the system differ, the model follows the code:

- `load_gallery` catches the errors from opening and parsing the file and from converting each entry, but not those of `data.items()` or `for e in v`. A document whose top level is not a JSON object makes `data.items()` raise. So does a value such as a number, where `for e in v` raises. Neither error is caught. The model returns `Raised` for both (`LoadStore`, `LoadGallery`).
- `_retrain_pca` assigns `self.pca = PCA(n)` before calling `fit`. When fitting raises, the gallery is left with an unfitted PCA object, not the previous model (`Retrained`). Transforming with an unfitted model raises, and `get_embedding` catches that, so the embedding passes through unprojected (`Transform`).
- `clean_gallery` calls `np.dot` on two embeddings of different lengths when an identity long enough to prune holds such a pair, and that raises. Identities pruned earlier stay pruned, and nothing is saved (`CleanGallery`).

## Model

| member | source | states |
|---|---|---|
| GalleryStore.LoadStore | recognition/face_manager.py:34-56 | `load_gallery` on the file as it finds it. A missing or unreadable file gives the empty gallery. A non-object document raises, and so does an object holding a value that cannot be iterated. Any other object gives its kept identities with their valid entries. The result is a well-formed dictionary. |
| GalleryStore.Save | recognition/face_manager.py:30-33 | `save_gallery` writes an object with the gallery's keys in order, each value the list of its embeddings as flat number lists. Every value can be iterated. |
| GalleryStore.LoadKeepsOnlyValid | recognition/face_manager.py:34-56 | A missing or unreadable file loads as the empty gallery. Loading raises exactly when the document is not an object or holds a value that cannot be iterated. Otherwise the result keeps exactly the identities with at least one one-dimensional entry of at least 100 numbers, each with exactly its valid entries, and every kept list is non-empty and valid. |
| GalleryStore.CollectValid | recognition/face_manager.py:44-51 | The inner loop's `arrs` is the list of the identity's valid entries, in order. |
| GalleryStore.CollectGallery | recognition/face_manager.py:42-53 | The outer loop raises exactly when some value cannot be iterated. Otherwise `clean` is the gallery of the document's kept identities, in document order. |
| GalleryStore.ValidEntriesMembers | recognition/face_manager.py:45-49 | An embedding is kept exactly when the stored list holds it as a one-dimensional entry of at least 100 numbers. |
| GalleryStore.SaveLoadRoundTrip | recognition/face_manager.py:30-54 | Loading what `save_gallery` wrote gives back the identical gallery, keys in the same order, exactly when every identity is non-empty and each of its embeddings has at least 100 components. |
| FaceManager.EnrollThenReload | tests/test_face_manager.py:4-13 | After enrolling an embedding of at least 100 components into a gallery that loads back unchanged, the saved file still loads back unchanged, and it holds the enrolled name. |
| FaceManager.FaceRecognitionManager.constructor | recognition/face_manager.py:14-29 | The manager starts with no PCA and the gallery loaded from its file. It keeps the empty gallery when the load raises. |
| FaceManager.FaceRecognitionManager.SaveGallery | recognition/face_manager.py:30-33 | The file now holds the encoded gallery. The gallery and the PCA are unchanged. |
| FaceManager.FaceRecognitionManager.LoadGallery | recognition/face_manager.py:34-56 | `raised` exactly when loading the current file raises. Otherwise the gallery becomes the loaded one. When it raises, the gallery is unchanged. |
| Crop.CropFace | recognition/face_manager.py:57-71 | `None` when `bbox` has not four numbers or the widened box misses the frame. Otherwise a non-empty rectangle with 0 ≤ x1 < x2 ≤ width and 0 ≤ y1 < y2 ≤ height. |
| Crop.CropContainsBox | recognition/face_manager.py:62-71 | With factor 3: whenever the detector's box overlaps the frame, the crop exists and contains the part of the box that lies inside the frame. |
| Crop.WidenedSide | recognition/face_manager.py:63-65 | A side of at least 1, widened by a factor of at least 2 and truncated by `int()`, is at least twice as long. |
| Projection.GetEmbedding | recognition/face_manager.py:72-100 | There is an embedding exactly when the crop is non-empty, the backend produced a vector, and that vector has at least 100 components. It is then the normalised vector when the projection does not apply, and otherwise has as many components as the model. |
| Projection.UnprojectedEmbeddingIsUnit | recognition/face_manager.py:91-100 | Without an applicable projection, the embedding of a non-zero backend vector keeps the backend's length and has unit norm. |
| Projection.ProjectedEmbeddingIsShort | recognition/face_manager.py:95-100 | A projected embedding has at most 64 components, fewer than the 100 that loading the gallery demands. |
| FaceManager.Enrolled | recognition/face_manager.py:104-106 | The gallery after `enroll_person`: the name's list, or `[]` for a new name, with the embedding appended. The result is a well-formed dictionary. |
| FaceManager.EnrolledAppendsOne | recognition/face_manager.py:101-106 | The named list grows by exactly one and ends with the new embedding, and its earlier part is the old list. A new name goes last, with a one-element list. The other identities and the key order are unchanged. |
| FaceManager.EnrolledStaysStorable | recognition/face_manager.py:101-106 | Enrolling an embedding of at least 100 components keeps a gallery that saves and loads back unchanged. |
| FaceManager.FaceRecognitionManager.EnrollPerson | recognition/face_manager.py:101-114 | With no embedding nothing changes. Otherwise the gallery is the enrolled one, the file is saved, and the PCA is retrained exactly when `retrain` is set. |
| FaceManager.FaceRecognitionManager.AddEmbeddingToPerson | recognition/face_manager.py:115-123 | True exactly when the name is enrolled and the crop, widened by 3, yields an embedding; when false, nothing changes. When true, exactly that embedding is appended to the name, the key order is kept, the file is saved, and the PCA is left as it was. |
| Curator.Centrality | recognition/face_manager.py:131 | An embedding's score: the mean of its dot products with the identity's other embeddings, or 0 when it is the only one. |
| Curator.ScoreAll | recognition/face_manager.py:129-132 | `sims` pairs each embedding's position with its mean dot product with the others, or 0 when it is alone. |
| Curator.Rank | recognition/face_manager.py:133 | The stable descending sort holds every position exactly once, in descending score order, with ties in list order. |
| Curator.SortDesc | recognition/face_manager.py:133 | The sorted `sims` holds the same elements as before the sort, with the same multiplicities. |
| Curator.SortDescSorted | recognition/face_manager.py:133 | Elements with distinct positions come out sorted by descending score, with equal scores by ascending position, which is the order a stable descending sort gives. |
| Curator.KeptAreDistinct | recognition/face_manager.py:134 | `sims[:keep_best]` names positions of the list, each at most once. |
| Curator.KeptBeatDiscarded | recognition/face_manager.py:129-134 | Every kept embedding scores at least as high as every discarded one; on equal scores, the kept one came earlier in the list. |
| Curator.KeptInRankOrder | recognition/face_manager.py:133-134 | The kept embeddings are in descending score order, with ties in list order. |
| Curator.PrunedFromOriginal | recognition/face_manager.py:127-134 | At most `keep_best` embeddings: the list is untouched. Otherwise exactly `keep_best` remain (for a non-negative `keep_best`; Python slicing otherwise), each a different entry of the original list. |
| Curator.Pruned | recognition/face_manager.py:127-134 | An identity's list after the pruning step: the list itself when it has at most `keep_best` embeddings, otherwise the embeddings at the first `keep_best` positions of the ranking. Every embedding of the result comes from the original list. |
| Curator.PruneIdentity | recognition/face_manager.py:129-134 | The scoring, sorting and slicing for one identity gives its pruned list. |
| Curator.PruneAll | recognition/face_manager.py:125-135 | The loop raises exactly when some identity long enough to prune has embeddings of different lengths; the identities before that one stay pruned. Otherwise the result is the cleaned gallery, and `cleaned` is positive exactly when some identity had more than `keep_best` embeddings. |
| Curator.PrunedBeforeValues | recognition/face_manager.py:126-134 | After the loop has visited the first `n` identities, each of them holds its pruned list and every later one its original list. |
| Curator.Cleaned | recognition/face_manager.py:124-135 | The gallery after a `clean_gallery` that does not raise: every identity handled in key order, with the same keys in the same order. |
| Curator.CleanedStaysStorable | recognition/face_manager.py:124-138 | With `keep_best` ≥ 1, the cleaned gallery of a storable gallery still saves and loads back unchanged. |
| Curator.CleanIsIdempotent | recognition/face_manager.py:124-138 | With the same non-negative `keep_best`, a second clean finds nothing to prune and changes nothing. |
| FaceManager.FaceRecognitionManager.CleanGallery | recognition/face_manager.py:124-138 | `raised` exactly when scoring some identity raises, and then the earlier identities stay pruned and the file and PCA are unchanged. Otherwise the gallery is the cleaned one. It is saved and retrained exactly when some identity had more than `keep_best` embeddings. |
| GalleryStore.FlattenMembers | recognition/face_manager.py:140 | `all_embs` holds exactly the embeddings of the gallery's identities. |
| Projection.OfLengthMembers | recognition/face_manager.py:145 | `compatible` holds exactly the embeddings of length `main_len`. |
| Projection.PlanRetrain | recognition/face_manager.py:140-151 | For a given `main_len`, the model is kept exactly when there are fewer than 3 embeddings, or fewer than 3 of length `main_len`, or min(64, `main_len`, count − 1) < 2. A refit uses exactly the embeddings of length `main_len`, with 2 to 64 components, at most `main_len` and fewer than the samples. |
| Projection.RefitUsesLargestGroup | recognition/face_manager.py:143-151 | When `main_len` is a most frequent length, a refit's samples are embeddings of the gallery, all of length `main_len`. No other length has more embeddings than there are samples. |
| Projection.ModalLength | recognition/face_manager.py:144 | One tie-break of the `max` over the set of lengths: the shortest of the most frequent lengths. For a non-empty list it is the length of some embedding. |
| Projection.ModalLengthIsMostFrequent | recognition/face_manager.py:143-144 | The shortest-tie-break length is the length of some embedding, and no length occurs more often. |
| Projection.ModalLengthIsModalChoice | recognition/face_manager.py:143-144 | That tie-break meets the constraint on `mainLength`, so a manager can be built. |
| Projection.ModalIndexIsModal | recognition/face_manager.py:143-144 | The chosen candidate's length is at least as frequent as every other candidate's; on equal frequency it is the shorter one. |
| Projection.Retrained | recognition/face_manager.py:139-156 | `self.pca` after `_retrain_pca`: unchanged when a guard stops on the gallery's embeddings with the chosen `main_len`, otherwise a new PCA of the planned size holding what `fit` returns for the planned samples. |
| Projection.RetrainedIsShaped | recognition/face_manager.py:149-156 | Retraining keeps the PCA with 2 to 64 components, and a fitted map has that many. |
| FaceManager.FaceRecognitionManager.RetrainPca | recognition/face_manager.py:139-156 | The PCA becomes `Retrained`: it is unchanged when a guard stops, and otherwise it is a new PCA, unfitted when fitting raises. The gallery and the file are unchanged. |
| Projection.Transform | recognition/face_manager.py:95-99 | A fitted model whose width matches the embedding projects it to one component per row of the model. Otherwise the transform raises, the error is swallowed, and the embedding is returned unchanged. |
| Vectors.Normalize | recognition/face_manager.py:94 | L2 normalisation of one row keeps the length. A zero row is left as it is, and any other row is divided by its norm; `NormalizedIsUnit` proves the result has unit length. |
| Vectors.NormalizedIsUnit | recognition/face_manager.py:94 | A normalised non-zero row has unit length, and a zero row comes back unchanged. |
| Matching.MeanSimilarity | recognition/face_manager.py:162-164 | An identity's score: the mean dot product of the query with the identity's embeddings of the query's length, of which there is at least one. |
| Matching.MeanSimilarityBounded | recognition/face_manager.py:162-164 | An identity none of whose same-shape embeddings is more than `b` similar to the query scores at most `b`. |
| Matching.LeadingAll | recognition/face_manager.py:160-166 | After the loop, the best score is at least 0 and at least every identity's score. When it is positive, it is the score of the first identity that reaches it. |
| FaceManager.Threshold | recognition/face_manager.py:167 | The acceptance threshold is strictly between 0 and 1 (0.43 or 0.58). |
| FaceManager.FaceRecognitionManager.MatchFace | recognition/face_manager.py:157-168 | ("unknown", 0.0) for no query or an empty gallery. The score is the larger of 0 and the highest mean similarity among identities with a same-shape embedding. A real name comes back only above the threshold, and then it is the first identity with that score; an identity without a same-shape embedding never wins. |

## Left out

- Thumbnails (`cv2.imwrite` in `enroll_person`): file output with its errors swallowed; it changes no state the model has.
- Device selection and backend model construction in `__init__`: hardware and library setup.
- The embedding extractors (insightface, face_recognition): foreign code. `extracted` stands for their output, with its Euclidean norm supplied alongside it.
- The PCA numerics of sklearn: the fit is the parameter `fit`, and the transform is the linear map it returns.
- float32 conversion and rounding, and JSON text encoding: numbers are exact reals, and the file is its parsed document.
- A failing write in `save_gallery`: the write is modelled as always succeeding.
- `__init__` when `load_gallery` raises: Python's constructor raises and no manager exists. The model's constructor keeps the empty gallery it already had.
- The tie-break of `max(set(lengths), key=lengths.count)`, which depends on CPython's set hashing: the class parameter `mainLength` is constrained only to pick a most frequent length. So `RetrainPca`, `EnrollPerson` and `CleanGallery` state the retrain outcome for whichever most frequent length it is, not the one CPython would pick. For example, with three embeddings of length 128 and three of length 5, CPython picks 128.
- CropContainsBox: stated only for the factor 3 that `crop_face` defaults to and `add_embedding_to_person` passes, not for every scale.
- The `e is not None` filter in `_retrain_pca`: the model's gallery cannot hold a missing embedding.
- `camera/canon_sdk.py`, `main.py`, `detection/face_detector.py` and `utils/draw.py` are not part of this model: device I/O, the interactive loop, the detector wrapper and drawing.
