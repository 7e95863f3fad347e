/**
 * The gallery and its persisted form: `save_gallery` writes the gallery as a
 * JSON object of lists of number lists, and `load_gallery` reads it back,
 * keeping only one-dimensional entries of at least 100 numbers and only the
 * identities left with at least one such entry.
 */
module GalleryStore {
  import opened Dict
  import opened Vectors

  /** `self.embeddings`: identity name to its embeddings in enrollment order. */
  type Gallery = OrderedMap<seq<Embedding>>

  /** The least length `load_gallery` accepts for a stored embedding. */
  const MinDimension: nat := 100

  /**
   * What `np.array(e, dtype=np.float32)` makes of one stored entry: an array
   * with `ndim` dimensions whose elements, in order, are `elements` (for a
   * one-dimensional array, its length is `|elements|`), or a conversion that raises.
   */
  datatype StoredEntry = Converted(ndim: nat, elements: seq<real>) | Unconvertible

  /**
   * One value of the stored JSON object. A list, a string or an object can be
   * iterated (a string yields characters, an object its keys, each an entry);
   * a number, a boolean or null cannot, and `for e in v` raises on it.
   */
  datatype StoredValue = Items(entries: seq<StoredEntry>) | NotIterable

  /**
   * The gallery file as `load_gallery` finds it: absent; present but not
   * readable as JSON (caught); JSON whose top level is not an object (where
   * `data.items()` raises); or a JSON object.
   */
  datatype StoreFile = Missing | Unreadable | NotAnObject | Object(document: OrderedMap<StoredValue>)

  /** The gallery `load_gallery` assigns, or the exception it lets escape. */
  datatype LoadOutcome = Loaded(gallery: Gallery) | Raised

  predicate IsValidEntry(e: StoredEntry) {
    e.Converted? && e.ndim == 1 && |e.elements| >= MinDimension
  }

  /** The list `arrs` built from one identity's entries: the valid ones, in order. */
  function ValidEntries(entries: seq<StoredEntry>): (r: seq<Embedding>)
    ensures |r| <= |entries|
    ensures forall i :: 0 <= i < |r| ==> |r[i]| >= MinDimension
  {
    if entries == [] then []
    else
      var last := entries[|entries| - 1];
      ValidEntries(entries[..|entries| - 1]) + (if IsValidEntry(last) then [last.elements] else [])
  }

  /** An identity `load_gallery` keeps: its value can be iterated and has a valid entry. */
  predicate Keeps(v: StoredValue) {
    v.Items? && ValidEntries(v.entries) != []
  }

  /** The keys of `clean`, in document order. */
  function KeptKeys(keys: seq<string>, values: map<string, StoredValue>): (r: seq<string>)
    requires forall k :: k in keys ==> k in values
    ensures forall k :: k in r <==> k in keys && Keeps(values[k])
    ensures Distinct(keys) ==> Distinct(r)
  {
    if keys == [] then []
    else
      var last := keys[|keys| - 1];
      var rest := KeptKeys(keys[..|keys| - 1], values);
      assert forall k :: k in rest ==> k in keys[..|keys| - 1];
      if Keeps(values[last]) then rest + [last] else rest
  }

  /** Every identity has an embedding and every embedding has at least 100 components. */
  ghost predicate Storable(g: Gallery) {
    forall k :: k in g.values ==>
      g.values[k] != [] && forall i :: 0 <= i < |g.values[k]| ==> |g.values[k][i]| >= MinDimension
  }

  /** Some value of the document cannot be iterated. */
  predicate HasNotIterable(doc: OrderedMap<StoredValue>) {
    exists k :: k in doc.values && doc.values[k].NotIterable?
  }

  /** The gallery `clean` that `load_gallery` builds from a document it can iterate. */
  function LoadDocument(doc: OrderedMap<StoredValue>): (g: Gallery)
    requires WellFormed(doc)
    ensures WellFormed(g)
  {
    var kept := KeptKeys(doc.keys, doc.values);
    OrderedMap(kept, map k | k in kept :: ValidEntries(doc.values[k].entries))
  }

  /** `load_gallery` on the file as it finds it. */
  function LoadStore(f: StoreFile): (r: LoadOutcome)
    requires f.Object? ==> WellFormed(f.document)
    ensures r.Loaded? ==> WellFormed(r.gallery)
  {
    match f
    case Missing => Loaded(Empty())
    case Unreadable => Loaded(Empty())
    case NotAnObject => Raised
    case Object(doc) => if HasNotIterable(doc) then Raised else Loaded(LoadDocument(doc))
  }

  /**
   * `load_gallery` falls back to an empty gallery when the file is missing or
   * unreadable, raises when the document is not an object or holds a value it
   * cannot iterate, and otherwise keeps exactly the identities with a valid
   * entry, each with its valid entries only.
   */
  lemma LoadKeepsOnlyValid(f: StoreFile)
    requires f.Object? ==> WellFormed(f.document)
    ensures LoadStore(f).Raised? <==> f.NotAnObject? || (f.Object? && HasNotIterable(f.document))
    ensures f.Missing? || f.Unreadable? ==> LoadStore(f) == Loaded(Empty())
    ensures LoadStore(f).Loaded? ==> Storable(LoadStore(f).gallery)
    ensures LoadStore(f).Loaded? && f.Object? ==>
      forall k :: k in LoadStore(f).gallery.values <==> k in f.document.values && Keeps(f.document.values[k])
    ensures LoadStore(f).Loaded? && f.Object? ==>
      forall k :: k in LoadStore(f).gallery.values ==>
        LoadStore(f).gallery.values[k] == ValidEntries(f.document.values[k].entries)
  {
  }

  /** One identity's stored list: each embedding written as a flat list of numbers. */
  function Encode(embs: seq<Embedding>): (r: seq<StoredEntry>)
    ensures |r| == |embs|
  {
    if embs == [] then []
    else Encode(embs[..|embs| - 1]) + [Converted(1, embs[|embs| - 1])]
  }

  /** `save_gallery`: the JSON object written for the gallery, in its key order. */
  function Save(g: Gallery): (f: StoreFile)
    requires WellFormed(g)
    ensures f.Object? && WellFormed(f.document) && !HasNotIterable(f.document)
    ensures f.document.keys == g.keys
  {
    Object(OrderedMap(g.keys, map k | k in g.values :: Items(Encode(g.values[k]))))
  }

  /** A stored entry is kept exactly when it is a flat list of at least 100 numbers. */
  lemma {:induction false} ValidEntriesMembers(entries: seq<StoredEntry>, e: Embedding)
    ensures e in ValidEntries(entries) <==> Converted(1, e) in entries && |e| >= MinDimension
  {
    if entries != [] {
      var init := entries[..|entries| - 1];
      ValidEntriesMembers(init, e);
      assert entries == init + [entries[|entries| - 1]];
    }
  }

  lemma ValidEntriesSnoc(entries: seq<StoredEntry>, x: StoredEntry)
    ensures ValidEntries(entries + [x]) == ValidEntries(entries) + (if IsValidEntry(x) then [x.elements] else [])
  {
    assert (entries + [x])[..|entries|] == entries;
  }

  lemma {:induction false} DecodeEncoded(embs: seq<Embedding>)
    requires forall i :: 0 <= i < |embs| ==> |embs[i]| >= MinDimension
    ensures ValidEntries(Encode(embs)) == embs
  {
    if embs != [] {
      var n := |embs| - 1;
      var init, last := embs[..n], embs[n];
      DecodeEncoded(init);
      assert Encode(embs) == Encode(init) + [Converted(1, last)];
      ValidEntriesSnoc(Encode(init), Converted(1, last));
      assert embs == init + [last];
    }
  }

  lemma KeptKeysSnoc(keys: seq<string>, values: map<string, StoredValue>, k: string)
    requires forall k' :: k' in keys + [k] ==> k' in values
    ensures KeptKeys(keys + [k], values) == KeptKeys(keys, values) + (if Keeps(values[k]) then [k] else [])
  {
    assert (keys + [k])[..|keys|] == keys;
  }

  lemma {:induction false} AllKeysKept(keys: seq<string>, values: map<string, StoredValue>)
    requires forall k :: k in keys ==> k in values && Keeps(values[k])
    ensures KeptKeys(keys, values) == keys
  {
    if keys != [] {
      var init, last := keys[..|keys| - 1], keys[|keys| - 1];
      assert keys == init + [last];
      assert forall k :: k in init ==> k in keys;
      AllKeysKept(init, values);
      assert Keeps(values[last]) by { assert last in keys; }
      KeptKeysSnoc(init, values, last);
    }
  }

  /** A document every identity of which decodes back to `g`'s list loads as `g`. */
  lemma LoadDocumentExact(doc: OrderedMap<StoredValue>, g: Gallery)
    requires WellFormed(doc) && WellFormed(g) && doc.keys == g.keys
    requires forall k :: k in g.values ==> Keeps(doc.values[k]) && ValidEntries(doc.values[k].entries) == g.values[k]
    ensures LoadDocument(doc) == g
  {
    AllKeysKept(doc.keys, doc.values);
    LoadedValuesAgree(doc, g);
  }

  lemma LoadedValuesAgree(doc: OrderedMap<StoredValue>, g: Gallery)
    requires WellFormed(doc) && WellFormed(g) && KeptKeys(doc.keys, doc.values) == g.keys
    requires forall k :: k in g.values ==> ValidEntries(doc.values[k].entries) == g.values[k]
    ensures LoadDocument(doc).values == g.values
  {
    var m := map k | k in g.keys :: ValidEntries(doc.values[k].entries);
    assert forall k :: k in m <==> k in g.values;
    assert m == g.values;
  }

  lemma LoadOfSaved(g: Gallery)
    requires WellFormed(g) && Storable(g)
    ensures LoadDocument(Save(g).document) == g
  {
    var doc := Save(g).document;
    forall k | k in g.values ensures Keeps(doc.values[k]) && ValidEntries(doc.values[k].entries) == g.values[k] {
      DecodeEncoded(g.values[k]);
    }
    LoadDocumentExact(doc, g);
  }

  /**
   * Saving and loading reproduces the gallery exactly, and only then, when
   * every identity has an embedding and every embedding has at least 100
   * components.
   */
  lemma SaveLoadRoundTrip(g: Gallery)
    requires WellFormed(g)
    ensures LoadStore(Save(g)) == Loaded(g) <==> Storable(g)
  {
    if Storable(g) {
      LoadOfSaved(g);
    }
    LoadKeepsOnlyValid(Save(g));
  }

  /** `clean` once the loop over `data.items()` has handled the first `n` identities, none of them raising. */
  function LoadPrefix(doc: OrderedMap<StoredValue>, n: nat): (g: Gallery)
    requires WellFormed(doc) && n <= |doc.keys|
    ensures WellFormed(g)
  {
    var keys := doc.keys[..n];
    assert forall k :: k in keys ==> k in doc.keys;
    assert Distinct(keys) by {
      forall i, j | 0 <= i < j < |keys| ensures keys[i] != keys[j] {
        assert keys[i] == doc.keys[i] && keys[j] == doc.keys[j];
      }
    }
    var kept := KeptKeys(keys, doc.values);
    OrderedMap(kept, map k | k in kept :: ValidEntries(doc.values[k].entries))
  }

  lemma LoadPrefixNone(doc: OrderedMap<StoredValue>)
    requires WellFormed(doc)
    ensures LoadPrefix(doc, 0) == Empty()
  {
  }

  lemma LoadPrefixAll(doc: OrderedMap<StoredValue>)
    requires WellFormed(doc)
    ensures LoadPrefix(doc, |doc.keys|) == LoadDocument(doc)
  {
    assert doc.keys[..|doc.keys|] == doc.keys;
  }

  /** One more identity adds its name to the keys of `clean` exactly when it is kept. */
  lemma LoadPrefixStepKeys(doc: OrderedMap<StoredValue>, n: nat)
    requires WellFormed(doc) && n < |doc.keys| && doc.values[doc.keys[n]].Items?
    ensures doc.keys[n] !in LoadPrefix(doc, n).keys
    ensures LoadPrefix(doc, n + 1).keys ==
      LoadPrefix(doc, n).keys + if Keeps(doc.values[doc.keys[n]]) then [doc.keys[n]] else []
  {
    var k := doc.keys[n];
    var keys, keys' := doc.keys[..n], doc.keys[..n + 1];
    assert keys' == keys + [k];
    assert forall k' :: k' in keys' ==> k' in doc.keys;
    KeptKeysSnoc(keys, doc.values, k);
    assert k !in keys by {
      forall t | 0 <= t < n ensures keys[t] != k {
        assert keys[t] == doc.keys[t];
      }
    }
  }

  /** One more identity: `clean[k] = arrs` when it has a valid entry, nothing otherwise. */
  lemma LoadPrefixStep(doc: OrderedMap<StoredValue>, n: nat)
    requires WellFormed(doc) && n < |doc.keys| && doc.values[doc.keys[n]].Items?
    ensures var k, prev := doc.keys[n], LoadPrefix(doc, n);
      LoadPrefix(doc, n + 1) ==
        if Keeps(doc.values[k]) then Put(prev, k, ValidEntries(doc.values[k].entries)) else prev
  {
    LoadPrefixStepKeys(doc, n);
    var k := doc.keys[n];
    var prev, next := LoadPrefix(doc, n), LoadPrefix(doc, n + 1);
    if Keeps(doc.values[k]) {
      var v := ValidEntries(doc.values[k].entries);
      assert forall key :: key in next.values <==> key in prev.values[k := v];
      assert next.values == prev.values[k := v];
    } else {
      assert forall key :: key in next.values <==> key in prev.values;
      assert next.values == prev.values;
    }
  }

  /** A document whose every listed key holds an iterable value has no value that cannot be iterated. */
  lemma AllIterable(doc: OrderedMap<StoredValue>)
    requires WellFormed(doc)
    requires forall t :: 0 <= t < |doc.keys| ==> doc.values[doc.keys[t]].Items?
    ensures !HasNotIterable(doc)
  {
    forall k | k in doc.values ensures doc.values[k].Items? {
      var t :| 0 <= t < |doc.keys| && doc.keys[t] == k;
    }
  }

  /** The inner loop of `load_gallery`: `arrs`, the valid entries of one identity, in order. */
  method CollectValid(entries: seq<StoredEntry>) returns (arrs: seq<Embedding>)
    ensures arrs == ValidEntries(entries)
  {
    arrs := [];
    var j := 0;
    while j < |entries|
      invariant 0 <= j <= |entries|
      invariant arrs == ValidEntries(entries[..j])
    {
      var e := entries[j];
      assert entries[..j + 1] == entries[..j] + [e];
      ValidEntriesSnoc(entries[..j], e);
      if e.Converted? && e.ndim == 1 && |e.elements| >= MinDimension {
        arrs := arrs + [e.elements];
      }
      j := j + 1;
    }
    assert entries[..|entries|] == entries;
  }

  /**
   * The outer loop of `load_gallery` over `data.items()`: `clean`, or
   * `raised` at the first value that cannot be iterated.
   */
  method CollectGallery(doc: OrderedMap<StoredValue>) returns (raised: bool, clean: Gallery)
    requires WellFormed(doc)
    ensures raised == HasNotIterable(doc)
    ensures !raised ==> clean == LoadDocument(doc)
  {
    clean := Empty();
    LoadPrefixNone(doc);
    var i := 0;
    while i < |doc.keys|
      invariant 0 <= i <= |doc.keys|
      invariant forall t :: 0 <= t < i ==> doc.values[doc.keys[t]].Items?
      invariant clean == LoadPrefix(doc, i)
    {
      var k := doc.keys[i];
      var v := doc.values[k];
      if v.NotIterable? {
        assert HasNotIterable(doc);
        return true, clean;
      }
      var arrs := CollectValid(v.entries);
      LoadPrefixStep(doc, i);
      if arrs != [] {
        clean := Put(clean, k, arrs);
      }
      i := i + 1;
    }
    AllIterable(doc);
    LoadPrefixAll(doc);
    raised := false;
  }

  /** The embeddings of the listed identities, concatenated in key order. */
  function Flatten(keys: seq<string>, values: map<string, seq<Embedding>>): (r: seq<Embedding>)
    requires forall k :: k in keys ==> k in values
  {
    if keys == [] then []
    else Flatten(keys[..|keys| - 1], values) + values[keys[|keys| - 1]]
  }

  function AllEmbeddings(g: Gallery): (r: seq<Embedding>)
    requires WellFormed(g)
  {
    Flatten(g.keys, g.values)
  }

  /** The flattened gallery holds exactly the embeddings of its identities. */
  lemma {:induction false} FlattenMembers(keys: seq<string>, values: map<string, seq<Embedding>>, e: Embedding)
    requires forall k :: k in keys ==> k in values
    ensures e in Flatten(keys, values) <==> exists k :: k in keys && e in values[k]
  {
    if keys != [] {
      var init := keys[..|keys| - 1];
      assert forall k :: k in init ==> k in keys;
      FlattenMembers(init, values, e);
      assert keys == init + [keys[|keys| - 1]];
    }
  }
}
