/**
 * Properties of the reconciler's specification functions: each deletion
 * loop equals a one-shot removal of a set defined by the owner and the type
 * filter, so repeated or unmatched deletes change nothing; rows of other
 * inspections are never touched; the surviving photos are exactly the ones
 * the request did not name; and every step keeps the database invariants.
 */
module ReconcileProperties {
  import opened Wrappers
  import opened Models
  import opened Validation
  import opened InspectionRequests
  import opened IdSets
  import opened InspectionReconciler

  // ---------------------------------------------------------------------
  // Set-level facts about the elementary removals.

  lemma RemoveNoComponentPhotos(t: Tables)
    ensures RemoveComponentPhotos(t, {}) == t
  {
    assert ComponentPhotoPaths(t, {}) == {};
    assert t.componentPhotos - {} == t.componentPhotos;
  }

  lemma RemoveNoInspectionPhotos(t: Tables)
    ensures RemoveInspectionPhotos(t, {}) == t
  {
    assert InspectionPhotoPaths(t, {}) == {};
    assert t.inspectionPhotos - {} == t.inspectionPhotos;
  }

  lemma RemoveNoComponents(t: Tables)
    ensures RemoveComponents(t, {}) == t
  {
    assert PhotosOfAll(t, {}) == {};
    RemoveNoComponentPhotos(t);
    assert t.components - {} == t.components;
  }

  lemma PhotosTaggedAfterRemoval(t: Tables, k: set<Id>, c: Id, tag: string)
    ensures PhotosTagged(RemoveComponentPhotos(t, k), c, tag) == PhotosTagged(t, c, tag) - k
  {
  }

  lemma PhotosBeforeAfterRemoval(t: Tables, k: set<Id>, i: Id)
    ensures PhotosBefore(RemoveInspectionPhotos(t, k), i) == PhotosBefore(t, i) - k
  {
  }

  lemma ComponentsOfAfterRemoval(t: Tables, cs: set<Id>, i: Id)
    ensures ComponentsOf(RemoveComponents(t, cs), i) == ComponentsOf(t, i) - cs
  {
  }

  /** Deleting two groups of components one after the other is deleting their union. */
  lemma {:induction false} RemoveComponentsTwice(t: Tables, c1: set<Id>, c2: set<Id>)
    ensures RemoveComponents(RemoveComponents(t, c1), c2) == RemoveComponents(t, c1 + c2)
  {
    var p1 := PhotosOfAll(t, c1);
    var p2 := PhotosOfAll(t, c2);
    var u := RemoveComponentPhotos(t, p1);
    var t1 := RemoveComponents(t, c1);
    assert t1 == u.(components := t.components - c1);
    assert PhotosOfAll(t1, c2) == p2 - p1;
    assert ComponentPhotoPaths(t1, p2 - p1) == ComponentPhotoPaths(u, p2 - p1);
    RemoveComponentPhotosTwice(t, p1, p2 - p1);
    assert p1 + (p2 - p1) == PhotosOfAll(t, c1 + c2);
    assert t.components - c1 - c2 == t.components - (c1 + c2);
  }

  // ---------------------------------------------------------------------
  // Each deletion loop equals a one-shot removal.

  /** The `_delete_photos_component` / `_delete_photos_check` loop deletes
      exactly the listed photos that belong to the component AND carry the
      loop's type, with their files. */
  lemma {:induction false} DeleteTaggedPhotosIsRemoval(t: Tables, c: Id, xs: seq<Id>, tag: string)
    decreases |xs|
    ensures DeleteTaggedPhotos(t, c, xs, tag) == RemoveComponentPhotos(t, Elements(xs) * PhotosTagged(t, c, tag))
  {
    var k := Elements(xs) * PhotosTagged(t, c, tag);
    if xs == [] {
      assert k == {};
      RemoveNoComponentPhotos(t);
    } else {
      var ys, x := xs[..|xs| - 1], xs[|xs| - 1];
      assert xs == ys + [x];
      ElementsSnoc(ys, x);
      DeleteTaggedPhotosIsRemoval(t, c, ys, tag);
      var k1 := Elements(ys) * PhotosTagged(t, c, tag);
      var t1 := RemoveComponentPhotos(t, k1);
      PhotosTaggedAfterRemoval(t, k1, c, tag);
      if x in PhotosTagged(t1, c, tag) {
        RemoveComponentPhotosTwice(t, k1, {x});
        assert k == k1 + {x};
      } else {
        assert k == k1;
      }
    }
  }

  /** The `_delete_photos_before` loop deletes exactly the listed photos of
      this inspection whose type is "before", with their files. */
  lemma {:induction false} DeleteBeforePhotosIsRemoval(t: Tables, i: Id, xs: seq<Id>)
    decreases |xs|
    ensures DeleteBeforePhotos(t, i, xs) == RemoveInspectionPhotos(t, Elements(xs) * PhotosBefore(t, i))
  {
    var k := Elements(xs) * PhotosBefore(t, i);
    if xs == [] {
      assert k == {};
      RemoveNoInspectionPhotos(t);
    } else {
      var ys, x := xs[..|xs| - 1], xs[|xs| - 1];
      assert xs == ys + [x];
      ElementsSnoc(ys, x);
      DeleteBeforePhotosIsRemoval(t, i, ys);
      var k1 := Elements(ys) * PhotosBefore(t, i);
      var t1 := RemoveInspectionPhotos(t, k1);
      PhotosBeforeAfterRemoval(t, k1, i);
      if x in PhotosBefore(t1, i) {
        RemoveInspectionPhotosTwice(t, k1, {x});
        assert k == k1 + {x};
      } else {
        assert k == k1;
      }
    }
  }

  lemma DeleteComponentIsRemoval(t: Tables, i: Id, c: Id)
    ensures DeleteComponent(t, i, c) == RemoveComponents(t, {c} * ComponentsOf(t, i))
  {
    if c in ComponentsOf(t, i) {
      assert {c} * ComponentsOf(t, i) == {c};
      assert PhotosOfAll(t, {c}) == PhotosOf(t, c);
    } else {
      assert {c} * ComponentsOf(t, i) == {};
      RemoveNoComponents(t);
    }
  }

  /** The `_delete_components` loop deletes exactly the listed components of
      this inspection, each with all its photos and their files. */
  lemma {:induction false} DeleteComponentsIsRemoval(t: Tables, i: Id, cs: seq<Id>)
    decreases |cs|
    ensures DeleteComponents(t, i, cs) == RemoveComponents(t, Elements(cs) * ComponentsOf(t, i))
  {
    var k := Elements(cs) * ComponentsOf(t, i);
    if cs == [] {
      assert k == {};
      RemoveNoComponents(t);
    } else {
      var ys, c := cs[..|cs| - 1], cs[|cs| - 1];
      assert cs == ys + [c];
      ElementsSnoc(ys, c);
      DeleteComponentsIsRemoval(t, i, ys);
      var k1 := Elements(ys) * ComponentsOf(t, i);
      var t1 := RemoveComponents(t, k1);
      ComponentsOfAfterRemoval(t, k1, i);
      DeleteComponentIsRemoval(t1, i, c);
      RemoveComponentsTwice(t, k1, {c} * ComponentsOf(t1, i));
      assert k == k1 + {c} * ComponentsOf(t1, i);
    }
  }

  // ---------------------------------------------------------------------
  // Unmatched deletes are no-ops; repeating a delete is harmless.

  lemma DeleteTaggedPhotosUnmatched(t: Tables, c: Id, xs: seq<Id>, tag: string)
    requires forall x :: x in xs ==> x !in PhotosTagged(t, c, tag)
    ensures DeleteTaggedPhotos(t, c, xs, tag) == t
  {
    DeleteTaggedPhotosIsRemoval(t, c, xs, tag);
    assert Elements(xs) * PhotosTagged(t, c, tag) == {};
    RemoveNoComponentPhotos(t);
  }

  lemma DeleteTaggedPhotosIdempotent(t: Tables, c: Id, xs: seq<Id>, tag: string)
    ensures DeleteTaggedPhotos(DeleteTaggedPhotos(t, c, xs, tag), c, xs, tag) == DeleteTaggedPhotos(t, c, xs, tag)
  {
    var k := Elements(xs) * PhotosTagged(t, c, tag);
    DeleteTaggedPhotosIsRemoval(t, c, xs, tag);
    var t1 := RemoveComponentPhotos(t, k);
    PhotosTaggedAfterRemoval(t, k, c, tag);
    DeleteTaggedPhotosUnmatched(t1, c, xs, tag);
  }

  lemma DeleteBeforePhotosUnmatched(t: Tables, i: Id, xs: seq<Id>)
    requires forall x :: x in xs ==> x !in PhotosBefore(t, i)
    ensures DeleteBeforePhotos(t, i, xs) == t
  {
    DeleteBeforePhotosIsRemoval(t, i, xs);
    assert Elements(xs) * PhotosBefore(t, i) == {};
    RemoveNoInspectionPhotos(t);
  }

  lemma DeleteBeforePhotosIdempotent(t: Tables, i: Id, xs: seq<Id>)
    ensures DeleteBeforePhotos(DeleteBeforePhotos(t, i, xs), i, xs) == DeleteBeforePhotos(t, i, xs)
  {
    var k := Elements(xs) * PhotosBefore(t, i);
    DeleteBeforePhotosIsRemoval(t, i, xs);
    PhotosBeforeAfterRemoval(t, k, i);
    DeleteBeforePhotosUnmatched(RemoveInspectionPhotos(t, k), i, xs);
  }

  lemma DeleteComponentsUnmatched(t: Tables, i: Id, cs: seq<Id>)
    requires forall c :: c in cs ==> c !in ComponentsOf(t, i)
    ensures DeleteComponents(t, i, cs) == t
  {
    DeleteComponentsIsRemoval(t, i, cs);
    assert Elements(cs) * ComponentsOf(t, i) == {};
    RemoveNoComponents(t);
  }

  lemma DeleteComponentsIdempotent(t: Tables, i: Id, cs: seq<Id>)
    ensures DeleteComponents(DeleteComponents(t, i, cs), i, cs) == DeleteComponents(t, i, cs)
  {
    var k := Elements(cs) * ComponentsOf(t, i);
    DeleteComponentsIsRemoval(t, i, cs);
    ComponentsOfAfterRemoval(t, k, i);
    DeleteComponentsUnmatched(RemoveComponents(t, k), i, cs);
  }

  // ---------------------------------------------------------------------
  // Rows of other inspections are never touched.

  /** A component of an inspection other than `i` that existed before `t`'s next id. */
  ghost predicate ForeignComponent(t: Tables, i: Id, c: Id) {
    c in t.components && c < t.nextId && t.components[c].inspectionId != i
  }

  /** Every component, component photo and inspection photo that `t` has and
      that belongs to another inspection than `i` is in `r`, unchanged. */
  ghost predicate OthersUnchanged(t: Tables, i: Id, r: Tables) {
    && (forall c :: ForeignComponent(t, i, c) ==> c in r.components && r.components[c] == t.components[c])
    && (forall p ::
          (p in t.componentPhotos && p < t.nextId && ForeignComponent(t, i, t.componentPhotos[p].componentId)) ==>
          p in r.componentPhotos && r.componentPhotos[p] == t.componentPhotos[p])
    && (forall p :: p in t.inspectionPhotos && p < t.nextId && t.inspectionPhotos[p].inspectionId != i ==>
          p in r.inspectionPhotos && r.inspectionPhotos[p] == t.inspectionPhotos[p])
  }

  lemma OthersUnchangedTrans(t: Tables, t1: Tables, t2: Tables, i: Id)
    requires OthersUnchanged(t, i, t1) && OthersUnchanged(t1, i, t2) && t.nextId <= t1.nextId
    ensures OthersUnchanged(t, i, t2)
  {
    forall c | ForeignComponent(t, i, c) ensures ForeignComponent(t1, i, c) { }
  }

  lemma AddComponentPhotosOthers(t: Tables, i: Id, c: Id, us: seq<UploadItem>, tag: string)
    ensures OthersUnchanged(t, i, AddComponentPhotos(t, c, us, tag))
  {
  }

  lemma DeleteTaggedPhotosOthers(t: Tables, i: Id, c: Id, xs: seq<Id>, tag: string)
    requires !ForeignComponent(t, i, c)
    ensures OthersUnchanged(t, i, DeleteTaggedPhotos(t, c, xs, tag))
  {
    DeleteTaggedPhotosIsRemoval(t, c, xs, tag);
  }

  /** The component an entry works on is this inspection's, found or created. */
  lemma UpsertOthers(t: Tables, i: Id, e: ComponentEntry)
    ensures OthersUnchanged(t, i, Upsert(t, i, e))
    ensures Target(t, i, e) in Upsert(t, i, e).components
    ensures Upsert(t, i, e).components[Target(t, i, e)].inspectionId == i
    ensures t.nextId <= Upsert(t, i, e).nextId
  {
  }

  lemma EntryUploadsOthers(t: Tables, i: Id, e: ComponentEntry)
    ensures OthersUnchanged(t, i, EntryUploads(t, i, e))
    ensures !ForeignComponent(EntryUploads(t, i, e), i, Target(t, i, e))
  {
    var c := Target(t, i, e);
    var t1 := Upsert(t, i, e);
    var t2 := AddComponentPhotos(t1, c, e.photosComponent, TypeComponent);
    var t3 := AddComponentPhotos(t2, c, e.photosCheck, TypeCheck);
    UpsertOthers(t, i, e);
    AddComponentPhotosOthers(t1, i, c, e.photosComponent, TypeComponent);
    OthersUnchangedTrans(t, t1, t2, i);
    AddComponentPhotosOthers(t2, i, c, e.photosCheck, TypeCheck);
    OthersUnchangedTrans(t, t2, t3, i);
  }

  lemma ApplyEntryOthers(t: Tables, i: Id, e: ComponentEntry)
    ensures OthersUnchanged(t, i, ApplyEntry(t, i, e))
  {
    var c := Target(t, i, e);
    var u := EntryUploads(t, i, e);
    var u1 := DeleteTaggedPhotos(u, c, e.deletePhotosComponent, TypeComponent);
    EntryUploadsOthers(t, i, e);
    DeleteTaggedPhotosOthers(u, i, c, e.deletePhotosComponent, TypeComponent);
    OthersUnchangedTrans(t, u, u1, i);
    DeleteTaggedPhotosOthers(u1, i, c, e.deletePhotosCheck, TypeCheck);
    OthersUnchangedTrans(t, u1, ApplyEntry(t, i, e), i);
  }

  lemma {:induction false} ApplyEntriesOthers(t: Tables, i: Id, es: seq<ComponentEntry>)
    decreases |es|
    ensures OthersUnchanged(t, i, ApplyEntries(t, i, es))
  {
    if es != [] {
      var t1 := ApplyEntries(t, i, es[..|es| - 1]);
      ApplyEntriesOthers(t, i, es[..|es| - 1]);
      ApplyEntryOthers(t1, i, es[|es| - 1]);
      OthersUnchangedTrans(t, t1, ApplyEntries(t, i, es), i);
    }
  }

  lemma DeleteComponentsOthers(t: Tables, i: Id, cs: seq<Id>)
    ensures OthersUnchanged(t, i, DeleteComponents(t, i, cs))
  {
    DeleteComponentsIsRemoval(t, i, cs);
  }

  lemma DeleteBeforePhotosOthers(t: Tables, i: Id, xs: seq<Id>)
    ensures OthersUnchanged(t, i, DeleteBeforePhotos(t, i, xs))
  {
    DeleteBeforePhotosIsRemoval(t, i, xs);
  }

  /** `update` of inspection `i` leaves every component, component photo and
      inspection photo of every other inspection as it was: an entry whose id
      names a foreign component creates a new one instead, and every delete
      is scoped to this inspection. */
  lemma ReconcileLeavesOthers(t: Tables, i: Id, req: UpdateRequest)
    requires i in t.inspections
    ensures OthersUnchanged(t, i, Reconcile(t, i, req))
  {
    var t1 := OverwriteFields(t, i, Columns(req.fields));
    var t2 := AddBeforePhotos(t1, i, req.photosBefore);
    var t3 := ApplyEntries(t2, i, req.components);
    var t4 := DeleteComponents(t3, i, req.deleteComponents);
    assert OthersUnchanged(t, i, t2);
    ApplyEntriesOthers(t2, i, req.components);
    OthersUnchangedTrans(t, t2, t3, i);
    DeleteComponentsOthers(t3, i, req.deleteComponents);
    OthersUnchangedTrans(t, t3, t4, i);
    DeleteBeforePhotosOthers(t4, i, req.deletePhotosBefore);
    OthersUnchangedTrans(t, t4, Reconcile(t, i, req), i);
  }

  // ---------------------------------------------------------------------
  // What one component entry does to the photos.

  /** The photos an entry's two delete lists name that the type-filtered
      lookups of its component find. */
  function EntryDeletes(u: Tables, c: Id, e: ComponentEntry): (k: set<Id>)
    ensures forall p :: p in k <==>
      (p in e.deletePhotosComponent && p in PhotosTagged(u, c, TypeComponent))
      || (p in e.deletePhotosCheck && p in PhotosTagged(u, c, TypeCheck))
  {
    (Elements(e.deletePhotosComponent) * PhotosTagged(u, c, TypeComponent))
      + (Elements(e.deletePhotosCheck) * PhotosTagged(u, c, TypeCheck))
  }

  /** The two delete loops of an entry remove, in one go, the photos they
      name that are of their type and of the entry's component, with their files. */
  lemma ApplyEntryIsRemoval(t: Tables, i: Id, e: ComponentEntry)
    ensures ApplyEntry(t, i, e)
      == RemoveComponentPhotos(EntryUploads(t, i, e), EntryDeletes(EntryUploads(t, i, e), Target(t, i, e), e))
  {
    var c := Target(t, i, e);
    var u := EntryUploads(t, i, e);
    var k4 := Elements(e.deletePhotosComponent) * PhotosTagged(u, c, TypeComponent);
    DeleteTaggedPhotosIsRemoval(u, c, e.deletePhotosComponent, TypeComponent);
    var u1 := RemoveComponentPhotos(u, k4);
    DeleteTaggedPhotosIsRemoval(u1, c, e.deletePhotosCheck, TypeCheck);
    PhotosTaggedAfterRemoval(u, k4, c, TypeCheck);
    var k5 := Elements(e.deletePhotosCheck) * PhotosTagged(u1, c, TypeCheck);
    RemoveComponentPhotosTwice(u, k4, k5);
    assert k4 + k5 == EntryDeletes(u, c, e);
  }

  /** An existing photo survives the entry unless its id is listed in
      `_delete_photos_component` and it is a `component` photo of the entry's
      component, or listed in `_delete_photos_check` and a `check` photo of
      that component: a photo of another type, or of another component, is
      left intact whatever the lists say. */
  lemma ApplyEntryOldPhotos(t: Tables, i: Id, e: ComponentEntry)
    ensures forall p :: p in t.componentPhotos && p < t.nextId ==>
      (p in ApplyEntry(t, i, e).componentPhotos <==>
        !((p in e.deletePhotosComponent && p in PhotosTagged(t, Target(t, i, e), TypeComponent))
          || (p in e.deletePhotosCheck && p in PhotosTagged(t, Target(t, i, e), TypeCheck))))
  {
    var c := Target(t, i, e);
    var u := EntryUploads(t, i, e);
    ApplyEntryIsRemoval(t, i, e);
    forall p | p in t.componentPhotos && p < t.nextId
      ensures p in u.componentPhotos
      ensures p in PhotosTagged(u, c, TypeComponent) <==> p in PhotosTagged(t, c, TypeComponent)
      ensures p in PhotosTagged(u, c, TypeCheck) <==> p in PhotosTagged(t, c, TypeCheck)
    {
    }
  }

  /** An id listed in BOTH delete lists of an entry, as the Edit page's
      `removeExistingImage` lists it, removes that photo exactly when it is a
      `component` or a `check` photo of the entry's component: each loop's
      type filter lets only the matching one act. */
  lemma ApplyEntryBothLists(t: Tables, i: Id, e: ComponentEntry, p: Id)
    requires p in e.deletePhotosComponent && p in e.deletePhotosCheck
    requires p in t.componentPhotos && p < t.nextId
    ensures p !in ApplyEntry(t, i, e).componentPhotos <==>
      t.componentPhotos[p].componentId == Target(t, i, e)
      && (t.componentPhotos[p].tag == TypeComponent || t.componentPhotos[p].tag == TypeCheck)
  {
    ApplyEntryOldPhotos(t, i, e);
  }

  /** The existing photos the entry keeps are unchanged. */
  lemma ApplyEntryKeepsRows(t: Tables, i: Id, e: ComponentEntry)
    ensures forall p :: p in ApplyEntry(t, i, e).componentPhotos && p < t.nextId ==>
      p in t.componentPhotos && ApplyEntry(t, i, e).componentPhotos[p] == t.componentPhotos[p]
  {
    ApplyEntryIsRemoval(t, i, e);
  }

  /** Uploading into one bucket of a component adds exactly the new ids to
      that bucket ... */
  lemma AddComponentPhotosSameTag(t: Tables, c: Id, us: seq<UploadItem>, tag: string, m: nat)
    requires forall k :: k in t.componentPhotos ==> k < t.nextId
    requires m <= t.nextId
    ensures Newer(PhotosTagged(AddComponentPhotos(t, c, us, tag), c, tag), m)
      == Newer(PhotosTagged(t, c, tag), m) + IdRange(t.nextId, AddComponentPhotos(t, c, us, tag).nextId)
  {
  }

  /** ... and leaves the other bucket as it was. */
  lemma AddComponentPhotosOtherTag(t: Tables, c: Id, us: seq<UploadItem>, tag: string, other: string)
    requires forall k :: k in t.componentPhotos ==> k < t.nextId
    requires other != tag
    ensures PhotosTagged(AddComponentPhotos(t, c, us, tag), c, other) == PhotosTagged(t, c, other)
  {
  }

  lemma UploadComponentBucket(t: Tables, i: Id, e: ComponentEntry)
    requires KeysBelowNext(t)
    ensures var t1 := Upsert(t, i, e);
      var t2 := AddComponentPhotos(t1, Target(t, i, e), e.photosComponent, TypeComponent);
      && Newer(PhotosTagged(t2, Target(t, i, e), TypeComponent), t.nextId) == IdRange(t1.nextId, t2.nextId)
      && (forall k :: k in t2.componentPhotos ==> k < t2.nextId)
  {
    var t1 := Upsert(t, i, e);
    AddComponentPhotosSameTag(t1, Target(t, i, e), e.photosComponent, TypeComponent, t.nextId);
    assert Newer(PhotosTagged(t1, Target(t, i, e), TypeComponent), t.nextId) == {};
  }

  lemma EntryUploadsComponentPhotos(t: Tables, i: Id, e: ComponentEntry)
    requires KeysBelowNext(t)
    ensures |Newer(PhotosTagged(EntryUploads(t, i, e), Target(t, i, e), TypeComponent), t.nextId)|
      == CountFiles(e.photosComponent)
  {
    var c := Target(t, i, e);
    var t1 := Upsert(t, i, e);
    var t2 := AddComponentPhotos(t1, c, e.photosComponent, TypeComponent);
    UploadComponentBucket(t, i, e);
    AddComponentPhotosOtherTag(t2, c, e.photosCheck, TypeCheck, TypeComponent);
    IdRangeSize(t1.nextId, t2.nextId);
  }

  /** Uploading "component" photos and then "check" photos: the new "check"
      photos are exactly the ids the second loop hands out. */
  lemma SecondBucket(t1: Tables, c: Id, us1: seq<UploadItem>, us2: seq<UploadItem>, m: nat)
    requires forall k :: k in t1.componentPhotos ==> k < m
    requires m <= t1.nextId
    ensures var t2 := AddComponentPhotos(t1, c, us1, TypeComponent);
      var t3 := AddComponentPhotos(t2, c, us2, TypeCheck);
      Newer(PhotosTagged(t3, c, TypeCheck), m) == IdRange(t2.nextId, t3.nextId)
  {
    var t2 := AddComponentPhotos(t1, c, us1, TypeComponent);
    AddComponentPhotosOtherTag(t1, c, us1, TypeComponent, TypeCheck);
    assert Newer(PhotosTagged(t2, c, TypeCheck), m) == {};
    AddComponentPhotosSameTag(t2, c, us2, TypeCheck, m);
  }

  lemma EntryUploadsCheckPhotos(t: Tables, i: Id, e: ComponentEntry)
    requires KeysBelowNext(t)
    ensures |Newer(PhotosTagged(EntryUploads(t, i, e), Target(t, i, e), TypeCheck), t.nextId)|
      == CountFiles(e.photosCheck)
  {
    var c := Target(t, i, e);
    var t1 := Upsert(t, i, e);
    var t2 := AddComponentPhotos(t1, c, e.photosComponent, TypeComponent);
    var t3 := AddComponentPhotos(t2, c, e.photosCheck, TypeCheck);
    assert t1.componentPhotos == t.componentPhotos && t.nextId <= t1.nextId;
    SecondBucket(t1, c, e.photosComponent, e.photosCheck, t.nextId);
    IdRangeSize(t2.nextId, t3.nextId);
  }

  /** Taking away ids that are all below `n` leaves the ids from `n` on as they were. */
  lemma NewerWithoutOld(a: set<Id>, k: set<Id>, n: nat)
    requires forall p :: p in k ==> p < n
    ensures Newer(a - k, n) == Newer(a, n)
  {
  }

  /** Each file of `photos_component` adds one `component` photo of the
      entry's component; the deletes of the same entry cannot reach it, since
      validation only lets through ids of photos that already exist. */
  lemma ApplyEntryNewComponentPhotos(t: Tables, i: Id, e: ComponentEntry)
    requires KeysBelowNext(t)
    requires forall p :: p in e.deletePhotosComponent ==> p in t.componentPhotos
    requires forall p :: p in e.deletePhotosCheck ==> p in t.componentPhotos
    ensures |Newer(PhotosTagged(ApplyEntry(t, i, e), Target(t, i, e), TypeComponent), t.nextId)|
      == CountFiles(e.photosComponent)
  {
    var c := Target(t, i, e);
    var u := EntryUploads(t, i, e);
    var k := EntryDeletes(u, c, e);
    ApplyEntryIsRemoval(t, i, e);
    PhotosTaggedAfterRemoval(u, k, c, TypeComponent);
    EntryUploadsComponentPhotos(t, i, e);
    NewerWithoutOld(PhotosTagged(u, c, TypeComponent), k, t.nextId);
  }

  /** The same for `photos_check` and `check` photos. */
  lemma ApplyEntryNewCheckPhotos(t: Tables, i: Id, e: ComponentEntry)
    requires KeysBelowNext(t)
    requires forall p :: p in e.deletePhotosComponent ==> p in t.componentPhotos
    requires forall p :: p in e.deletePhotosCheck ==> p in t.componentPhotos
    ensures |Newer(PhotosTagged(ApplyEntry(t, i, e), Target(t, i, e), TypeCheck), t.nextId)|
      == CountFiles(e.photosCheck)
  {
    var c := Target(t, i, e);
    var u := EntryUploads(t, i, e);
    var k := EntryDeletes(u, c, e);
    ApplyEntryIsRemoval(t, i, e);
    PhotosTaggedAfterRemoval(u, k, c, TypeCheck);
    EntryUploadsCheckPhotos(t, i, e);
    NewerWithoutOld(PhotosTagged(u, c, TypeCheck), k, t.nextId);
  }

  // ---------------------------------------------------------------------
  // What `update` does to the inspection's photos and components.

  lemma AddBeforePhotosKeepsOld(t: Tables, i: Id, us: seq<UploadItem>)
    requires forall p :: p in t.inspectionPhotos ==> p < t.nextId
    ensures Older(PhotosBefore(AddBeforePhotos(t, i, us), i), t.nextId) == PhotosBefore(t, i)
  {
  }

  /** Each uploaded "before" file adds one photo of the inspection with type "before". */
  lemma AddBeforePhotosAddsNew(t: Tables, i: Id, us: seq<UploadItem>)
    requires forall p :: p in t.inspectionPhotos ==> p < t.nextId
    ensures |Newer(PhotosBefore(AddBeforePhotos(t, i, us), i), t.nextId)| == CountFiles(us)
  {
    var r := AddBeforePhotos(t, i, us);
    assert Newer(PhotosBefore(r, i), t.nextId) == IdRange(t.nextId, r.nextId);
    IdRangeSize(t.nextId, r.nextId);
  }

  /** Only the first and the last step of `update` touch inspection photos:
      the "before" photos after it are those after the upload loop, minus
      the listed ones. */
  lemma ReconcileInspectionPhotos(t: Tables, i: Id, req: UpdateRequest)
    requires i in t.inspections
    ensures PhotosBefore(Reconcile(t, i, req), i)
      == PhotosBefore(AddBeforePhotos(OverwriteFields(t, i, Columns(req.fields)), i, req.photosBefore), i)
         - Elements(req.deletePhotosBefore)
  {
    var t2 := AddBeforePhotos(OverwriteFields(t, i, Columns(req.fields)), i, req.photosBefore);
    var t4 := DeleteComponents(ApplyEntries(t2, i, req.components), i, req.deleteComponents);
    assert PhotosBefore(t4, i) == PhotosBefore(t2, i);
    DeleteBeforePhotosIsRemoval(t4, i, req.deletePhotosBefore);
    PhotosBeforeAfterRemoval(t4, Elements(req.deletePhotosBefore) * PhotosBefore(t4, i), i);
  }

  /** The old "before" photos that survive `update` are those not listed in
      `_delete_photos_before`. */
  lemma ReconcileKeepsBeforePhotos(t: Tables, i: Id, req: UpdateRequest)
    requires i in t.inspections && forall p :: p in t.inspectionPhotos ==> p < t.nextId
    ensures Older(PhotosBefore(Reconcile(t, i, req), i), t.nextId)
      == PhotosBefore(t, i) - Elements(req.deletePhotosBefore)
  {
    var t1 := OverwriteFields(t, i, Columns(req.fields));
    assert PhotosBefore(t1, i) == PhotosBefore(t, i);
    AddBeforePhotosKeepsOld(t1, i, req.photosBefore);
    ReconcileInspectionPhotos(t, i, req);
  }

  /** `update` adds one "before" photo per uploaded file, and none of them is
      deleted again, since validation only lets through ids that exist. */
  lemma ReconcileAddsBeforePhotos(t: Tables, i: Id, req: UpdateRequest)
    requires i in t.inspections && forall p :: p in t.inspectionPhotos ==> p < t.nextId
    requires forall p :: p in req.deletePhotosBefore ==> p in t.inspectionPhotos
    ensures |Newer(PhotosBefore(Reconcile(t, i, req), i), t.nextId)| == CountFiles(req.photosBefore)
  {
    var t1 := OverwriteFields(t, i, Columns(req.fields));
    AddBeforePhotosAddsNew(t1, i, req.photosBefore);
    ReconcileInspectionPhotos(t, i, req);
    var a := PhotosBefore(AddBeforePhotos(t1, i, req.photosBefore), i);
    var d := Elements(req.deletePhotosBefore);
    assert Newer(d, t.nextId) == {};
    assert Newer(a - d, t.nextId) == Newer(a, t.nextId);
  }

  /** A component of this inspection listed in `_delete_components` is gone
      after `update`, with all its photos, even when an entry of the same
      request updated it: whole-component deletion runs after every upsert. */
  lemma ReconcileDeletesListedComponents(t: Tables, i: Id, req: UpdateRequest)
    requires i in t.inspections && forall c :: c in t.components ==> c < t.nextId
    ensures forall c :: c in ComponentsOf(t, i) && c in req.deleteComponents ==>
      c !in Reconcile(t, i, req).components && PhotosOf(Reconcile(t, i, req), c) == {}
  {
    var t1 := OverwriteFields(t, i, Columns(req.fields));
    var t2 := AddBeforePhotos(t1, i, req.photosBefore);
    var t3 := ApplyEntries(t2, i, req.components);
    var cs := Elements(req.deleteComponents) * ComponentsOf(t3, i);
    DeleteComponentsIsRemoval(t3, i, req.deleteComponents);
    var t4 := RemoveComponents(t3, cs);
    var r := DeleteBeforePhotos(t4, i, req.deletePhotosBefore);
    assert r == Reconcile(t, i, req);
    forall c | c in ComponentsOf(t, i) && c in req.deleteComponents
      ensures c !in r.components && PhotosOf(r, c) == {}
    {
      assert c in t2.components && c < t2.nextId;
      assert c in cs;
    }
  }

  // ---------------------------------------------------------------------
  // Every step keeps the invariants: no row without its file, no file shared.

  /** A change that touches no photo row, no customer and no file keeps every
      row's file and the uniqueness of files. */
  lemma SameFilesValid(t: Tables, r: Tables)
    requires ValidTables(t)
    requires r.inspectionPhotos == t.inspectionPhotos && r.componentPhotos == t.componentPhotos
    requires r.assetPhotos == t.assetPhotos && r.customers == t.customers
    requires r.files == t.files && r.nextSerial == t.nextSerial
    ensures RowsHaveFiles(r) && PathsUnique(r) && SerialsBelowNext(r)
  {
    forall x | Live(r, x) ensures Live(t, x) && PathOf(r, x) == PathOf(t, x) { }
    assert PathsUnique(r);
  }

  lemma OverwriteFieldsValid(t: Tables, i: Id, f: InspectionFields)
    requires ValidTables(t) && i in t.inspections
    ensures ValidTables(OverwriteFields(t, i, f))
  {
    SameFilesValid(t, OverwriteFields(t, i, f));
  }

  /** Writing one component row under an existing inspection, below the
      counter, keeps the invariants. */
  lemma PutComponentValid(t: Tables, c: Id, row: ComponentRow, n: nat)
    requires ValidTables(t) && row.inspectionId in t.inspections && c < n && t.nextId <= n
    ensures ValidTables(t.(components := t.components[c := row], nextId := n))
  {
    var r := t.(components := t.components[c := row], nextId := n);
    SameFilesValid(t, r);
    assert OwnersExist(r);
  }

  /** Writing one inspection row at the counter and moving the counter on
      keeps the invariants. */
  lemma InsertInspectionValid(t: Tables, row: InspectionRow)
    requires ValidTables(t)
    ensures ValidTables(InsertInspection(t, row))
  {
    var r := InsertInspection(t, row);
    SameFilesValid(t, r);
    assert OwnersExist(r);
  }

  lemma UpsertValid(t: Tables, i: Id, e: ComponentEntry)
    requires ValidTables(t) && i in t.inspections
    ensures ValidTables(Upsert(t, i, e))
  {
    if Resolves(t, i, e) {
      var c := e.id.value;
      PutComponentValid(t, c, ComponentRow(t.components[c].inspectionId, e.fields), t.nextId);
    } else {
      PutComponentValid(t, t.nextId, ComponentRow(i, e.fields), t.nextId + 1);
    }
  }

  lemma {:induction false} AddBeforePhotosValid(t: Tables, i: Id, us: seq<UploadItem>)
    requires ValidTables(t) && i in t.inspections
    decreases |us|
    ensures ValidTables(AddBeforePhotos(t, i, us))
  {
    if us != [] {
      var t0 := AddBeforePhotos(t, i, us[..|us| - 1]);
      AddBeforePhotosValid(t, i, us[..|us| - 1]);
      if us[|us| - 1].File? {
        AddInspectionPhotoValid(t0, i, TypeBefore);
      }
    }
  }

  lemma {:induction false} AddComponentPhotosValid(t: Tables, c: Id, us: seq<UploadItem>, tag: string)
    requires ValidTables(t) && c in t.components
    decreases |us|
    ensures ValidTables(AddComponentPhotos(t, c, us, tag))
  {
    if us != [] {
      var t0 := AddComponentPhotos(t, c, us[..|us| - 1], tag);
      AddComponentPhotosValid(t, c, us[..|us| - 1], tag);
      if us[|us| - 1].File? {
        AddComponentPhotoValid(t0, c, tag);
      }
    }
  }

  lemma DeleteTaggedPhotosValid(t: Tables, c: Id, xs: seq<Id>, tag: string)
    requires ValidTables(t)
    ensures ValidTables(DeleteTaggedPhotos(t, c, xs, tag))
  {
    DeleteTaggedPhotosIsRemoval(t, c, xs, tag);
    RemoveComponentPhotosValid(t, Elements(xs) * PhotosTagged(t, c, tag));
  }

  lemma DeleteBeforePhotosValid(t: Tables, i: Id, xs: seq<Id>)
    requires ValidTables(t)
    ensures ValidTables(DeleteBeforePhotos(t, i, xs))
  {
    DeleteBeforePhotosIsRemoval(t, i, xs);
    RemoveInspectionPhotosValid(t, Elements(xs) * PhotosBefore(t, i));
  }

  /** Deleting components together with all their photos leaves no photo
      whose component is gone. */
  lemma RemoveComponentsValid(t: Tables, cs: set<Id>)
    requires ValidTables(t)
    ensures ValidTables(RemoveComponents(t, cs))
  {
    var u := RemoveComponentPhotos(t, PhotosOfAll(t, cs));
    RemoveComponentPhotosValid(t, PhotosOfAll(t, cs));
    SameFilesValid(u, RemoveComponents(t, cs));
  }

  lemma DeleteComponentsValid(t: Tables, i: Id, cs: seq<Id>)
    requires ValidTables(t)
    ensures ValidTables(DeleteComponents(t, i, cs))
  {
    DeleteComponentsIsRemoval(t, i, cs);
    RemoveComponentsValid(t, Elements(cs) * ComponentsOf(t, i));
  }

  lemma EntryUploadsValid(t: Tables, i: Id, e: ComponentEntry)
    requires ValidTables(t) && i in t.inspections
    ensures ValidTables(EntryUploads(t, i, e))
  {
    var c := Target(t, i, e);
    var t1 := Upsert(t, i, e);
    UpsertValid(t, i, e);
    UpsertOthers(t, i, e);
    AddComponentPhotosValid(t1, c, e.photosComponent, TypeComponent);
    AddComponentPhotosValid(AddComponentPhotos(t1, c, e.photosComponent, TypeComponent), c, e.photosCheck, TypeCheck);
  }

  lemma ApplyEntryValid(t: Tables, i: Id, e: ComponentEntry)
    requires ValidTables(t) && i in t.inspections
    ensures ValidTables(ApplyEntry(t, i, e))
  {
    var c := Target(t, i, e);
    var u := EntryUploads(t, i, e);
    EntryUploadsValid(t, i, e);
    DeleteTaggedPhotosValid(u, c, e.deletePhotosComponent, TypeComponent);
    DeleteTaggedPhotosValid(DeleteTaggedPhotos(u, c, e.deletePhotosComponent, TypeComponent), c,
      e.deletePhotosCheck, TypeCheck);
  }

  lemma {:induction false} ApplyEntriesValid(t: Tables, i: Id, es: seq<ComponentEntry>)
    requires ValidTables(t) && i in t.inspections
    decreases |es|
    ensures ValidTables(ApplyEntries(t, i, es))
  {
    if es != [] {
      ApplyEntriesValid(t, i, es[..|es| - 1]);
      ApplyEntryValid(ApplyEntries(t, i, es[..|es| - 1]), i, es[|es| - 1]);
    }
  }

  /** `update` keeps the invariants, whatever the request holds. */
  lemma ReconcileValid(t: Tables, i: Id, req: UpdateRequest)
    requires ValidTables(t) && i in t.inspections
    ensures ValidTables(Reconcile(t, i, req))
  {
    var t1 := OverwriteFields(t, i, Columns(req.fields));
    var t2 := AddBeforePhotos(t1, i, req.photosBefore);
    var t3 := ApplyEntries(t2, i, req.components);
    OverwriteFieldsValid(t, i, Columns(req.fields));
    AddBeforePhotosValid(t1, i, req.photosBefore);
    ApplyEntriesValid(t2, i, req.components);
    DeleteComponentsValid(t3, i, req.deleteComponents);
    DeleteBeforePhotosValid(DeleteComponents(t3, i, req.deleteComponents), i, req.deletePhotosBefore);
  }

  lemma UpdateValid(t: Tables, i: Id, req: UpdateRequest)
    requires ValidTables(t)
    ensures ValidTables(Update(t, i, req))
  {
    if UpdateOutcome(t, i, req) == Saved {
      ReconcileValid(t, i, req);
    }
  }

  lemma CreateComponentValid(t: Tables, i: Id, c: NewComponent)
    requires ValidTables(t) && i in t.inspections
    ensures ValidTables(CreateComponent(t, i, c))
  {
    var id := t.nextId;
    var t1 := InsertComponent(t, i, c.fields);
    PutComponentValid(t, id, ComponentRow(i, c.fields), id + 1);
    AddComponentPhotosValid(t1, id, c.photosComponent, TypeComponent);
    var t2 := AddComponentPhotos(t1, id, c.photosComponent, TypeComponent);
    AddComponentPhotosValid(t2, id, c.photosCheck, TypeCheck);
  }

  lemma {:induction false} CreateComponentsValid(t: Tables, i: Id, cs: seq<NewComponent>)
    requires ValidTables(t) && i in t.inspections
    decreases |cs|
    ensures ValidTables(CreateComponents(t, i, cs))
  {
    if cs != [] {
      CreateComponentsValid(t, i, cs[..|cs| - 1]);
      CreateComponentValid(CreateComponents(t, i, cs[..|cs| - 1]), i, cs[|cs| - 1]);
    }
  }

  /** `store` keeps the invariants. */
  lemma StoreValid(t: Tables, user: Id, req: StoreRequest)
    requires ValidTables(t)
    ensures ValidTables(Store(t, user, req))
  {
    if StoreOutcome(t, req) == Saved {
      var i := t.nextId;
      var t1 := InsertInspection(t, InspectionRow(user, Columns(req.fields)));
      InsertInspectionValid(t, InspectionRow(user, Columns(req.fields)));
      AddBeforePhotosValid(t1, i, req.photosBefore);
      CreateComponentsValid(AddBeforePhotos(t1, i, req.photosBefore), i, req.components);
    }
  }
}
