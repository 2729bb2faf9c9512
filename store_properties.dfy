/**
 * What `store` of InspectionController creates: one inspection owned by the
 * submitting user, one "before" photo per uploaded file, and one component
 * per submitted entry, in submission order, each with the submitted fields
 * and one "component" and one "check" photo per file of its two arrays.
 */
module StoreProperties {
  import opened Wrappers
  import opened Models
  import opened Validation
  import opened InspectionRequests
  import opened IdSets
  import opened InspectionReconciler
  import opened ReconcileProperties

  /** The ids the components loop of `store` gives its rows, in order. */
  ghost function NewComponentIds(t: Tables, i: Id, cs: seq<NewComponent>): (ids: seq<Id>)
    decreases |cs|
    ensures |ids| == |cs|
    ensures forall k :: 0 <= k < |ids| ==> t.nextId <= ids[k] < CreateComponents(t, i, cs).nextId
    ensures forall j, k :: 0 <= j < k < |ids| ==> ids[j] < ids[k]
  {
    if cs == [] then []
    else NewComponentIds(t, i, cs[..|cs| - 1]) + [CreateComponents(t, i, cs[..|cs| - 1]).nextId]
  }

  /** The components loop of `store` adds exactly the new ids to the
      components table. */
  lemma {:induction false} CreateComponentsKeys(t: Tables, i: Id, cs: seq<NewComponent>)
    decreases |cs|
    ensures var r := CreateComponents(t, i, cs);
      forall c :: c in r.components <==> c in t.components || c in NewComponentIds(t, i, cs)
  {
    if cs != [] {
      var u := CreateComponents(t, i, cs[..|cs| - 1]);
      var ids0 := NewComponentIds(t, i, cs[..|cs| - 1]);
      CreateComponentsKeys(t, i, cs[..|cs| - 1]);
      assert NewComponentIds(t, i, cs) == ids0 + [u.nextId];
      forall c ensures c in NewComponentIds(t, i, cs) <==> c in ids0 || c == u.nextId {
        assert c in ids0 + [u.nextId] <==> c in ids0 || c == u.nextId;
      }
    }
  }

  /** The components loop of `store` changes no existing component row. */
  lemma {:induction false} CreateComponentsKeepRows(t: Tables, i: Id, cs: seq<NewComponent>)
    decreases |cs|
    ensures var r := CreateComponents(t, i, cs);
      forall c :: c in t.components && c < t.nextId ==> c in r.components && r.components[c] == t.components[c]
  {
    if cs != [] {
      CreateComponentsKeepRows(t, i, cs[..|cs| - 1]);
    }
  }

  /** The components loop of `store` gives the k-th new id the fields of the
      k-th entry, under the inspection. */
  lemma {:induction false} CreateComponentsNewRows(t: Tables, i: Id, cs: seq<NewComponent>)
    decreases |cs|
    ensures var r := CreateComponents(t, i, cs); var ids := NewComponentIds(t, i, cs);
      forall k :: 0 <= k < |ids| ==> ids[k] in r.components && r.components[ids[k]] == ComponentRow(i, cs[k].fields)
  {
    if cs != [] {
      var front := cs[..|cs| - 1];
      var u := CreateComponents(t, i, front);
      var ids0 := NewComponentIds(t, i, front);
      CreateComponentsNewRows(t, i, front);
      var ids := NewComponentIds(t, i, cs);
      var r := CreateComponent(u, i, cs[|cs| - 1]);
      assert ids == ids0 + [u.nextId];
      assert CreateComponents(t, i, cs) == r;
      assert r.components == u.components[u.nextId := ComponentRow(i, cs[|cs| - 1].fields)];
      forall k | 0 <= k < |ids| ensures ids[k] in r.components && r.components[ids[k]] == ComponentRow(i, cs[k].fields) {
        if k < |ids0| {
          assert ids[k] == ids0[k] < u.nextId;
          assert ids[k] in u.components && u.components[ids[k]] == ComponentRow(i, front[k].fields);
          assert cs[k] == front[k];
        } else {
          assert ids[k] == u.nextId && cs[k] == cs[|cs| - 1];
        }
      }
    }
  }

  /** A new inspection has no photos and no components yet. */
  lemma FreshInspectionIsEmpty(t: Tables)
    requires ValidTables(t)
    ensures PhotosBefore(t, t.nextId) == {} && ComponentsOf(t, t.nextId) == {}
  {
    forall p | p in t.inspectionPhotos ensures t.inspectionPhotos[p].inspectionId != t.nextId {
      assert t.inspectionPhotos[p].inspectionId in t.inspections;
    }
    forall c | c in t.components ensures t.components[c].inspectionId != t.nextId {
      assert t.components[c].inspectionId in t.inspections;
    }
  }

  lemma FreshBeforePhotos(t: Tables, row: InspectionRow, us: seq<UploadItem>)
    requires ValidTables(t)
    ensures |PhotosBefore(AddBeforePhotos(InsertInspection(t, row), t.nextId, us), t.nextId)| == CountFiles(us)
  {
    var n := t.nextId;
    var t1 := InsertInspection(t, row);
    var t2 := AddBeforePhotos(t1, n, us);
    FreshInspectionIsEmpty(t);
    assert PhotosBefore(t1, n) == {};
    AddBeforePhotosKeepsOld(t1, n, us);
    AddBeforePhotosAddsNew(t1, n, us);
    assert PhotosBefore(t2, n) == Newer(PhotosBefore(t2, n), t1.nextId);
  }

  /** After a valid `store`, the new inspection has exactly one "before"
      photo per uploaded file; the rule lets only files through, so that is
      one per entry. */
  lemma StoreBeforePhotos(t: Tables, user: Id, req: StoreRequest)
    requires ValidTables(t) && StoreOutcome(t, req) == Saved
    ensures |PhotosBefore(Store(t, user, req), t.nextId)| == CountFiles(req.photosBefore)
    ensures |PhotosBefore(Store(t, user, req), t.nextId)| == |req.photosBefore|
  {
    ImagesAreFiles(req.photosBefore);
    var n := t.nextId;
    var t1 := InsertInspection(t, InspectionRow(user, Columns(req.fields)));
    var t2 := AddBeforePhotos(t1, n, req.photosBefore);
    FreshBeforePhotos(t, InspectionRow(user, Columns(req.fields)), req.photosBefore);
    assert Store(t, user, req).inspectionPhotos == t2.inspectionPhotos;
  }

  /** The components loop of `store`, run for an inspection that has no
      components yet, leaves it exactly the new rows. */
  lemma FreshComponents(t: Tables, i: Id, cs: seq<NewComponent>)
    requires forall c :: c in t.components ==> c < t.nextId
    requires ComponentsOf(t, i) == {}
    ensures var r := CreateComponents(t, i, cs); var ids := NewComponentIds(t, i, cs);
      forall c :: c in ComponentsOf(r, i) <==> c in ids
  {
    var r := CreateComponents(t, i, cs);
    var ids := NewComponentIds(t, i, cs);
    CreateComponentsKeys(t, i, cs);
    CreateComponentsKeepRows(t, i, cs);
    CreateComponentsNewRows(t, i, cs);
    forall k | 0 <= k < |ids| ensures ids[k] in ComponentsOf(r, i) {
      assert r.components[ids[k]].inspectionId == i;
    }
    forall c | c in t.components ensures c !in ComponentsOf(r, i) {
      assert c !in ComponentsOf(t, i);
    }
  }

  /** After a valid `store`, the components of the new inspection are
      exactly one new row per submitted entry, in submission order, each
      with that entry's fields. */
  lemma StoreComponents(t: Tables, user: Id, req: StoreRequest) returns (ids: seq<Id>)
    requires ValidTables(t) && StoreOutcome(t, req) == Saved
    ensures var r := Store(t, user, req);
      && |ids| == |req.components|
      && (forall c :: c in ComponentsOf(r, t.nextId) <==> c in ids)
      && (forall j, k :: 0 <= j < k < |ids| ==> ids[j] < ids[k])
      && (forall k :: 0 <= k < |ids| ==>
            ids[k] in r.components && r.components[ids[k]] == ComponentRow(t.nextId, req.components[k].fields))
  {
    var n := t.nextId;
    var t2 := AddBeforePhotos(InsertInspection(t, InspectionRow(user, Columns(req.fields))), n, req.photosBefore);
    FreshInspectionIsEmpty(t);
    assert t2.components == t.components;
    ids := NewComponentIds(t2, n, req.components);
    FreshComponents(t2, n, req.components);
    CreateComponentsNewRows(t2, n, req.components);
    assert Store(t, user, req) == CreateComponents(t2, n, req.components);
  }

  /** Every component photo, and the component it points at, has an id
      below the counter: what the components loop of `store` needs of the
      invariants. */
  ghost predicate PhotosBelowNext(t: Tables) {
    forall k :: k in t.componentPhotos ==> k < t.nextId && t.componentPhotos[k].componentId < t.nextId
  }

  lemma ValidPhotosBelowNext(t: Tables)
    requires ValidTables(t)
    ensures PhotosBelowNext(t)
  {
    forall p | p in t.componentPhotos ensures t.componentPhotos[p].componentId < t.nextId {
      assert t.componentPhotos[p].componentId in t.components;
    }
  }

  /** One iteration of the components loop keeps `PhotosBelowNext`. */
  lemma CreateComponentPhotosBelowNext(t: Tables, i: Id, c: NewComponent)
    requires PhotosBelowNext(t)
    ensures PhotosBelowNext(CreateComponent(t, i, c))
  {
    var id := t.nextId;
    var t1 := InsertComponent(t, i, c.fields);
    var t2 := AddComponentPhotos(t1, id, c.photosComponent, TypeComponent);
    assert PhotosBelowNext(t2);
  }

  /** Uploading into an empty bucket makes the bucket exactly the ids handed out. */
  lemma UploadIntoEmptyBucket(t: Tables, c: Id, us: seq<UploadItem>, tag: string)
    requires forall k :: k in t.componentPhotos ==> k < t.nextId
    requires PhotosTagged(t, c, tag) == {}
    ensures |PhotosTagged(AddComponentPhotos(t, c, us, tag), c, tag)| == CountFiles(us)
  {
    var r := AddComponentPhotos(t, c, us, tag);
    AddComponentPhotosSameTag(t, c, us, tag, 0);
    assert PhotosTagged(r, c, tag) == Newer(PhotosTagged(r, c, tag), 0);
    assert Newer(PhotosTagged(t, c, tag), 0) == {};
    IdRangeSize(t.nextId, r.nextId);
  }

  /** One iteration of the components loop of `store` gives the new
      component one "component" photo per uploaded file of its first array
      and one "check" photo per file of its second. */
  lemma CreateComponentPhotos(t: Tables, i: Id, c: NewComponent)
    requires PhotosBelowNext(t)
    ensures var r := CreateComponent(t, i, c);
      && |PhotosTagged(r, t.nextId, TypeComponent)| == CountFiles(c.photosComponent)
      && |PhotosTagged(r, t.nextId, TypeCheck)| == CountFiles(c.photosCheck)
  {
    var id := t.nextId;
    var t1 := InsertComponent(t, i, c.fields);
    var t2 := AddComponentPhotos(t1, id, c.photosComponent, TypeComponent);
    var r := AddComponentPhotos(t2, id, c.photosCheck, TypeCheck);
    assert r == CreateComponent(t, i, c);
    assert PhotosOf(t1, id) == {};
    UploadIntoEmptyBucket(t1, id, c.photosComponent, TypeComponent);
    AddComponentPhotosOtherTag(t1, id, c.photosComponent, TypeComponent, TypeCheck);
    UploadIntoEmptyBucket(t2, id, c.photosCheck, TypeCheck);
    AddComponentPhotosOtherTag(t2, id, c.photosCheck, TypeCheck, TypeComponent);
  }

  /** A later iteration of the components loop leaves the photos of an
      earlier component as they were. */
  lemma CreateComponentKeepsPhotos(t: Tables, i: Id, c: NewComponent, x: Id, tag: string)
    requires forall k :: k in t.componentPhotos ==> k < t.nextId
    requires x != t.nextId
    ensures PhotosTagged(CreateComponent(t, i, c), x, tag) == PhotosTagged(t, x, tag)
  {
    var id := t.nextId;
    var t1 := InsertComponent(t, i, c.fields);
    var t2 := AddComponentPhotos(t1, id, c.photosComponent, TypeComponent);
    var r := AddComponentPhotos(t2, id, c.photosCheck, TypeCheck);
    assert PhotosTagged(t2, x, tag) == PhotosTagged(t1, x, tag);
    assert PhotosTagged(r, x, tag) == PhotosTagged(t2, x, tag);
  }

  /** The counts of the earlier components survive one more iteration, and
      the new component gets its own. */
  lemma CreateComponentsPhotosStep(u: Tables, i: Id, ids0: seq<Id>, cs: seq<NewComponent>)
    requires forall k :: k in u.componentPhotos ==> k < u.nextId
    requires |cs| == |ids0| + 1
    requires forall k :: 0 <= k < |ids0| ==> ids0[k] < u.nextId
    requires forall k :: 0 <= k < |ids0| ==>
      && |PhotosTagged(u, ids0[k], TypeComponent)| == CountFiles(cs[k].photosComponent)
      && |PhotosTagged(u, ids0[k], TypeCheck)| == CountFiles(cs[k].photosCheck)
    requires var r := CreateComponent(u, i, cs[|ids0|]);
      && |PhotosTagged(r, u.nextId, TypeComponent)| == CountFiles(cs[|ids0|].photosComponent)
      && |PhotosTagged(r, u.nextId, TypeCheck)| == CountFiles(cs[|ids0|].photosCheck)
    ensures var r := CreateComponent(u, i, cs[|ids0|]); var ids := ids0 + [u.nextId];
      forall k :: 0 <= k < |ids| ==>
        && |PhotosTagged(r, ids[k], TypeComponent)| == CountFiles(cs[k].photosComponent)
        && |PhotosTagged(r, ids[k], TypeCheck)| == CountFiles(cs[k].photosCheck)
  {
    var r := CreateComponent(u, i, cs[|ids0|]);
    var ids := ids0 + [u.nextId];
    forall k | 0 <= k < |ids|
      ensures |PhotosTagged(r, ids[k], TypeComponent)| == CountFiles(cs[k].photosComponent)
      ensures |PhotosTagged(r, ids[k], TypeCheck)| == CountFiles(cs[k].photosCheck)
    {
      if k < |ids0| {
        assert ids[k] == ids0[k];
        CreateComponentKeepsPhotos(u, i, cs[|ids0|], ids[k], TypeComponent);
        CreateComponentKeepsPhotos(u, i, cs[|ids0|], ids[k], TypeCheck);
      } else {
        assert ids[k] == u.nextId;
      }
    }
  }

  /** The components loop of `store` gives its k-th new component one photo
      of each type per uploaded file of the k-th entry. */
  lemma {:induction false} CreateComponentsPhotos(t: Tables, i: Id, cs: seq<NewComponent>)
    requires PhotosBelowNext(t)
    decreases |cs|
    ensures PhotosBelowNext(CreateComponents(t, i, cs))
    ensures var r := CreateComponents(t, i, cs); var ids := NewComponentIds(t, i, cs);
      forall k :: 0 <= k < |ids| ==>
        && |PhotosTagged(r, ids[k], TypeComponent)| == CountFiles(cs[k].photosComponent)
        && |PhotosTagged(r, ids[k], TypeCheck)| == CountFiles(cs[k].photosCheck)
  {
    if cs != [] {
      var front := cs[..|cs| - 1];
      var u := CreateComponents(t, i, front);
      var ids0 := NewComponentIds(t, i, front);
      CreateComponentsPhotos(t, i, front);
      CreateComponentPhotos(u, i, cs[|cs| - 1]);
      CreateComponentPhotosBelowNext(u, i, cs[|cs| - 1]);
      assert NewComponentIds(t, i, cs) == ids0 + [u.nextId];
      assert CreateComponents(t, i, cs) == CreateComponent(u, i, cs[|cs| - 1]);
      CreateComponentsPhotosStep(u, i, ids0, cs);
    }
  }

  /** The components loop of `store`, run for an inspection that has no
      components yet, gives it exactly one new component per entry, in
      order, each with one photo of each type per file of the entry. */
  lemma FreshComponentPhotos(t: Tables, i: Id, cs: seq<NewComponent>) returns (ids: seq<Id>)
    requires PhotosBelowNext(t) && (forall c :: c in t.components ==> c < t.nextId)
    requires ComponentsOf(t, i) == {}
    requires forall k :: 0 <= k < |cs| ==> NewComponentRule(cs[k])
    ensures var r := CreateComponents(t, i, cs);
      && |ids| == |cs|
      && (forall c :: c in ComponentsOf(r, i) <==> c in ids)
      && (forall j, k :: 0 <= j < k < |ids| ==> ids[j] < ids[k])
      && (forall k :: 0 <= k < |ids| ==>
            && |PhotosTagged(r, ids[k], TypeComponent)| == |cs[k].photosComponent|
            && |PhotosTagged(r, ids[k], TypeCheck)| == |cs[k].photosCheck|)
  {
    ids := NewComponentIds(t, i, cs);
    FreshComponents(t, i, cs);
    CreateComponentsPhotos(t, i, cs);
    ComponentImagesAreFiles(cs);
  }

  /** After a valid `store`, the k-th new component has exactly one
      "component" photo per element of its `photos_component` and one
      "check" photo per element of its `photos_check`. */
  lemma StoreComponentPhotos(t: Tables, user: Id, req: StoreRequest) returns (ids: seq<Id>)
    requires ValidTables(t) && StoreOutcome(t, req) == Saved
    ensures var r := Store(t, user, req);
      && |ids| == |req.components|
      && (forall c :: c in ComponentsOf(r, t.nextId) <==> c in ids)
      && (forall j, k :: 0 <= j < k < |ids| ==> ids[j] < ids[k])
      && (forall k :: 0 <= k < |ids| ==>
            && |PhotosTagged(r, ids[k], TypeComponent)| == |req.components[k].photosComponent|
            && |PhotosTagged(r, ids[k], TypeCheck)| == |req.components[k].photosCheck|)
  {
    var n := t.nextId;
    var t1 := InsertInspection(t, InspectionRow(user, Columns(req.fields)));
    var t2 := AddBeforePhotos(t1, n, req.photosBefore);
    ValidPhotosBelowNext(t);
    assert PhotosBelowNext(t2);
    FreshInspectionIsEmpty(t);
    assert t2.components == t.components;
    ids := FreshComponentPhotos(t2, n, req.components);
    assert Store(t, user, req) == CreateComponents(t2, n, req.components);
  }

  /** The rule lets only files through in the two photo arrays of each
      submitted component. */
  lemma ComponentImagesAreFiles(cs: seq<NewComponent>)
    requires forall k :: 0 <= k < |cs| ==> NewComponentRule(cs[k])
    ensures forall k :: 0 <= k < |cs| ==>
      CountFiles(cs[k].photosComponent) == |cs[k].photosComponent| && CountFiles(cs[k].photosCheck) == |cs[k].photosCheck|
  {
    forall k | 0 <= k < |cs|
      ensures CountFiles(cs[k].photosComponent) == |cs[k].photosComponent| && CountFiles(cs[k].photosCheck) == |cs[k].photosCheck|
    {
      ImagesAreFiles(cs[k].photosComponent);
      ImagesAreFiles(cs[k].photosCheck);
    }
  }

  /** The new inspection belongs to the submitting user and holds the
      submitted fields; no existing inspection changes. */
  lemma StoreInspectionRow(t: Tables, user: Id, req: StoreRequest)
    requires KeysBelowNext(t)
    ensures var r := StoreInspection(t, user, req);
      && (forall i :: i in r.inspections <==> i in t.inspections || i == t.nextId)
      && r.inspections[t.nextId] == InspectionRow(user, Columns(req.fields))
      && (forall i :: i in t.inspections ==> r.inspections[i] == t.inspections[i])
  {
  }
}
