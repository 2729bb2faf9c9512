/**
 * InspectionController's `store` and `update`, written as the controller
 * runs them: one loop per `foreach`, one database or disk call at a time.
 * Each method is proved to leave the database in the state that the
 * matching function of InspectionReconciler describes, so every lemma about
 * those functions holds of the controller.
 */
module InspectionController {
  import opened Wrappers
  import opened Models
  import opened Validation
  import opened InspectionRequests
  import opened IdSets
  import opened InspectionReconciler
  import opened ReconcileProperties

  /** Store one uploaded file, then create its "before" photo row. */
  method StorePhoto(db: Database, inspection: Id)
    modifies db
    ensures db.Snapshot() == AddInspectionPhoto(old(db.Snapshot()), inspection, TypeBefore)
  {
    var path := db.StoreFile(InspectionPhotoDir);
    var _ := db.CreateInspectionPhoto(inspection, path, TypeBefore);
  }

  /** Store one uploaded file, then create its component photo row. */
  method StoreComponentPhoto(db: Database, component: Id, tag: string)
    modifies db
    ensures db.Snapshot() == AddComponentPhoto(old(db.Snapshot()), component, tag)
  {
    var path := db.StoreFile(ComponentPhotoDir);
    var _ := db.CreateComponentPhoto(component, path, tag);
  }

  /** The `photos_before` loop: store each file, then create its photo row. */
  method UploadBeforePhotos(db: Database, inspection: Id, us: seq<UploadItem>)
    modifies db
    ensures db.Snapshot() == AddBeforePhotos(old(db.Snapshot()), inspection, us)
  {
    ghost var t0 := db.Snapshot();
    var k := 0;
    while k < |us|
      invariant 0 <= k <= |us|
      invariant db.Snapshot() == AddBeforePhotos(t0, inspection, us[..k])
    {
      assert us[..k + 1][..k] == us[..k];
      if us[k].File? {
        StorePhoto(db, inspection);
      }
      k := k + 1;
    }
    assert us[..k] == us;
  }

  /** A `photos_component` or `photos_check` loop: elements that are not
      uploaded files are skipped. */
  method UploadComponentPhotos(db: Database, component: Id, us: seq<UploadItem>, tag: string)
    modifies db
    ensures db.Snapshot() == AddComponentPhotos(old(db.Snapshot()), component, us, tag)
  {
    ghost var t0 := db.Snapshot();
    var k := 0;
    while k < |us|
      invariant 0 <= k <= |us|
      invariant db.Snapshot() == AddComponentPhotos(t0, component, us[..k], tag)
    {
      assert us[..k + 1][..k] == us[..k];
      if us[k].File? {
        StoreComponentPhoto(db, component, tag);
      }
      k := k + 1;
    }
    assert us[..k] == us;
  }

  /** Delete one component photo: its file first, then its row. */
  method RemoveComponentPhoto(db: Database, p: Id)
    requires p in db.componentPhotos
    modifies db
    ensures db.Snapshot() == RemoveComponentPhotos(old(db.Snapshot()), {p})
  {
    RemoveOneComponentPhoto(db.Snapshot(), p);
    db.DeleteFile(db.componentPhotos[p].path);
    db.DeleteComponentPhoto(p);
  }

  /** A `_delete_photos_component` or `_delete_photos_check` loop: the id
      must name a photo of this component with this type. */
  method DeleteTaggedPhotosLoop(db: Database, component: Id, xs: seq<Id>, tag: string)
    modifies db
    ensures db.Snapshot() == DeleteTaggedPhotos(old(db.Snapshot()), component, xs, tag)
  {
    ghost var t0 := db.Snapshot();
    var k := 0;
    while k < |xs|
      invariant 0 <= k <= |xs|
      invariant db.Snapshot() == DeleteTaggedPhotos(t0, component, xs[..k], tag)
    {
      assert xs[..k + 1][..k] == xs[..k];
      var x := xs[k];
      if x in db.componentPhotos && db.componentPhotos[x].componentId == component
         && db.componentPhotos[x].tag == tag
      {
        RemoveComponentPhoto(db, x);
      }
      k := k + 1;
    }
    assert xs[..k] == xs;
  }

  /** One iteration of the `components` loop of `update`. */
  method ReconcileEntry(db: Database, inspection: Id, e: ComponentEntry)
    modifies db
    ensures db.Snapshot() == ApplyEntry(old(db.Snapshot()), inspection, e)
  {
    ghost var t0 := db.Snapshot();
    var component: Id;
    if e.id.Some? && e.id.value in db.components && db.components[e.id.value].inspectionId == inspection {
      component := e.id.value;
      db.UpdateComponent(component, e.fields);
    } else {
      component := db.CreateComponent(inspection, e.fields);
    }
    assert component == Target(t0, inspection, e);
    assert db.Snapshot() == Upsert(t0, inspection, e);
    UploadComponentPhotos(db, component, e.photosComponent, TypeComponent);
    UploadComponentPhotos(db, component, e.photosCheck, TypeCheck);
    assert db.Snapshot() == EntryUploads(t0, inspection, e);
    DeleteTaggedPhotosLoop(db, component, e.deletePhotosComponent, TypeComponent);
    DeleteTaggedPhotosLoop(db, component, e.deletePhotosCheck, TypeCheck);
  }

  /** One iteration of the `_delete_components` loop: the component must be
      one of this inspection's; each of its photos loses its file and its
      row, then the component row goes. */
  method DeleteWholeComponent(db: Database, inspection: Id, c: Id)
    modifies db
    ensures db.Snapshot() == DeleteComponent(old(db.Snapshot()), inspection, c)
  {
    ghost var t0 := db.Snapshot();
    if c in db.components && db.components[c].inspectionId == inspection {
      var owned := PhotosOf(db.Snapshot(), c);
      ghost var all := owned;
      while owned != {}
        invariant owned <= all
        invariant db.Snapshot() == RemoveComponentPhotos(t0, all - owned)
        decreases owned
      {
        var p :| p in owned;
        RemoveComponentPhotosTwice(t0, all - owned, {p});
        assert (all - owned) + {p} == all - (owned - {p});
        RemoveComponentPhoto(db, p);
        owned := owned - {p};
      }
      db.DeleteComponent(c);
    }
  }

  /** A `_delete_photos_before` loop: the id must name a photo of this
      inspection with type "before". */
  method DeleteBeforePhotosLoop(db: Database, inspection: Id, xs: seq<Id>)
    modifies db
    ensures db.Snapshot() == DeleteBeforePhotos(old(db.Snapshot()), inspection, xs)
  {
    ghost var t0 := db.Snapshot();
    var k := 0;
    while k < |xs|
      invariant 0 <= k <= |xs|
      invariant db.Snapshot() == DeleteBeforePhotos(t0, inspection, xs[..k])
    {
      assert xs[..k + 1][..k] == xs[..k];
      var x := xs[k];
      if x in db.inspectionPhotos && db.inspectionPhotos[x].inspectionId == inspection
         && db.inspectionPhotos[x].tag == TypeBefore
      {
        RemoveOneInspectionPhoto(db.Snapshot(), x);
        db.DeleteFile(db.inspectionPhotos[x].path);
        db.DeleteInspectionPhoto(x);
      }
      k := k + 1;
    }
    assert xs[..k] == xs;
  }

  /** The `components` loop of `update`. */
  method ReconcileEntries(db: Database, inspection: Id, es: seq<ComponentEntry>)
    modifies db
    ensures db.Snapshot() == ApplyEntries(old(db.Snapshot()), inspection, es)
  {
    ghost var t0 := db.Snapshot();
    var k := 0;
    while k < |es|
      invariant 0 <= k <= |es|
      invariant db.Snapshot() == ApplyEntries(t0, inspection, es[..k])
    {
      ApplyEntriesSnoc(t0, inspection, es, k);
      ReconcileEntry(db, inspection, es[k]);
      k := k + 1;
    }
    assert es[..k] == es;
  }

  /** The `_delete_components` loop of `update`. */
  method DeleteComponentsLoop(db: Database, inspection: Id, cs: seq<Id>)
    modifies db
    ensures db.Snapshot() == DeleteComponents(old(db.Snapshot()), inspection, cs)
  {
    ghost var t0 := db.Snapshot();
    var k := 0;
    while k < |cs|
      invariant 0 <= k <= |cs|
      invariant db.Snapshot() == DeleteComponents(t0, inspection, cs[..k])
    {
      assert cs[..k + 1][..k] == cs[..k];
      DeleteWholeComponent(db, inspection, cs[k]);
      k := k + 1;
    }
    assert cs[..k] == cs;
  }

  /** `update`: validate, overwrite the fields, add the "before" photos,
      run the component entries, delete the listed components, then the
      listed "before" photos. */
  method Update(db: Database, inspection: Id, req: UpdateRequest) returns (outcome: Outcome)
    requires db.Valid()
    modifies db
    ensures db.Valid()
    ensures outcome == UpdateOutcome(old(db.Snapshot()), inspection, req)
    ensures db.Snapshot() == InspectionReconciler.Update(old(db.Snapshot()), inspection, req)
  {
    ghost var t0 := db.Snapshot();
    if inspection !in db.inspections {
      return NotFound;
    }
    if !UpdateRule(db.Snapshot(), req) {
      return Invalid;
    }
    if !KeysSent(req.fields) {
      return Failed;
    }
    db.UpdateInspection(inspection, Columns(req.fields));
    UploadBeforePhotos(db, inspection, req.photosBefore);
    ReconcileEntries(db, inspection, req.components);
    DeleteComponentsLoop(db, inspection, req.deleteComponents);
    DeleteBeforePhotosLoop(db, inspection, req.deletePhotosBefore);
    outcome := Saved;
    UpdateValid(t0, inspection, req);
  }

  /** One iteration of the `components` loop of `store`. */
  method StoreComponent(db: Database, inspection: Id, c: NewComponent)
    modifies db
    ensures db.Snapshot() == CreateComponent(old(db.Snapshot()), inspection, c)
  {
    var id := db.CreateComponent(inspection, c.fields);
    UploadComponentPhotos(db, id, c.photosComponent, TypeComponent);
    UploadComponentPhotos(db, id, c.photosCheck, TypeCheck);
  }

  /** The `components` loop of `store`. */
  method StoreComponents(db: Database, inspection: Id, cs: seq<NewComponent>)
    modifies db
    ensures db.Snapshot() == CreateComponents(old(db.Snapshot()), inspection, cs)
  {
    ghost var t0 := db.Snapshot();
    var k := 0;
    while k < |cs|
      invariant 0 <= k <= |cs|
      invariant db.Snapshot() == CreateComponents(t0, inspection, cs[..k])
    {
      CreateComponentsSnoc(t0, inspection, cs, k);
      StoreComponent(db, inspection, cs[k]);
      k := k + 1;
    }
    assert cs[..k] == cs;
  }

  /** `store`: validate, create the inspection under the submitting user,
      add the "before" photos, then create each component with its photos.
      Returns the new inspection's id when the request was valid and sent
      every key the controller reads. */
  method Store(db: Database, user: Id, req: StoreRequest) returns (created: Option<Id>)
    requires db.Valid()
    modifies db
    ensures db.Valid()
    ensures created.Some? <==> StoreOutcome(old(db.Snapshot()), req) == Saved
    ensures created.Some? ==> created.value == old(db.nextId)
    ensures db.Snapshot() == InspectionReconciler.Store(old(db.Snapshot()), user, req)
  {
    ghost var t0 := db.Snapshot();
    if !StoreRule(db.Snapshot(), req) || !KeysSent(req.fields) {
      return None;
    }
    var inspection := db.CreateInspection(InspectionRow(user, Columns(req.fields)));
    ghost var t1 := db.Snapshot();
    assert t1 == InsertInspection(t0, InspectionRow(user, Columns(req.fields)));
    UploadBeforePhotos(db, inspection, req.photosBefore);
    StoreComponents(db, inspection, req.components);
    created := Some(inspection);
    StoreValid(t0, user, req);
  }
}
