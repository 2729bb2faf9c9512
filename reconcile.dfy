/**
 * What InspectionController's `store` and `update` do to the database, as
 * functions on Tables: one function per loop of the controller, applied in
 * the controller's order. Each `foreach` over a list becomes a left fold
 * (the last element is processed last). The imperative controller in
 * inspection_controller.dfy is proved to compute exactly these functions.
 */
module InspectionReconciler {
  import opened Wrappers
  import opened Models
  import opened Validation
  import opened InspectionRequests
  import opened IdSets

  // ---------------------------------------------------------------------
  // Uploads: each file of the list is stored and gets one photo row.

  function AddBeforePhoto(t: Tables, inspection: Id, u: UploadItem): Tables {
    if u.File? then AddInspectionPhoto(t, inspection, TypeBefore) else t
  }

  /** The `photos_before` loop. */
  function AddBeforePhotos(t: Tables, inspection: Id, us: seq<UploadItem>): (r: Tables)
    decreases |us|
    ensures r.(inspectionPhotos := t.inspectionPhotos, files := t.files,
               nextId := t.nextId, nextSerial := t.nextSerial) == t
    ensures r.nextId == t.nextId + CountFiles(us) && r.nextSerial == t.nextSerial + CountFiles(us)
    ensures t.files <= r.files
    ensures forall k :: k in r.inspectionPhotos <==> k in t.inspectionPhotos || t.nextId <= k < r.nextId
    ensures forall k :: k in t.inspectionPhotos && k < t.nextId ==>
      r.inspectionPhotos[k] == t.inspectionPhotos[k]
    ensures forall k :: t.nextId <= k < r.nextId ==>
      && r.inspectionPhotos[k].inspectionId == inspection
      && r.inspectionPhotos[k].tag == TypeBefore
      && r.inspectionPhotos[k].path in r.files
  {
    if us == [] then t
    else AddBeforePhoto(AddBeforePhotos(t, inspection, us[..|us| - 1]), inspection, us[|us| - 1])
  }

  function AddComponentPhotoIf(t: Tables, component: Id, u: UploadItem, tag: string): Tables {
    if u.File? then AddComponentPhoto(t, component, tag) else t
  }

  /** The `photos_component` and `photos_check` loops: elements that are not
      files are skipped. */
  function AddComponentPhotos(t: Tables, component: Id, us: seq<UploadItem>, tag: string): (r: Tables)
    decreases |us|
    ensures r.(componentPhotos := t.componentPhotos, files := t.files,
               nextId := t.nextId, nextSerial := t.nextSerial) == t
    ensures r.nextId == t.nextId + CountFiles(us) && r.nextSerial == t.nextSerial + CountFiles(us)
    ensures t.files <= r.files
    ensures forall k :: k in r.componentPhotos <==> k in t.componentPhotos || t.nextId <= k < r.nextId
    ensures forall k :: k in t.componentPhotos && k < t.nextId ==>
      r.componentPhotos[k] == t.componentPhotos[k]
    ensures forall k :: t.nextId <= k < r.nextId ==>
      && r.componentPhotos[k].componentId == component
      && r.componentPhotos[k].tag == tag
      && r.componentPhotos[k].path in r.files
  {
    if us == [] then t
    else AddComponentPhotoIf(AddComponentPhotos(t, component, us[..|us| - 1], tag), component, us[|us| - 1], tag)
  }

  // ---------------------------------------------------------------------
  // Per-entry photo deletion: by id AND type, within the entry's component.

  /** `$component->photos()->where('id', $x)->where('type', $tag)->first()`,
      then delete its file and its row; no match, no change. */
  function DeleteTaggedPhoto(t: Tables, component: Id, x: Id, tag: string): Tables {
    if x in t.componentPhotos && t.componentPhotos[x].componentId == component
       && t.componentPhotos[x].tag == tag
    then RemoveComponentPhotos(t, {x})
    else t
  }

  function DeleteTaggedPhotos(t: Tables, component: Id, xs: seq<Id>, tag: string): (r: Tables)
    decreases |xs|
    ensures r.(componentPhotos := t.componentPhotos, files := t.files) == t
    ensures r.files <= t.files
    ensures r.componentPhotos.Keys <= t.componentPhotos.Keys
    ensures forall k :: k in r.componentPhotos ==> r.componentPhotos[k] == t.componentPhotos[k]
  {
    if xs == [] then t
    else DeleteTaggedPhoto(DeleteTaggedPhotos(t, component, xs[..|xs| - 1], tag), component, xs[|xs| - 1], tag)
  }

  // ---------------------------------------------------------------------
  // Component entries.

  /** `$inspection->components()->find($id)` finds the entry's component. */
  predicate Resolves(t: Tables, inspection: Id, e: ComponentEntry) {
    e.id.Some? && e.id.value in t.components && t.components[e.id.value].inspectionId == inspection
  }

  /** The component the rest of the entry works on: the one found, or the one created. */
  function Target(t: Tables, inspection: Id, e: ComponentEntry): Id {
    if Resolves(t, inspection, e) then e.id.value else t.nextId
  }

  /** A new component row of `inspection` at the next id. */
  function InsertComponent(t: Tables, inspection: Id, f: ComponentFields): Tables {
    t.(components := t.components[t.nextId := ComponentRow(inspection, f)], nextId := t.nextId + 1)
  }

  /** Update the component found, or create a new one under this inspection. */
  function Upsert(t: Tables, inspection: Id, e: ComponentEntry): Tables {
    if Resolves(t, inspection, e) then
      var c := e.id.value;
      t.(components := t.components[c := ComponentRow(t.components[c].inspectionId, e.fields)])
    else
      InsertComponent(t, inspection, e.fields)
  }

  /** The first half of one iteration of the `components` loop of `update`:
      find or create the component, then store the uploaded photos under it. */
  function EntryUploads(t: Tables, inspection: Id, e: ComponentEntry): (r: Tables)
    ensures r.(components := t.components, componentPhotos := t.componentPhotos, files := t.files,
               nextId := t.nextId, nextSerial := t.nextSerial) == t
    ensures t.nextId <= r.nextId && t.nextSerial <= r.nextSerial
    ensures Resolves(t, inspection, e) ==>
      r.components == t.components[e.id.value := ComponentRow(inspection, e.fields)]
    ensures !Resolves(t, inspection, e) ==>
      r.components == t.components[t.nextId := ComponentRow(inspection, e.fields)]
    ensures forall p :: p in t.componentPhotos && p < t.nextId ==>
      p in r.componentPhotos && r.componentPhotos[p] == t.componentPhotos[p]
    ensures forall p :: p in r.componentPhotos && p < t.nextId ==> p in t.componentPhotos
  {
    var c := Target(t, inspection, e);
    var t1 := Upsert(t, inspection, e);
    var t2 := AddComponentPhotos(t1, c, e.photosComponent, TypeComponent);
    AddComponentPhotos(t2, c, e.photosCheck, TypeCheck)
  }

  /** One iteration of the `components` loop of `update`: the uploads, then
      the two per-type delete lists, both scoped to the entry's component. */
  function ApplyEntry(t: Tables, inspection: Id, e: ComponentEntry): (r: Tables)
    ensures r.(components := t.components, componentPhotos := t.componentPhotos, files := t.files,
               nextId := t.nextId, nextSerial := t.nextSerial) == t
    ensures t.nextId <= r.nextId && t.nextSerial <= r.nextSerial
    ensures r.components == EntryUploads(t, inspection, e).components
  {
    var c := Target(t, inspection, e);
    var u := EntryUploads(t, inspection, e);
    var u1 := DeleteTaggedPhotos(u, c, e.deletePhotosComponent, TypeComponent);
    DeleteTaggedPhotos(u1, c, e.deletePhotosCheck, TypeCheck)
  }

  /** The `components` loop of `update`. Components are only updated or
      created here, never deleted, and no component changes inspection. */
  function ApplyEntries(t: Tables, inspection: Id, es: seq<ComponentEntry>): (r: Tables)
    decreases |es|
    ensures r.(components := t.components, componentPhotos := t.componentPhotos, files := t.files,
               nextId := t.nextId, nextSerial := t.nextSerial) == t
    ensures t.nextId <= r.nextId && t.nextSerial <= r.nextSerial
    ensures forall c :: c in t.components && c < t.nextId ==>
      c in r.components && r.components[c].inspectionId == t.components[c].inspectionId
  {
    if es == [] then t
    else ApplyEntry(ApplyEntries(t, inspection, es[..|es| - 1]), inspection, es[|es| - 1])
  }

  /** One more entry of the `update` components loop. */
  lemma ApplyEntriesSnoc(t: Tables, inspection: Id, es: seq<ComponentEntry>, k: nat)
    requires k < |es|
    ensures ApplyEntries(t, inspection, es[..k + 1])
         == ApplyEntry(ApplyEntries(t, inspection, es[..k]), inspection, es[k])
  {
    assert es[..k + 1][..k] == es[..k];
  }

  // ---------------------------------------------------------------------
  // Whole-component deletion.

  /** The photos of any of the components `cs`. */
  function PhotosOfAll(t: Tables, cs: set<Id>): (r: set<Id>)
    ensures forall p :: p in r <==> p in t.componentPhotos && t.componentPhotos[p].componentId in cs
  {
    set p | p in t.componentPhotos && t.componentPhotos[p].componentId in cs
  }

  /** Reference definition: delete the components `cs`, every photo they own
      and every such photo's file, all at once. */
  function RemoveComponents(t: Tables, cs: set<Id>): (r: Tables)
    ensures r.(components := t.components, componentPhotos := t.componentPhotos, files := t.files) == t
    ensures r.components.Keys == t.components.Keys - cs
    ensures forall c :: c in r.components ==> r.components[c] == t.components[c]
    ensures forall p :: p in t.componentPhotos ==>
      (p in r.componentPhotos <==> t.componentPhotos[p].componentId !in cs)
    ensures forall p :: p in r.componentPhotos ==>
      p in t.componentPhotos && r.componentPhotos[p] == t.componentPhotos[p]
    ensures forall p :: p in t.componentPhotos && t.componentPhotos[p].componentId in cs ==>
      t.componentPhotos[p].path !in r.files
    ensures r.files <= t.files
  {
    RemoveComponentPhotos(t, PhotosOfAll(t, cs)).(components := t.components - cs)
  }

  /** One iteration of the `_delete_components` loop: find the component among
      this inspection's, delete each photo's file and row, then the component. */
  function DeleteComponent(t: Tables, inspection: Id, c: Id): Tables {
    if c in t.components && t.components[c].inspectionId == inspection
    then RemoveComponentPhotos(t, PhotosOf(t, c)).(components := t.components - {c})
    else t
  }

  function DeleteComponents(t: Tables, inspection: Id, cs: seq<Id>): (r: Tables)
    decreases |cs|
    ensures r.(components := t.components, componentPhotos := t.componentPhotos, files := t.files) == t
  {
    if cs == [] then t
    else DeleteComponent(DeleteComponents(t, inspection, cs[..|cs| - 1]), inspection, cs[|cs| - 1])
  }

  // ---------------------------------------------------------------------
  // "Before" photo deletion: by id AND type, within the inspection.

  function DeleteBeforePhoto(t: Tables, inspection: Id, x: Id): Tables {
    if x in t.inspectionPhotos && t.inspectionPhotos[x].inspectionId == inspection
       && t.inspectionPhotos[x].tag == TypeBefore
    then RemoveInspectionPhotos(t, {x})
    else t
  }

  function DeleteBeforePhotos(t: Tables, inspection: Id, xs: seq<Id>): (r: Tables)
    decreases |xs|
    ensures r.(inspectionPhotos := t.inspectionPhotos, files := t.files) == t
  {
    if xs == [] then t
    else DeleteBeforePhoto(DeleteBeforePhotos(t, inspection, xs[..|xs| - 1]), inspection, xs[|xs| - 1])
  }

  // ---------------------------------------------------------------------
  // The two controller actions.

  /** `$inspection->update([...])`: all eight fillable fields overwritten. */
  function OverwriteFields(t: Tables, inspection: Id, f: InspectionFields): Tables
    requires inspection in t.inspections
  {
    t.(inspections := t.inspections[inspection := InspectionRow(t.inspections[inspection].userId, f)])
  }

  /** The body of `update` after validation, steps in the controller's order. */
  function Reconcile(t: Tables, inspection: Id, req: UpdateRequest): (r: Tables)
    requires inspection in t.inspections
    ensures r.inspections.Keys == t.inspections.Keys
    ensures r.inspections[inspection].fields == Columns(req.fields)
    ensures r.inspections[inspection].userId == t.inspections[inspection].userId
    ensures forall j :: j in t.inspections && j != inspection ==> r.inspections[j] == t.inspections[j]
    ensures r.customers == t.customers && r.assets == t.assets && r.assetPhotos == t.assetPhotos
  {
    var t1 := OverwriteFields(t, inspection, Columns(req.fields));
    var t2 := AddBeforePhotos(t1, inspection, req.photosBefore);
    var t3 := ApplyEntries(t2, inspection, req.components);
    var t4 := DeleteComponents(t3, inspection, req.deleteComponents);
    DeleteBeforePhotos(t4, inspection, req.deletePhotosBefore)
  }

  function UpdateOutcome(t: Tables, inspection: Id, req: UpdateRequest): Outcome {
    if inspection !in t.inspections then NotFound
    else if !UpdateRule(t, req) then Invalid
    else if !KeysSent(req.fields) then Failed
    else Saved
  }

  /** `update`: nothing is written unless the inspection exists and the request is valid. */
  function Update(t: Tables, inspection: Id, req: UpdateRequest): (r: Tables)
    ensures UpdateOutcome(t, inspection, req) != Saved ==> r == t
  {
    if UpdateOutcome(t, inspection, req) == Saved then Reconcile(t, inspection, req) else t
  }

  /** One iteration of the `components` loop of `store`. */
  function CreateComponent(t: Tables, inspection: Id, c: NewComponent): (r: Tables)
    ensures r.(components := t.components, componentPhotos := t.componentPhotos, files := t.files,
               nextId := t.nextId, nextSerial := t.nextSerial) == t
    ensures r.components == t.components[t.nextId := ComponentRow(inspection, c.fields)]
    ensures t.nextId < r.nextId && t.nextSerial <= r.nextSerial
  {
    var id := t.nextId;
    var t1 := InsertComponent(t, inspection, c.fields);
    var t2 := AddComponentPhotos(t1, id, c.photosComponent, TypeComponent);
    AddComponentPhotos(t2, id, c.photosCheck, TypeCheck)
  }

  function CreateComponents(t: Tables, inspection: Id, cs: seq<NewComponent>): (r: Tables)
    decreases |cs|
    ensures r.(components := t.components, componentPhotos := t.componentPhotos, files := t.files,
               nextId := t.nextId, nextSerial := t.nextSerial) == t
    ensures t.nextId + |cs| <= r.nextId && t.nextSerial <= r.nextSerial
  {
    if cs == [] then t
    else CreateComponent(CreateComponents(t, inspection, cs[..|cs| - 1]), inspection, cs[|cs| - 1])
  }

  /** One more entry of the components loop. */
  lemma CreateComponentsSnoc(t: Tables, inspection: Id, cs: seq<NewComponent>, k: nat)
    requires k < |cs|
    ensures CreateComponents(t, inspection, cs[..k + 1])
         == CreateComponent(CreateComponents(t, inspection, cs[..k]), inspection, cs[k])
  {
    assert cs[..k + 1][..k] == cs[..k];
  }

  /** A new inspection row at the next id. */
  function InsertInspection(t: Tables, row: InspectionRow): Tables {
    t.(inspections := t.inspections[t.nextId := row], nextId := t.nextId + 1)
  }

  /** The body of `store` after validation: the new inspection's id is the
      next auto-increment value; its `user_id` is the signed-in user. */
  function StoreInspection(t: Tables, user: Id, req: StoreRequest): (r: Tables)
    ensures t.nextId in r.inspections
    ensures r.inspections[t.nextId] == InspectionRow(user, Columns(req.fields))
  {
    var i := t.nextId;
    var t1 := InsertInspection(t, InspectionRow(user, Columns(req.fields)));
    var t2 := AddBeforePhotos(t1, i, req.photosBefore);
    CreateComponents(t2, i, req.components)
  }

  function StoreOutcome(t: Tables, req: StoreRequest): Outcome {
    if !StoreRule(t, req) then Invalid
    else if !KeysSent(req.fields) then Failed
    else Saved
  }

  /** `store`: nothing is written when validation fails or a key the
      controller reads was not sent. */
  function Store(t: Tables, user: Id, req: StoreRequest): (r: Tables)
    ensures StoreOutcome(t, req) != Saved ==> r == t
  {
    if StoreOutcome(t, req) == Saved then StoreInspection(t, user, req) else t
  }
}
