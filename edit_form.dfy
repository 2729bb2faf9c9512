/**
 * The Edit page of an inspection (Inspections/Edit.tsx): the form data it
 * builds from the inspection it is given, the reducers its handlers pass to
 * `setData`, the page object that its file handlers and effects change, and
 * what this means for the delete lists the server receives.
 *
 * The `customer_id`, `asset_id` and `location` fields live in the page's
 * `FormCommon.LocationPicker`; `Form` holds the rest of the form data.
 */
module EditForm {
  import opened Wrappers
  import opened Models
  import opened InspectionRequests
  import opened FormCommon

  // ---------------------------------------------------------------------
  // What the page is given.

  /** A saved photo as the page shows it. */
  datatype ExistingPhoto = ExistingPhoto(id: nat, url: string)

  /** A component of the `inspection` prop. A photo list is absent (`None`)
      when the prop carries the photos under another key. */
  datatype ComponentProp = ComponentProp(
    id: nat, name: string, functionDesc: string, condition: string, checkResults: string,
    photosComponent: Option<seq<ExistingPhoto>>, photosCheck: Option<seq<ExistingPhoto>>)

  /** The `inspection` prop; nullable columns are `Option`s. */
  datatype InspectionProp = InspectionProp(
    customerId: nat, assetId: Option<nat>, location: string, condition: string,
    estimateCost: Option<string>, finding: string, analysis: Option<string>,
    recommendation: Option<string>, photosBefore: Option<seq<ExistingPhoto>>,
    components: seq<ComponentProp>)

  // ---------------------------------------------------------------------
  // The form data.

  /** One element of `components`: `id` is absent for a component added on
      the page. */
  datatype Entry = Entry(
    id: Option<nat>, name: string, functionDesc: string, condition: string, checkResults: string,
    photosComponent: seq<Compressed>, photosCheck: seq<Compressed>,
    existingComponent: seq<ExistingPhoto>, existingCheck: seq<ExistingPhoto>,
    deletePhotosComponent: seq<nat>, deletePhotosCheck: seq<nat>)

  datatype Form = Form(
    condition: string, estimateCost: string, finding: string, analysis: string,
    recommendation: string, photosBefore: seq<Picked>, components: seq<Entry>,
    deleteComponents: seq<nat>, deletePhotosBefore: seq<nat>)

  function NewPhotos(e: Entry, b: Bucket): seq<Compressed> {
    if b == ComponentBucket then e.photosComponent else e.photosCheck
  }

  function WithNewPhotos(e: Entry, b: Bucket, ps: seq<Compressed>): Entry {
    if b == ComponentBucket then e.(photosComponent := ps) else e.(photosCheck := ps)
  }

  function Existing(e: Entry, b: Bucket): seq<ExistingPhoto> {
    if b == ComponentBucket then e.existingComponent else e.existingCheck
  }

  function WithExisting(e: Entry, b: Bucket, ps: seq<ExistingPhoto>): Entry {
    if b == ComponentBucket then e.(existingComponent := ps) else e.(existingCheck := ps)
  }

  function Deletes(e: Entry, b: Bucket): seq<nat> {
    if b == ComponentBucket then e.deletePhotosComponent else e.deletePhotosCheck
  }

  function WithDeletes(e: Entry, b: Bucket, xs: seq<nat>): Entry {
    if b == ComponentBucket then e.(deletePhotosComponent := xs) else e.(deletePhotosCheck := xs)
  }

  function Text(e: Entry, field: TextField): string {
    match field
    case NameField => e.name
    case FunctionField => e.functionDesc
    case ConditionField => e.condition
    case CheckResultsField => e.checkResults
  }

  /** `{ ...comp, [field]: value }` for one of the four text fields: that
      field changes, every other part of the entry stays. */
  function WithText(e: Entry, field: TextField, value: string): (r: Entry)
    ensures Text(r, field) == value
    ensures forall g :: g != field ==> Text(r, g) == Text(e, g)
    ensures r.(name := e.name, functionDesc := e.functionDesc, condition := e.condition,
               checkResults := e.checkResults) == e
  {
    match field
    case NameField => e.(name := value)
    case FunctionField => e.(functionDesc := value)
    case ConditionField => e.(condition := value)
    case CheckResultsField => e.(checkResults := value)
  }

  /** `photos.filter(photo => photo.id !== photoId)`. */
  function WithoutPhoto(ps: seq<ExistingPhoto>, photoId: nat): (r: seq<ExistingPhoto>)
    decreases |ps|
    ensures |r| <= |ps|
    ensures forall x :: x in r <==> x in ps && x.id != photoId
    ensures (forall x :: x in ps ==> x.id != photoId) ==> r == ps
  {
    if ps == [] then []
    else
      var init := WithoutPhoto(ps[..|ps| - 1], photoId);
      var last := ps[|ps| - 1];
      assert ps == ps[..|ps| - 1] + [last];
      if last.id != photoId then init + [last] else init
  }

  /** `x || []` on a photo list the prop may lack. */
  function OrNone(ps: Option<seq<ExistingPhoto>>): seq<ExistingPhoto> {
    if ps.Some? then ps.value else []
  }

  // ---------------------------------------------------------------------
  // The initial form data.

  function EntryOf(c: ComponentProp): Entry {
    Entry(Some(c.id), c.name, c.functionDesc, c.condition, c.checkResults, [], [],
          OrNone(c.photosComponent), OrNone(c.photosCheck), [], [])
  }

  /** The `useForm` initial value: one entry per component of the prop, in
      order, each with the component's id and fields, its saved photos (or
      none when the prop lacks them) and empty new-photo and delete lists;
      nullable fields become `''`; nothing is marked for deletion. The three
      picker fields are set by `EditPage`'s constructor. */
  function EditInitial(p: InspectionProp): (f: Form)
    ensures |f.components| == |p.components|
    ensures forall k :: 0 <= k < |p.components| ==>
      && f.components[k].id == Some(p.components[k].id)
      && f.components[k].name == p.components[k].name
      && f.components[k].functionDesc == p.components[k].functionDesc
      && f.components[k].condition == p.components[k].condition
      && f.components[k].checkResults == p.components[k].checkResults
    ensures forall k :: 0 <= k < |p.components| ==>
      && f.components[k].photosComponent == [] && f.components[k].photosCheck == []
      && f.components[k].deletePhotosComponent == [] && f.components[k].deletePhotosCheck == []
    ensures forall k :: 0 <= k < |p.components| ==>
      && (p.components[k].photosComponent.None? ==> f.components[k].existingComponent == [])
      && (p.components[k].photosComponent.Some? ==>
            f.components[k].existingComponent == p.components[k].photosComponent.value)
      && (p.components[k].photosCheck.None? ==> f.components[k].existingCheck == [])
      && (p.components[k].photosCheck.Some? ==>
            f.components[k].existingCheck == p.components[k].photosCheck.value)
    ensures f.condition == p.condition && f.finding == p.finding
    ensures p.estimateCost.None? ==> f.estimateCost == ""
    ensures p.estimateCost.Some? ==> f.estimateCost == p.estimateCost.value
    ensures p.analysis.None? ==> f.analysis == ""
    ensures p.analysis.Some? ==> f.analysis == p.analysis.value
    ensures p.recommendation.None? ==> f.recommendation == ""
    ensures p.recommendation.Some? ==> f.recommendation == p.recommendation.value
    ensures f.photosBefore == [] && f.deleteComponents == [] && f.deletePhotosBefore == []
  {
    Form(p.condition, OrEmpty(p.estimateCost), p.finding, OrEmpty(p.analysis),
         OrEmpty(p.recommendation), [],
         seq(|p.components|, k requires 0 <= k < |p.components| => EntryOf(p.components[k])),
         [], [])
  }

  /** `asset_id: inspection.asset_id?.toString() || ''`: the text of an id
      is never empty, so a present asset id is selected. */
  function InitialAsset(p: InspectionProp): (a: Choice)
    ensures p.assetId.None? <==> a.Blank?
    ensures p.assetId.Some? ==> a == Chosen(p.assetId.value)
  {
    if p.assetId.Some? then Chosen(p.assetId.value) else Blank
  }

  // ---------------------------------------------------------------------
  // The reducers. `WithText`, `ChangeAt`, `ComponentChange`,
  // `AddComponentImages`, `AddNoImages` and `RemoveComponentImage` match their
  // namesakes in CreateForm: Edit.tsx defines its own copies over its own
  // entry shape.

  function BlankEntry(): Entry {
    Entry(None, "", "", "", "", [], [], [], [], [], [])
  }

  /** `handleAddComponent`: one blank entry without an id at the end. */
  function AddComponent(f: Form): (r: Form)
    ensures |r.components| == |f.components| + 1
    ensures r.components[..|f.components|] == f.components
    ensures r.components[|f.components|] == BlankEntry()
    ensures r.components[|f.components|].id.None?
    ensures r.(components := f.components) == f
  {
    f.(components := f.components + [BlankEntry()])
  }

  /** Removing a component added on the page gives back the form: it has no
      id, so nothing is marked for deletion. */
  lemma AddThenRemove(f: Form)
    ensures RemoveComponent(AddComponent(f), |f.components|) == f
  {
    assert (f.components + [BlankEntry()])[..|f.components|] == f.components;
  }

  /** The JavaScript truth of an optional id: an absent id and `0` are false. */
  predicate Truthy(id: Option<nat>) {
    id.Some? && id.value != 0
  }

  /** `handleRemoveComponent`: the entry at `index` goes, all others keep
      their order, and the entry's id is marked for deletion when it has one.
      The handler reads `components[index].id`, so `index` must name an entry. */
  function RemoveComponent(f: Form, index: nat): (r: Form)
    requires index < |f.components|
    ensures |r.components| == |f.components| - 1
    ensures forall k :: 0 <= k < index ==> r.components[k] == f.components[k]
    ensures forall k :: index <= k < |r.components| ==> r.components[k] == f.components[k + 1]
    ensures Truthy(f.components[index].id) ==>
      r.deleteComponents == f.deleteComponents + [f.components[index].id.value]
    ensures !Truthy(f.components[index].id) ==> r.deleteComponents == f.deleteComponents
    ensures r.(components := f.components, deleteComponents := f.deleteComponents) == f
  {
    var e := f.components[index];
    f.(components := RemoveAt(f.components, index),
       deleteComponents := if Truthy(e.id) then f.deleteComponents + [e.id.value] else f.deleteComponents)
  }

  /** `components.map((comp, i) => i === index ? change(comp) : comp)`, for a
      change given as its result `e`. */
  function ChangeAt(es: seq<Entry>, index: nat, e: Entry): (r: seq<Entry>)
    ensures |r| == |es|
    ensures forall k :: 0 <= k < |es| && k != index ==> r[k] == es[k]
    ensures index < |es| ==> r[index] == e
  {
    if index < |es| then es[index := e] else es
  }

  /** `handleComponentChange`: exactly one text field of exactly one entry
      changes; an index that names no entry changes nothing. */
  function ComponentChange(f: Form, index: nat, field: TextField, value: string): (r: Form)
    ensures |r.components| == |f.components|
    ensures forall k :: 0 <= k < |f.components| && k != index ==> r.components[k] == f.components[k]
    ensures index < |f.components| ==> Text(r.components[index], field) == value
    ensures index < |f.components| ==>
      forall g :: g != field ==> Text(r.components[index], g) == Text(f.components[index], g)
    ensures index < |f.components| ==>
      WithText(r.components[index], field, Text(f.components[index], field)) == f.components[index]
    ensures r.(components := f.components) == f
  {
    if index < |f.components| then
      f.(components := ChangeAt(f.components, index, WithText(f.components[index], field, value)))
    else f
  }

  /** The compressed files of a `handleComponentFileChange` appended to one
      bucket of one entry. */
  function AddComponentImages(f: Form, index: nat, b: Bucket, news: seq<Compressed>): (r: Form)
    ensures |r.components| == |f.components|
    ensures forall k :: 0 <= k < |f.components| && k != index ==> r.components[k] == f.components[k]
    ensures index < |f.components| ==>
      NewPhotos(r.components[index], b) == NewPhotos(f.components[index], b) + news
    ensures index < |f.components| ==>
      WithNewPhotos(r.components[index], b, NewPhotos(f.components[index], b)) == f.components[index]
    ensures r.(components := f.components) == f
  {
    if index < |f.components| then
      var e := f.components[index];
      f.(components := ChangeAt(f.components, index, WithNewPhotos(e, b, NewPhotos(e, b) + news)))
    else f
  }

  lemma AddNoImages(f: Form, index: nat, b: Bucket)
    ensures AddComponentImages(f, index, b, []) == f
  {
    if index < |f.components| {
      var e := f.components[index];
      assert NewPhotos(e, b) + [] == NewPhotos(e, b);
      assert WithNewPhotos(e, b, NewPhotos(e, b)) == e;
      assert f.components[index := e] == f.components;
    }
  }

  /** `handleRemoveComponentImage`: only the new photo at `imageIndex` of the
      chosen bucket of the chosen entry goes. */
  function RemoveComponentImage(f: Form, index: nat, b: Bucket, imageIndex: nat): (r: Form)
    ensures |r.components| == |f.components|
    ensures forall k :: 0 <= k < |f.components| && k != index ==> r.components[k] == f.components[k]
    ensures index < |f.components| ==>
      NewPhotos(r.components[index], b) == RemoveAt(NewPhotos(f.components[index], b), imageIndex)
    ensures index < |f.components| ==>
      WithNewPhotos(r.components[index], b, NewPhotos(f.components[index], b)) == f.components[index]
    ensures r.(components := f.components) == f
  {
    if index < |f.components| then
      var e := f.components[index];
      f.(components := ChangeAt(f.components, index, WithNewPhotos(e, b, RemoveAt(NewPhotos(e, b), imageIndex))))
    else f
  }

  /** `removeExistingImage`. Its `deleteKey` argument is not read: with a
      component index the photo leaves BOTH saved-photo lists of that entry
      and its id is appended to BOTH delete lists; without one the id is
      appended to `_delete_photos_before`. (The preview filter it also runs
      keeps every preview, as no preview has an `id`.) */
  function RemoveExistingImage(f: Form, photoId: nat, componentIndex: Option<nat>): (r: Form)
    ensures componentIndex.None? ==>
      r == f.(deletePhotosBefore := f.deletePhotosBefore + [photoId])
    ensures componentIndex.Some? ==> r.deletePhotosBefore == f.deletePhotosBefore
    ensures componentIndex.Some? ==> |r.components| == |f.components|
    ensures componentIndex.Some? ==> forall k :: 0 <= k < |f.components| && k != componentIndex.value ==>
      r.components[k] == f.components[k]
    ensures componentIndex.Some? && componentIndex.value < |f.components| ==>
      var (e, e') := (f.components[componentIndex.value], r.components[componentIndex.value]);
      && (forall b :: Existing(e', b) == WithoutPhoto(Existing(e, b), photoId))
      && (forall b :: Deletes(e', b) == Deletes(e, b) + [photoId])
      && e'.(existingComponent := e.existingComponent, existingCheck := e.existingCheck,
             deletePhotosComponent := e.deletePhotosComponent, deletePhotosCheck := e.deletePhotosCheck) == e
    ensures componentIndex.Some? ==> r.(components := f.components) == f
  {
    if componentIndex.Some? then
      var i := componentIndex.value;
      if i < |f.components| then
        var e := f.components[i];
        var e' := e.(existingComponent := WithoutPhoto(e.existingComponent, photoId),
                     existingCheck := WithoutPhoto(e.existingCheck, photoId),
                     deletePhotosComponent := e.deletePhotosComponent + [photoId],
                     deletePhotosCheck := e.deletePhotosCheck + [photoId]);
        f.(components := ChangeAt(f.components, i, e'))
      else f
    else f.(deletePhotosBefore := f.deletePhotosBefore + [photoId])
  }

  // ---------------------------------------------------------------------
  // handleRemoveExistingComponentImage, as written and as intended.

  /** The `photoType` argument of the handler. */
  function ExistingKey(b: Bucket): string {
    if b == ComponentBucket then "existing_photos_component" else "existing_photos_check"
  }

  /** `comp[key]` for a delete-list key: the entry has exactly two. */
  function DeletesByKey(e: Entry, key: string): (r: Option<seq<nat>>)
    ensures r.Some? <==> key == "_delete_photos_component" || key == "_delete_photos_check"
  {
    if key == "_delete_photos_component" then Some(e.deletePhotosComponent)
    else if key == "_delete_photos_check" then Some(e.deletePhotosCheck)
    else None
  }

  /** `{ ...comp, [key]: xs }` for a delete-list key. */
  function WithDeletesByKey(e: Entry, key: string, xs: seq<nat>): Entry {
    if key == "_delete_photos_component" then e.(deletePhotosComponent := xs)
    else if key == "_delete_photos_check" then e.(deletePhotosCheck := xs)
    else e
  }

  /** `handleRemoveExistingComponentImage` as written: it reads the list
      under `_delete_${photoType}`, which for the `photoType` values the page
      passes is `_delete_existing_photos_component` or
      `_delete_existing_photos_check`. Spreading that `undefined` value into
      an array literal throws a `TypeError`. */
  function RemoveExistingComponentImageAsWritten(f: Form, index: nat, b: Bucket, photoId: nat): Result<Form> {
    if index < |f.components| then
      var e := f.components[index];
      var key := "_delete_" + ExistingKey(b);
      var xs := DeletesByKey(e, key);
      if xs.None? then Failure("TypeError: comp[key] is not iterable")
      else
        var e' := WithDeletesByKey(WithExisting(e, b, WithoutPhoto(Existing(e, b), photoId)), key,
                                   xs.value + [photoId]);
        Success(f.(components := ChangeAt(f.components, index, e')))
    else Success(f)
  }

  /** For every entry the page renders, the handler as written throws, so
      a saved component photo can never be marked for deletion. */
  lemma RemoveExistingComponentImageAsWrittenThrows(f: Form, index: nat, b: Bucket, photoId: nat)
    requires index < |f.components|
    ensures RemoveExistingComponentImageAsWritten(f, index, b, photoId).Failure?
  {
    var key := "_delete_" + ExistingKey(b);
    assert |key| > |"_delete_photos_component"| && |key| > |"_delete_photos_check"|;
  }

  /** The handler as intended: the photo leaves the chosen saved-photo list
      of that one entry, its id is appended to the matching delete list only,
      and the other bucket, the other entries and the rest of the form stay. */
  function RemoveExistingComponentImage(f: Form, index: nat, b: Bucket, photoId: nat): (r: Form)
    ensures |r.components| == |f.components|
    ensures forall k :: 0 <= k < |f.components| && k != index ==> r.components[k] == f.components[k]
    ensures index < |f.components| ==>
      var (e, e') := (f.components[index], r.components[index]);
      && Existing(e', b) == WithoutPhoto(Existing(e, b), photoId)
      && Deletes(e', b) == Deletes(e, b) + [photoId]
      && Existing(e', Other(b)) == Existing(e, Other(b))
      && Deletes(e', Other(b)) == Deletes(e, Other(b))
      && WithDeletes(WithExisting(e', b, Existing(e, b)), b, Deletes(e, b)) == e
    ensures r.(components := f.components) == f
  {
    if index < |f.components| then
      var e := f.components[index];
      var e' := WithDeletes(WithExisting(e, b, WithoutPhoto(Existing(e, b), photoId)), b, Deletes(e, b) + [photoId]);
      f.(components := ChangeAt(f.components, index, e'))
    else f
  }

  // ---------------------------------------------------------------------
  // The page object: file handlers and the before-photo effect.

  class EditPage {
    const picker: LocationPicker
    var form: Form
    /** `compressedPhotosBefore`. */
    var previewsBefore: seq<Compressed>

    /** The first render: the form from the prop, the picker on the prop's
        customer, asset and location, no new before photos. */
    constructor (p: InspectionProp)
      ensures fresh(picker)
      ensures picker.customerId == Chosen(p.customerId) && picker.assetId == InitialAsset(p)
      ensures picker.location == p.location
      ensures picker.customerLocation.None? && picker.filteredAssets == []
      ensures form == EditInitial(p) && previewsBefore == []
    {
      picker := new LocationPicker(Chosen(p.customerId), InitialAsset(p), p.location);
      form := EditInitial(p);
      previewsBefore := [];
    }

    /** `handleFileChange(setCompressedPhotosBefore)`: at most the first 9
        files of the selection, compressed, are appended to the previews; an
        empty selection changes nothing. */
    method SelectBeforePhotos(selection: seq<Picked>, compress: Picked -> Option<Compressed>)
      modifies this
      ensures previewsBefore == old(previewsBefore) + Kept(TakeSelection(selection), compress)
      ensures |previewsBefore| <= |old(previewsBefore)| + MaxSelection
      ensures form == old(form)
    {
      var files := TakeSelection(selection);
      if |files| == 0 {
        return;
      }
      var compressed := CompressAll(files, compress);
      previewsBefore := previewsBefore + compressed;
    }

    /** `removeNewImage(setCompressedPhotosBefore)`: it reads
        `prev[index].url`, so `index` must name a preview. */
    method RemoveNewBeforePhoto(index: nat)
      requires index < |previewsBefore|
      modifies this
      ensures previewsBefore == RemoveAt(old(previewsBefore), index)
      ensures form == old(form)
    {
      previewsBefore := RemoveAt(previewsBefore, index);
    }

    /** The effect on `compressedPhotosBefore`: the form sends their files. */
    method SyncBeforePhotos()
      modifies this
      ensures form == old(form).(photosBefore := FilesOf(previewsBefore))
      ensures previewsBefore == old(previewsBefore)
    {
      form := form.(photosBefore := FilesOf(previewsBefore));
    }

    /** The effects after the first render, in the order they are declared:
        the before-photo effect, the customer effect and the location effect.
        All three read the first render's values, so the location effect
        writes from the empty asset list and the `null` customer location it
        sees, before the customer effect's state arrives. When that state
        changes, the next render runs the location effect again, which is the
        second call below; when it does not change, a second call writes the
        same value as the first. Either way the location the form was given
        is overwritten. */
    method Mount(customers: seq<CustomerOption>, assets: seq<AssetOption>)
      modifies this, picker
      ensures form == old(form).(photosBefore := FilesOf(previewsBefore))
      ensures previewsBefore == old(previewsBefore)
      ensures picker.customerId == old(picker.customerId)
      ensures picker.location == DefaultLocation(SelectedAsset(picker.filteredAssets, picker.assetId),
                                                 picker.customerLocation)
      ensures old(picker.customerId).Blank? ==>
        picker.customerLocation.None? && picker.filteredAssets == [] && picker.assetId.Blank?
      ensures old(picker.customerId).Chosen? && CustomerWithId(customers, old(picker.customerId).id).Some? ==>
        && picker.customerLocation == CustomerWithId(customers, old(picker.customerId).id).value.location
        && picker.filteredAssets == FilterAssets(assets, old(picker.customerId).id)
        && picker.assetId == old(picker.assetId)
      ensures old(picker.customerId).Chosen? && CustomerWithId(customers, old(picker.customerId).id).None? ==>
        && picker.customerLocation == old(picker.customerLocation)
        && picker.filteredAssets == old(picker.filteredAssets)
        && picker.assetId == old(picker.assetId)
    {
      SyncBeforePhotos();
      picker.LocationEffect();
      picker.CustomerEffect(customers, assets);
      picker.LocationEffect();
    }

    /** `handleComponentFileChange(index, photoType)`: at most the first 9
        files, compressed, go to that bucket of that entry. */
    method SelectComponentPhotos(index: nat, b: Bucket, selection: seq<Picked>,
                                 compress: Picked -> Option<Compressed>)
      modifies this
      ensures form == AddComponentImages(old(form), index, b, Kept(TakeSelection(selection), compress))
      ensures previewsBefore == old(previewsBefore)
    {
      var files := TakeSelection(selection);
      if |files| == 0 {
        AddNoImages(form, index, b);
        return;
      }
      var compressed := CompressAll(files, compress);
      form := AddComponentImages(form, index, b, compressed);
    }
  }

  // ---------------------------------------------------------------------
  // The delete lists the server receives.

  /** The ids the page was given: its components', their saved photos', and
      the saved before photos'. */
  datatype Given = Given(components: set<nat>, componentPhotos: set<nat>, beforePhotos: set<nat>)

  function PhotoIds(ps: seq<ExistingPhoto>): (r: set<nat>)
    ensures forall x :: x in ps ==> x.id in r
  {
    set x | x in ps :: x.id
  }

  function GivenBy(p: InspectionProp): Given {
    Given(set c | c in p.components :: c.id,
          set c, x | c in p.components && x in OrNone(c.photosComponent) + OrNone(c.photosCheck) :: x.id,
          PhotoIds(OrNone(p.photosBefore)))
  }

  /** Every id an entry holds is one the page was given. */
  predicate EntryKnown(e: Entry, g: Given) {
    && (e.id.Some? ==> e.id.value in g.components)
    && (forall x :: x in e.existingComponent ==> x.id in g.componentPhotos)
    && (forall x :: x in e.existingCheck ==> x.id in g.componentPhotos)
    && (forall x :: x in e.deletePhotosComponent ==> x in g.componentPhotos)
    && (forall x :: x in e.deletePhotosCheck ==> x in g.componentPhotos)
  }

  predicate Known(f: Form, g: Given) {
    && (forall k :: 0 <= k < |f.components| ==> EntryKnown(f.components[k], g))
    && (forall x :: x in f.deleteComponents ==> x in g.components)
    && (forall x :: x in f.deletePhotosBefore ==> x in g.beforePhotos)
  }

  /** One event of the page, as the rendered controls raise it. */
  datatype Event =
    | AddComponentEvent
    | RemoveComponentEvent(index: nat)
    | ChangeEvent(index: nat, field: TextField, value: string)
    | AddImagesEvent(index: nat, bucket: Bucket, added: seq<Compressed>)
    | RemoveImageEvent(index: nat, bucket: Bucket, imageIndex: nat)
    | RemoveExistingEvent(photoId: nat, componentIndex: Option<nat>)
    | RemoveExistingComponentEvent(index: nat, bucket: Bucket, photoId: nat)
    | BeforePhotosEvent(files: seq<Picked>)

  /** The form after one event. A remove button is rendered only on an
      existing entry, so a removal at an index past the end is no event. */
  function Step(f: Form, ev: Event): Form {
    match ev
    case AddComponentEvent => AddComponent(f)
    case RemoveComponentEvent(i) => if i < |f.components| then RemoveComponent(f, i) else f
    case ChangeEvent(i, field, value) => ComponentChange(f, i, field, value)
    case AddImagesEvent(i, b, files) => AddComponentImages(f, i, b, files)
    case RemoveImageEvent(i, b, j) => RemoveComponentImage(f, i, b, j)
    case RemoveExistingEvent(x, ci) => RemoveExistingImage(f, x, ci)
    case RemoveExistingComponentEvent(i, b, x) => RemoveExistingComponentImage(f, i, b, x)
    case BeforePhotosEvent(files) => f.(photosBefore := files)
  }

  function Run(f: Form, evs: seq<Event>): Form
    decreases |evs|
  {
    if evs == [] then f else Step(Run(f, evs[..|evs| - 1]), evs[|evs| - 1])
  }

  /** A removal of a saved photo names a photo the page shows. */
  predicate Offered(g: Given, ev: Event) {
    match ev
    case RemoveExistingEvent(x, ci) => if ci.None? then x in g.beforePhotos else x in g.componentPhotos
    case RemoveExistingComponentEvent(_, _, x) => x in g.componentPhotos
    case _ => true
  }

  lemma InitialKnown(p: InspectionProp)
    ensures Known(EditInitial(p), GivenBy(p))
  {
    var f, g := EditInitial(p), GivenBy(p);
    forall k | 0 <= k < |f.components|
      ensures EntryKnown(f.components[k], g)
    {
      var c := p.components[k];
      assert c in p.components;
      forall x | x in f.components[k].existingComponent
        ensures x.id in g.componentPhotos
      {
        assert x in OrNone(c.photosComponent) + OrNone(c.photosCheck);
      }
      forall x | x in f.components[k].existingCheck
        ensures x.id in g.componentPhotos
      {
        assert x in OrNone(c.photosComponent) + OrNone(c.photosCheck);
      }
    }
  }

  lemma RemoveComponentKnown(f: Form, g: Given, i: nat)
    requires Known(f, g) && i < |f.components|
    ensures Known(RemoveComponent(f, i), g)
  {
    assert EntryKnown(f.components[i], g);
    var r := RemoveComponent(f, i);
    forall k | 0 <= k < |r.components|
      ensures EntryKnown(r.components[k], g)
    {
      if k >= i {
        assert r.components[k] == f.components[k + 1];
      }
    }
  }

  lemma RemoveExistingKnown(f: Form, g: Given, x: nat, ci: Option<nat>)
    requires Known(f, g) && Offered(g, RemoveExistingEvent(x, ci))
    ensures Known(RemoveExistingImage(f, x, ci), g)
  {
    if ci.Some? && ci.value < |f.components| {
      var e := f.components[ci.value];
      assert EntryKnown(e, g);
    }
  }

  lemma RemoveExistingComponentKnown(f: Form, g: Given, i: nat, b: Bucket, x: nat)
    requires Known(f, g) && x in g.componentPhotos
    ensures Known(RemoveExistingComponentImage(f, i, b, x), g)
  {
    if i < |f.components| {
      assert EntryKnown(f.components[i], g);
    }
  }

  lemma StepKnown(f: Form, g: Given, ev: Event)
    requires Known(f, g) && Offered(g, ev)
    ensures Known(Step(f, ev), g)
  {
    match ev
    case RemoveComponentEvent(i) =>
      if i < |f.components| {
        RemoveComponentKnown(f, g, i);
      }
    case RemoveExistingEvent(x, ci) =>
      RemoveExistingKnown(f, g, x, ci);
    case RemoveExistingComponentEvent(i, b, x) =>
      RemoveExistingComponentKnown(f, g, i, b, x);
    case _ =>
  }

  lemma {:induction false} RunKnown(f: Form, g: Given, evs: seq<Event>)
    requires Known(f, g)
    requires forall k :: 0 <= k < |evs| ==> Offered(g, evs[k])
    ensures Known(Run(f, evs), g)
    decreases |evs|
  {
    if evs != [] {
      RunKnown(f, g, evs[..|evs| - 1]);
      StepKnown(Run(f, evs[..|evs| - 1]), g, evs[|evs| - 1]);
    }
  }

  /** The given ids name rows of the database. */
  predicate GivenExist(t: Tables, g: Given) {
    && (forall c :: c in g.components ==> c in t.components)
    && (forall x :: x in g.componentPhotos ==> x in t.componentPhotos)
    && (forall x :: x in g.beforePhotos ==> x in t.inspectionPhotos)
  }

  /** A request carries the form's ids: its component ids, its delete lists. */
  predicate Carries(req: UpdateRequest, f: Form) {
    && req.deleteComponents == f.deleteComponents
    && req.deletePhotosBefore == f.deletePhotosBefore
    && |req.components| == |f.components|
    && forall k :: 0 <= k < |f.components| ==>
      && req.components[k].id == f.components[k].id
      && req.components[k].deletePhotosComponent == f.components[k].deletePhotosComponent
      && req.components[k].deletePhotosCheck == f.components[k].deletePhotosCheck
  }

  /** The `exists` rules of `update` on the ids a request carries. */
  predicate IdsAccepted(t: Tables, req: UpdateRequest) {
    && (forall k :: 0 <= k < |req.components| ==>
          && (req.components[k].id.None? || req.components[k].id.value in t.components)
          && (forall p :: p in req.components[k].deletePhotosComponent ==> p in t.componentPhotos)
          && (forall p :: p in req.components[k].deletePhotosCheck ==> p in t.componentPhotos))
    && (forall c :: c in req.deleteComponents ==> c in t.components)
    && (forall p :: p in req.deletePhotosBefore ==> p in t.inspectionPhotos)
  }

  /** A form whose ids were all given, on a page whose given ids name rows,
      makes a request whose ids pass the `exists` rules. */
  lemma KnownIdsAccepted(t: Tables, g: Given, f: Form, req: UpdateRequest)
    requires GivenExist(t, g) && Known(f, g) && Carries(req, f)
    ensures IdsAccepted(t, req)
  {
    forall k | 0 <= k < |req.components|
      ensures req.components[k].id.None? || req.components[k].id.value in t.components
    {
      assert EntryKnown(f.components[k], g);
    }
    forall k, x | 0 <= k < |req.components| && x in req.components[k].deletePhotosComponent
      ensures x in t.componentPhotos
    {
      assert EntryKnown(f.components[k], g);
    }
    forall k, x | 0 <= k < |req.components| && x in req.components[k].deletePhotosCheck
      ensures x in t.componentPhotos
    {
      assert EntryKnown(f.components[k], g);
    }
  }

  /** Whatever the user does on a page opened on rows of the database, the
      ids the submitted form carries pass the `exists` rules of `update`
      (the database being as it was when the page was rendered). */
  lemma EditSessionIdsAccepted(t: Tables, p: InspectionProp, evs: seq<Event>, req: UpdateRequest)
    requires GivenExist(t, GivenBy(p))
    requires forall k :: 0 <= k < |evs| ==> Offered(GivenBy(p), evs[k])
    requires Carries(req, Run(EditInitial(p), evs))
    ensures IdsAccepted(t, req)
  {
    InitialKnown(p);
    RunKnown(EditInitial(p), GivenBy(p), evs);
    KnownIdsAccepted(t, GivenBy(p), Run(EditInitial(p), evs), req);
  }

  /** `IdsAccepted` is implied by the server's rule. */
  lemma UpdateRuleNeedsIds(t: Tables, req: UpdateRequest)
    requires UpdateRule(t, req)
    ensures IdsAccepted(t, req)
  {
    forall k | 0 <= k < |req.components|
      ensures req.components[k].id.None? || req.components[k].id.value in t.components
    {
      assert EntryRule(t, req.components[k]);
    }
  }
}
