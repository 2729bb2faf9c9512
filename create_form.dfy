/**
 * The Create page of an inspection (Inspections/Create.tsx): the initial
 * form data, the component reducers, and the page object whose file
 * handlers and effects change its state. New components have no id and
 * nothing is marked for deletion.
 *
 * The `customer_id`, `asset_id` and `location` fields live in the page's
 * `FormCommon.LocationPicker`; `NewForm` holds the rest of the form data.
 */
module CreateForm {
  import opened Wrappers
  import opened FormCommon

  /** One element of `components`. */
  datatype NewEntry = NewEntry(
    name: string, functionDesc: string, condition: string, checkResults: string,
    photosComponent: seq<Compressed>, photosCheck: seq<Compressed>)

  datatype NewForm = NewForm(
    condition: string, estimateCost: string, finding: string, analysis: string,
    recommendation: string, photosBefore: seq<Picked>, components: seq<NewEntry>)

  /** The condition a new inspection starts with. */
  const InitialCondition: string := "baik"

  /** The `useForm` initial value: condition "baik", every other text field
      empty, no components and no photos. */
  function CreateInitial(): (f: NewForm)
    ensures f.condition == InitialCondition
    ensures f.estimateCost == "" && f.finding == "" && f.analysis == "" && f.recommendation == ""
    ensures f.photosBefore == [] && f.components == []
  {
    NewForm(InitialCondition, "", "", "", "", [], [])
  }

  function NewPhotos(e: NewEntry, b: Bucket): seq<Compressed> {
    if b == ComponentBucket then e.photosComponent else e.photosCheck
  }

  function WithNewPhotos(e: NewEntry, b: Bucket, ps: seq<Compressed>): NewEntry {
    if b == ComponentBucket then e.(photosComponent := ps) else e.(photosCheck := ps)
  }

  function Text(e: NewEntry, field: TextField): string {
    match field
    case NameField => e.name
    case FunctionField => e.functionDesc
    case ConditionField => e.condition
    case CheckResultsField => e.checkResults
  }

  /** `{ ...comp, [field]: value }`: that field changes, the rest stays. */
  function WithText(e: NewEntry, field: TextField, value: string): (r: NewEntry)
    ensures Text(r, field) == value
    ensures forall g :: g != field ==> Text(r, g) == Text(e, g)
    ensures r.(name := e.name, functionDesc := e.functionDesc, condition := e.condition,
               checkResults := e.checkResults) == e
  {
    match field
    case NameField => e.(name := value)
    case FunctionField => e.(functionDesc := value)
    case ConditionField => e.(condition := value)
    case CheckResultsField => e.(checkResults := value)
  }

  function BlankEntry(): NewEntry {
    NewEntry("", "", "", "", [], [])
  }

  /** `handleAddComponent`: one blank entry at the end. */
  function AddComponent(f: NewForm): (r: NewForm)
    ensures |r.components| == |f.components| + 1
    ensures r.components[..|f.components|] == f.components
    ensures r.components[|f.components|] == BlankEntry()
    ensures r.(components := f.components) == f
  {
    f.(components := f.components + [BlankEntry()])
  }

  /** `handleRemoveComponent`: only the entry at `index` goes (none when the
      index names no entry); there is no deletion bookkeeping. */
  function RemoveComponent(f: NewForm, index: nat): (r: NewForm)
    ensures index < |f.components| ==> |r.components| == |f.components| - 1
    ensures index < |f.components| ==> forall k :: 0 <= k < index ==> r.components[k] == f.components[k]
    ensures index < |f.components| ==>
      forall k :: index <= k < |r.components| ==> r.components[k] == f.components[k + 1]
    ensures index >= |f.components| ==> r == f
    ensures r.(components := f.components) == f
  {
    f.(components := RemoveAt(f.components, index))
  }

  /** `components.map((comp, i) => i === index ? change(comp) : comp)`. */
  function ChangeAt(es: seq<NewEntry>, index: nat, e: NewEntry): (r: seq<NewEntry>)
    ensures |r| == |es|
    ensures forall k :: 0 <= k < |es| && k != index ==> r[k] == es[k]
    ensures index < |es| ==> r[index] == e
  {
    if index < |es| then es[index := e] else es
  }

  /** `handleComponentChange`: exactly one text field of one entry changes. */
  function ComponentChange(f: NewForm, index: nat, field: TextField, value: string): (r: NewForm)
    ensures |r.components| == |f.components|
    ensures forall k :: 0 <= k < |f.components| && k != index ==> r.components[k] == f.components[k]
    ensures index < |f.components| ==> Text(r.components[index], field) == value
    ensures index < |f.components| ==>
      forall g :: g != field ==> Text(r.components[index], g) == Text(f.components[index], g)
    ensures index < |f.components| ==>
      WithText(r.components[index], field, Text(f.components[index], field)) == f.components[index]
    ensures r.(components := f.components) == f
  {
    if index < |f.components| then
      f.(components := ChangeAt(f.components, index, WithText(f.components[index], field, value)))
    else f
  }

  /** The compressed files of a `handleComponentFileChange` appended to one
      bucket of one entry. */
  function AddComponentImages(f: NewForm, index: nat, b: Bucket, news: seq<Compressed>): (r: NewForm)
    ensures |r.components| == |f.components|
    ensures forall k :: 0 <= k < |f.components| && k != index ==> r.components[k] == f.components[k]
    ensures index < |f.components| ==>
      NewPhotos(r.components[index], b) == NewPhotos(f.components[index], b) + news
    ensures index < |f.components| ==>
      WithNewPhotos(r.components[index], b, NewPhotos(f.components[index], b)) == f.components[index]
    ensures r.(components := f.components) == f
  {
    if index < |f.components| then
      var e := f.components[index];
      f.(components := ChangeAt(f.components, index, WithNewPhotos(e, b, NewPhotos(e, b) + news)))
    else f
  }

  lemma AddNoImages(f: NewForm, index: nat, b: Bucket)
    ensures AddComponentImages(f, index, b, []) == f
  {
    if index < |f.components| {
      var e := f.components[index];
      assert NewPhotos(e, b) + [] == NewPhotos(e, b);
      assert WithNewPhotos(e, b, NewPhotos(e, b)) == e;
      assert f.components[index := e] == f.components;
    }
  }

  /** `handleRemoveComponentImage`: only the photo at `imageIndex` of the
      chosen bucket of the chosen entry goes. */
  function RemoveComponentImage(f: NewForm, index: nat, b: Bucket, imageIndex: nat): (r: NewForm)
    ensures |r.components| == |f.components|
    ensures forall k :: 0 <= k < |f.components| && k != index ==> r.components[k] == f.components[k]
    ensures index < |f.components| ==>
      NewPhotos(r.components[index], b) == RemoveAt(NewPhotos(f.components[index], b), imageIndex)
    ensures index < |f.components| ==>
      WithNewPhotos(r.components[index], b, NewPhotos(f.components[index], b)) == f.components[index]
    ensures r.(components := f.components) == f
  {
    if index < |f.components| then
      var e := f.components[index];
      f.(components := ChangeAt(f.components, index, WithNewPhotos(e, b, RemoveAt(NewPhotos(e, b), imageIndex))))
    else f
  }

  /** Adding a component and removing it again gives back the form. */
  lemma AddThenRemove(f: NewForm)
    ensures RemoveComponent(AddComponent(f), |f.components|) == f
  {
    assert (f.components + [BlankEntry()])[..|f.components|] == f.components;
  }

  class CreatePage {
    const picker: LocationPicker
    var form: NewForm
    /** `compressedPhotosBefore`. */
    var previewsBefore: seq<Compressed>

    /** The first render: nothing chosen, the initial form, no previews. */
    constructor ()
      ensures fresh(picker)
      ensures picker.customerId.Blank? && picker.assetId.Blank? && picker.location == ""
      ensures picker.customerLocation.None? && picker.filteredAssets == []
      ensures form == CreateInitial() && previewsBefore == []
    {
      picker := new LocationPicker(Blank, Blank, "");
      form := CreateInitial();
      previewsBefore := [];
    }

    /** `handleFileChange(setCompressedPhotosBefore)`: at most the first 9
        files of the selection, compressed, are appended to the previews. */
    method SelectBeforePhotos(selection: seq<Picked>, compress: Picked -> Option<Compressed>)
      modifies this
      ensures previewsBefore == old(previewsBefore) + Kept(TakeSelection(selection), compress)
      ensures |previewsBefore| <= |old(previewsBefore)| + MaxSelection
      ensures form == old(form)
    {
      var files := TakeSelection(selection);
      if |files| == 0 {
        return;
      }
      var compressed := CompressAll(files, compress);
      previewsBefore := previewsBefore + compressed;
    }

    /** `removeImage(setCompressedPhotosBefore)`: it reads `prev[index].url`,
        so `index` must name a preview. */
    method RemoveBeforePhoto(index: nat)
      requires index < |previewsBefore|
      modifies this
      ensures previewsBefore == RemoveAt(old(previewsBefore), index)
      ensures form == old(form)
    {
      previewsBefore := RemoveAt(previewsBefore, index);
    }

    /** The effect on `compressedPhotosBefore`: the form sends their files. */
    method SyncBeforePhotos()
      modifies this
      ensures form == old(form).(photosBefore := FilesOf(previewsBefore))
      ensures previewsBefore == old(previewsBefore)
    {
      form := form.(photosBefore := FilesOf(previewsBefore));
    }

    /** `handleComponentFileChange(index, photoType)`: at most the first 9
        files, compressed, go to that bucket of that entry. */
    method SelectComponentPhotos(index: nat, b: Bucket, selection: seq<Picked>,
                                 compress: Picked -> Option<Compressed>)
      modifies this
      ensures form == AddComponentImages(old(form), index, b, Kept(TakeSelection(selection), compress))
      ensures previewsBefore == old(previewsBefore)
    {
      var files := TakeSelection(selection);
      if |files| == 0 {
        AddNoImages(form, index, b);
        return;
      }
      var compressed := CompressAll(files, compress);
      form := AddComponentImages(form, index, b, compressed);
    }
  }
}
