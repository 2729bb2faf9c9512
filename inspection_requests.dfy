/**
 * The payloads that InspectionController's `store` and `update` accept, and
 * their validation rules. A request that breaks a rule is answered with
 * field errors before anything is written; the predicates below are the
 * condition under which the controller goes on to change the database.
 */
module InspectionRequests {
  import opened Wrappers
  import opened Models
  import opened Validation

  /** The eight scalar keys of `store` and `update` as sent. The four
      nullable ones may be absent, null or given. */
  datatype FieldsInput = FieldsInput(
    customerId: Id, assetId: Submitted<Id>, location: string, condition: string,
    estimateCost: Submitted<string>, finding: string, analysis: Submitted<string>,
    recommendation: Submitted<string>)

  /** The controller reads every one of the eight keys out of `$validated`;
      a nullable key that was not sent is an undefined array key there, an
      error raised before the first write. */
  predicate KeysSent(f: FieldsInput) {
    !f.assetId.Absent? && !f.estimateCost.Absent? && !f.analysis.Absent? && !f.recommendation.Absent?
  }

  /** The eight columns the controller writes: each nullable key becomes
      null or its value. */
  function Columns(f: FieldsInput): (c: InspectionFields)
    ensures c.customerId == f.customerId && c.location == f.location
    ensures c.condition == f.condition && c.finding == f.finding
    ensures c.assetId == Column(f.assetId) && c.estimateCost == Column(f.estimateCost)
    ensures c.analysis == Column(f.analysis) && c.recommendation == Column(f.recommendation)
  {
    InspectionFields(f.customerId, Column(f.assetId), f.location, f.condition,
                     Column(f.estimateCost), f.finding, Column(f.analysis), Column(f.recommendation))
  }

  /** A component of a new inspection (`components.*` in `store`). */
  datatype NewComponent = NewComponent(
    fields: ComponentFields,
    photosComponent: seq<UploadItem>,
    photosCheck: seq<UploadItem>)

  datatype StoreRequest = StoreRequest(
    fields: FieldsInput,
    photosBefore: seq<UploadItem>,
    components: seq<NewComponent>)

  /** A component entry of an update: with the id of the component it
      targets, or without one for a new component, plus the photo ids to
      delete from each of its two photo buckets. */
  datatype ComponentEntry = ComponentEntry(
    id: Option<Id>,
    fields: ComponentFields,
    photosComponent: seq<UploadItem>,
    photosCheck: seq<UploadItem>,
    deletePhotosComponent: seq<Id>,
    deletePhotosCheck: seq<Id>)

  datatype UpdateRequest = UpdateRequest(
    fields: FieldsInput,
    photosBefore: seq<UploadItem>,
    components: seq<ComponentEntry>,
    deleteComponents: seq<Id>,
    deletePhotosBefore: seq<Id>)

  /** The eight scalar rules, the same in `store` and in `update`. */
  predicate InspectionFieldsRule(t: Tables, f: FieldsInput) {
    && f.customerId in t.customers
    && (f.assetId.Given? ==> f.assetId.value in t.assets)
    && RequiredShort(f.location)
    && RequiredShort(f.condition)
    && OptionalShort(f.estimateCost)
    && Required(f.finding)
  }

  /** `components.*.name` ... `components.*.check_results`. */
  predicate ComponentFieldsRule(f: ComponentFields) {
    && RequiredShort(f.name)
    && RequiredShort(f.functionDesc)
    && Required(f.condition)
    && Required(f.checkResults)
  }

  predicate NewComponentRule(c: NewComponent) {
    ComponentFieldsRule(c.fields) && ImagesRule(c.photosComponent) && ImagesRule(c.photosCheck)
  }

  predicate StoreRule(t: Tables, req: StoreRequest) {
    && InspectionFieldsRule(t, req.fields)
    && ImagesRule(req.photosBefore)
    && (forall k :: 0 <= k < |req.components| ==> NewComponentRule(req.components[k]))
  }

  /** `exists:components,id` and `exists:component_photos,id` look the id up
      in the whole table, not among this inspection's rows. */
  predicate EntryRule(t: Tables, e: ComponentEntry) {
    && (e.id.None? || e.id.value in t.components)
    && ComponentFieldsRule(e.fields)
    && ImagesRule(e.photosComponent)
    && ImagesRule(e.photosCheck)
    && (forall p :: p in e.deletePhotosComponent ==> p in t.componentPhotos)
    && (forall p :: p in e.deletePhotosCheck ==> p in t.componentPhotos)
  }

  predicate UpdateRule(t: Tables, req: UpdateRequest) {
    && InspectionFieldsRule(t, req.fields)
    && ImagesRule(req.photosBefore)
    && (forall k :: 0 <= k < |req.components| ==> EntryRule(t, req.components[k]))
    && (forall c :: c in req.deleteComponents ==> c in t.components)
    && (forall p :: p in req.deletePhotosBefore ==> p in t.inspectionPhotos)
  }
}
