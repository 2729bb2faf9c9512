# Inspection app: server actions and edit/create forms

This project models the core of an equipment-inspection web application in
Dafny. The application is a Laravel back end with React (Inertia) pages. The
model covers three parts.

- **The server actions that write records.** These are InspectionController
  `store` and `update`, and AssetController and CustomerController `store`,
  `update` and `destroy`. The persisted state is `Models.Tables`, a value
  holding the customers, assets, asset photos, inspections, components,
  inspection photos and component photos (each a map from id to row), the set
  of stored files, and the two counters that name new rows and new files.
  Each action is a function on `Tables` (modules `InspectionReconciler`,
  `AssetActions`, `CustomerActions`). Each controller action is also an
  imperative method on the mutable `Models.Database` class, with the source's
  `foreach` loops as `while` loops. The method is proved to leave the
  database exactly as its function says.
- **The validation rules.** These are the `exists`, `required`, `max` and
  `image` rules each action checks before writing anything (modules
  `Validation`, `InspectionRequests`). A request that fails them writes
  nothing. Every element of an upload array must be an image file. A
  request that passes them but leaves out a nullable key the inspection
  controller reads ends in an error (`Outcome.Failed`), again before any
  write.
- **The Inspections Edit and Create pages.** Their `setData` updaters are pure
  functions on the form data (`EditForm`, `CreateForm`). Their effects and
  file handlers are methods of page classes that hold the React state:
  `FormCommon.LocationPicker` for the customer/asset/location pickers, and
  `EditForm.EditPage` and `CreateForm.CreatePage`. Edit.tsx and Create.tsx
  each define their own component updaters over their own entry shape, so
  `EditForm` and `CreateForm` each have their own copy of the updaters that
  the two pages share word for word (`WithText`, `ChangeAt`,
  `ComponentChange`, `AddComponentImages`, `RemoveComponentImage`).

The proved properties fall into five groups.

- **Invariant.** The database invariant `Models.ValidTables` is preserved by
  every action. It says:
  - every id is below the id counter;
  - every component and photo row has an existing parent;
  - every photo row's file is on the disk;
  - no two rows share a file;
  - every file was named before the file counter.
- **Deletes.** Each delete loop of `update` equals removing the listed ids
  that belong to this inspection or component with the right `type`. A
  listed id that does not belong is ignored. The loop is idempotent.
- **Other inspections.** `update` never touches the rows of another
  inspection.
- **Photo bookkeeping.** For the "before" bucket, the photos after a whole
  `update` are the old ones minus the listed deletions, plus one new one per
  uploaded file. For the "component" and "check" buckets the same is proved
  per entry, for one iteration of the components loop whose delete ids name
  existing photos, as the rule demands; a later entry or a component
  deletion of the same request can still change them.
- **The Edit page.** Whatever the user does on the Edit page, the ids the
  submitted form carries pass `update`'s `exists` rules.

Files, clocks and the network become parameters: a stored upload is a fresh
path `StoredPath(dir, serial)`, and image compression is a function parameter
`compress` whose `None` stands for a thrown error.

## Model

| member | source | states |
|---|---|---|
| Models.PhotosBefore | app/Models/Inspection.php:47-50 | a photo is among an inspection's "before" photos iff it is a photo row of that inspection with type "before" |
| Models.PhotosOf | app/Models/Component.php:22-25 | a photo is among a component's photos iff its row points at that component |
| Models.PhotosTagged | app/Models/Component.php:27-35 | the component's photos of one type: exactly the rows of that component with that tag, a subset of its photos |
| Models.ComponentsOf | app/Http/Controllers/InspectionController.php:236 | a component is one of the inspection's iff its row points at the inspection |
| Models.AssetPhotosOf | app/Models/Asset.php:27-30 | a photo is among an asset's photos iff its row points at the asset |
| Models.AddInspectionPhoto | app/Http/Controllers/InspectionController.php:227-228 | `store` then `photos()->create`: one new row at the next id, with a new file path, the owner and the type |
| Models.AddComponentPhoto | app/Http/Controllers/InspectionController.php:261-262 | the same for a component photo with its type |
| Models.AddAssetPhoto | app/Http/Controllers/AssetController.php:45-46 | the same for an asset photo |
| Models.RemoveComponentPhotos | app/Http/Controllers/InspectionController.php:281-282 | file deleted, then row: the rows in the set are gone and their files are off the disk |
| Models.RemoveInspectionPhotos | app/Http/Controllers/InspectionController.php:319-320 | the same for inspection photos |
| Models.RemoveAssetPhotos | app/Http/Controllers/AssetController.php:88-89 | the same for asset photos |
| Models.RemoveComponentPhotosTwice | app/Http/Controllers/InspectionController.php:277-296 | deleting two sets one after the other is deleting their union |
| Models.EmptyTablesValid | database/migrations/2025_08_10_084308_create_inspections_table.php:14-30 | the invariant's base case: a freshly migrated database, with every table empty and no file stored, satisfies `ValidTables` |
| Models.AddInspectionPhotoValid | app/Http/Controllers/InspectionController.php:226-229 | adding a photo to an existing inspection keeps the invariant |
| Models.AddComponentPhotoValid | app/Http/Controllers/InspectionController.php:260-263 | adding a photo to an existing component keeps the invariant |
| Models.AddAssetPhotoValid | app/Http/Controllers/AssetController.php:44-47 | adding a photo to an existing asset keeps the invariant |
| Models.RemoveComponentPhotosValid | app/Http/Controllers/InspectionController.php:281-282 | deleting photo rows with their files keeps the invariant, so no surviving row loses its file |
| Models.RemoveInspectionPhotosValid | app/Http/Controllers/InspectionController.php:319-320 | the same for inspection photos |
| Models.RemoveAssetPhotosValid | app/Http/Controllers/AssetController.php:88-89 | the same for asset photos |
| Models.Database.constructor | database/migrations/2025_08_10_084308_create_inspections_table.php:14-30 | the invariant's base case for the mutable database: it starts as the empty tables, on which `Valid()` holds |
| Models.Database.StoreFile | app/Http/Controllers/InspectionController.php:227 | `store` on a file: one new path, not named before, on the disk |
| Models.Database.DeleteFile | app/Http/Controllers/InspectionController.php:281 | `Storage::delete`: the path leaves the disk; nothing else changes |
| Models.Database.CreateRow | app/Http/Controllers/InspectionController.php:73 | an auto-increment id: the next id, and the counter moves on |
| Models.Database.CreateInspection | app/Http/Controllers/InspectionController.php:73-82 | `inspections()->create`: a new inspection row at the next id |
| Models.Database.UpdateInspection | app/Http/Controllers/InspectionController.php:213-222 | `$inspection->update`: the eight columns replaced, the owner kept |
| Models.Database.CreateInspectionPhoto | app/Http/Controllers/InspectionController.php:228 | `photos()->create` on an inspection: a new row at the next id with the path and type |
| Models.Database.DeleteInspectionPhoto | app/Http/Controllers/InspectionController.php:320 | `$photo->delete()`: that row goes; nothing else changes |
| Models.Database.CreateComponent | app/Http/Controllers/InspectionController.php:249-254 | `components()->create`: a new component row of the inspection at the next id |
| Models.Database.UpdateComponent | app/Http/Controllers/InspectionController.php:242-247 | `$component->update`: the four text columns replaced, the inspection kept |
| Models.Database.DeleteComponent | app/Http/Controllers/InspectionController.php:309 | `$component->delete()`: that row goes; nothing else changes |
| Models.Database.CreateComponentPhoto | app/Http/Controllers/InspectionController.php:262 | `photos()->create` on a component: a new row at the next id with the path and type |
| Models.Database.DeleteComponentPhoto | app/Http/Controllers/InspectionController.php:282 | `$photo->delete()`: that row goes; nothing else changes |
| Models.Database.CreateAsset | app/Http/Controllers/AssetController.php:41 | `Asset::create`: a new asset row at the next id |
| Models.Database.UpdateAsset | app/Http/Controllers/AssetController.php:75 | `$asset->update`: the asset row replaced |
| Models.Database.DeleteAsset | app/Http/Controllers/AssetController.php:103 | `$asset->delete()`: that row goes; nothing else changes |
| Models.Database.CreateAssetPhoto | app/Http/Controllers/AssetController.php:46 | `photos()->create` on an asset: a new row at the next id with the path |
| Models.Database.DeleteAssetPhoto | app/Http/Controllers/AssetController.php:89 | `$photo->delete()`: that row goes; nothing else changes |
| Models.Database.CreateCustomer | app/Http/Controllers/CustomerController.php:39 | `Customer::create`: a new customer row at the next id |
| Models.Database.UpdateCustomer | app/Http/Controllers/CustomerController.php:69 | `$customer->update`: the customer row replaced |
| Models.Database.DeleteCustomer | app/Http/Controllers/CustomerController.php:79 | `$customer->delete()`: that row goes; nothing else changes |
| Validation.CountFiles | app/Http/Controllers/InspectionController.php:105 | the number of uploaded items that are files: at most the number of items, and zero iff none is a file |
| Validation.Column | app/Http/Controllers/InspectionController.php:74-81 | a nullable key as the column it writes: null when sent as null, its value when given |
| Validation.Merged | app/Http/Controllers/AssetController.php:75 | the mass update: a key that was not sent keeps the current column, a sent one writes null or its value |
| Validation.ImageRule | app/Http/Controllers/InspectionController.php:60 | `image|max:2048` on an array element: it must be a file, an image, of at most 2048 KB |
| Validation.ImagesRule | app/Http/Controllers/InspectionController.php:59-60 | every element of an upload array passes `ImageRule` |
| Validation.OptionalImageRule | app/Http/Controllers/CustomerController.php:30 | `nullable|image|max:2048` on a single upload: no file passes; a file must be an image of at most 2048 KB |
| Validation.ImagesAreFiles | app/Http/Controllers/InspectionController.php:59-60 | an upload array that passes the rule holds only files, so `CountFiles` is its length |
| InspectionRequests.KeysSent | app/Http/Controllers/InspectionController.php:73-82 | the controller reads all four nullable keys (`asset_id`, `estimate_cost`, `analysis`, `recommendation`) out of `$validated` |
| InspectionRequests.Columns | app/Http/Controllers/InspectionController.php:73-82 | the eight columns written: the required keys as sent, each nullable key through `Column` |
| InspectionRequests.InspectionFieldsRule | app/Http/Controllers/InspectionController.php:50-57 | `required`/`exists`/`max:255` on the eight scalar keys; a null or absent asset id is not looked up |
| InspectionRequests.ComponentFieldsRule | app/Http/Controllers/InspectionController.php:63-66 | the four text fields of a component are required, name and function at most 255 characters |
| InspectionRequests.NewComponentRule | app/Http/Controllers/InspectionController.php:63-70 | a component of `store`: its fields and both photo arrays pass |
| InspectionRequests.StoreRule | app/Http/Controllers/InspectionController.php:49-71 | the whole rule set of `store` |
| InspectionRequests.EntryRule | app/Http/Controllers/InspectionController.php:191-203 | a component entry of `update`: its id and delete ids must exist in the whole table, not only this inspection's rows |
| InspectionRequests.UpdateRule | app/Http/Controllers/InspectionController.php:177-210 | the whole rule set of `update` |
| InspectionReconciler.AddBeforePhotos | app/Http/Controllers/InspectionController.php:225-230 | one "before" row of the inspection per uploaded file, at consecutive new ids, each with its file on the disk; older rows unchanged; nothing else changes |
| InspectionReconciler.AddComponentPhotos | app/Http/Controllers/InspectionController.php:258-274 | the same for one bucket of one component; items that are not files are skipped |
| InspectionReconciler.DeleteTaggedPhoto | app/Http/Controllers/InspectionController.php:279-283 | one id: deleted with its file only when it is this component's photo with this type |
| InspectionReconciler.DeleteTaggedPhotos | app/Http/Controllers/InspectionController.php:277-296 | a delete loop only removes: rows and files only shrink, survivors are unchanged, nothing else changes |
| InspectionReconciler.Resolves | app/Http/Controllers/InspectionController.php:235-236 | `components()->find($id)`: the entry has an id that names a component of this inspection |
| InspectionReconciler.Target | app/Http/Controllers/InspectionController.php:235-255 | the component the entry's uploads and deletes work on: the one found, else the one created at the next id |
| InspectionReconciler.Upsert | app/Http/Controllers/InspectionController.php:241-255 | a found component takes the entry's fields and keeps its inspection; otherwise a new component of this inspection is created |
| InspectionReconciler.EntryUploads | app/Http/Controllers/InspectionController.php:234-274 | an id that names a component of this inspection makes that row take the submitted fields; any other entry creates one new component of this inspection at the next id; photos already stored are kept |
| InspectionReconciler.ApplyEntry | app/Http/Controllers/InspectionController.php:234-296 | one iteration of the components loop changes only components, component photos, files and counters, and the component rows are those of the upsert |
| InspectionReconciler.ApplyEntries | app/Http/Controllers/InspectionController.php:233-298 | the whole components loop keeps every old component, and with its owner |
| InspectionReconciler.PhotosOfAll | app/Http/Controllers/InspectionController.php:305 | the photos of a set of components |
| InspectionReconciler.RemoveComponents | app/Http/Controllers/InspectionController.php:304-310 | the components of the set are gone; exactly their photos are gone, and with them their files; other rows unchanged |
| InspectionReconciler.DeleteComponent | app/Http/Controllers/InspectionController.php:303-310 | one id: the component goes with all its photos and their files only when it is this inspection's |
| InspectionReconciler.DeleteComponents | app/Http/Controllers/InspectionController.php:301-312 | deleting components changes only components, component photos and files |
| InspectionReconciler.DeleteBeforePhoto | app/Http/Controllers/InspectionController.php:317-321 | one id: deleted with its file only when it is this inspection's photo of type "before" |
| InspectionReconciler.DeleteBeforePhotos | app/Http/Controllers/InspectionController.php:315-323 | deleting before photos changes only inspection photos and files |
| InspectionReconciler.OverwriteFields | app/Http/Controllers/InspectionController.php:213-222 | the inspection row takes the eight columns and keeps its user |
| InspectionReconciler.Reconcile | app/Http/Controllers/InspectionController.php:213-323 | after `update` the inspection holds the columns of the submitted fields (a null key writes null) and keeps its user; no inspection is added or removed; other inspections, customers, assets and asset photos are unchanged |
| InspectionReconciler.UpdateOutcome | app/Http/Controllers/InspectionController.php:175-222 | not found; else invalid when a rule fails; else failed when a nullable key read at 215-221 was not sent; else saved |
| InspectionReconciler.Update | app/Http/Controllers/InspectionController.php:175-326 | nothing is written unless the inspection exists, the request passes the rules and every nullable key was sent; then the database is `Reconcile` |
| InspectionReconciler.CreateComponent | app/Http/Controllers/InspectionController.php:95-100 | one new component of the inspection at the next id with the submitted fields; the photos it then uploads are stated by `StoreProperties.CreateComponentPhotos` |
| InspectionReconciler.CreateComponents | app/Http/Controllers/InspectionController.php:92-122 | creating components only adds: at least one new id per component |
| InspectionReconciler.InsertInspection | app/Http/Controllers/InspectionController.php:73 | one new inspection row at the next id |
| InspectionReconciler.StoreInspection | app/Http/Controllers/InspectionController.php:73-82 | a new inspection at the next id, owned by the user, with the columns of the submitted fields |
| InspectionReconciler.StoreOutcome | app/Http/Controllers/InspectionController.php:49-82 | invalid when a rule fails; else failed when a nullable key read at 75-81 was not sent; else saved |
| InspectionReconciler.Store | app/Http/Controllers/InspectionController.php:47-125 | nothing is written when the request fails the rules or leaves out a nullable key; otherwise `StoreInspection` |
| InspectionController.StorePhoto | app/Http/Controllers/InspectionController.php:227-228 | the database after storing one before photo equals `AddInspectionPhoto` |
| InspectionController.StoreComponentPhoto | app/Http/Controllers/InspectionController.php:261-262 | the database after storing one component photo equals `AddComponentPhoto` |
| InspectionController.UploadBeforePhotos | app/Http/Controllers/InspectionController.php:225-230 | the loop leaves the database equal to `AddBeforePhotos` |
| InspectionController.UploadComponentPhotos | app/Http/Controllers/InspectionController.php:258-274 | the loop leaves the database equal to `AddComponentPhotos` |
| InspectionController.RemoveComponentPhoto | app/Http/Controllers/InspectionController.php:281-282 | file then row: the database equals `RemoveComponentPhotos` of that one id |
| InspectionController.DeleteTaggedPhotosLoop | app/Http/Controllers/InspectionController.php:277-296 | the loop leaves the database equal to `DeleteTaggedPhotos` |
| InspectionController.ReconcileEntry | app/Http/Controllers/InspectionController.php:234-296 | one iteration leaves the database equal to `ApplyEntry` |
| InspectionController.DeleteWholeComponent | app/Http/Controllers/InspectionController.php:303-310 | one iteration of the component-delete loop leaves the database equal to `DeleteComponent` |
| InspectionController.DeleteBeforePhotosLoop | app/Http/Controllers/InspectionController.php:315-323 | the loop leaves the database equal to `DeleteBeforePhotos` |
| InspectionController.ReconcileEntries | app/Http/Controllers/InspectionController.php:233-298 | the loop leaves the database equal to `ApplyEntries` |
| InspectionController.DeleteComponentsLoop | app/Http/Controllers/InspectionController.php:301-312 | the loop leaves the database equal to `DeleteComponents` |
| InspectionController.Update | app/Http/Controllers/InspectionController.php:175-326 | the outcome is not found, invalid, failed or saved, as `UpdateOutcome` decides; the database equals `InspectionReconciler.Update` and keeps `ValidTables` |
| InspectionController.StoreComponent | app/Http/Controllers/InspectionController.php:95-120 | creating one component with its photos leaves the database equal to `CreateComponent` |
| InspectionController.StoreComponents | app/Http/Controllers/InspectionController.php:93-122 | the components loop of `store` leaves the database equal to `CreateComponents`, one `CreateComponent` per submitted entry in order |
| InspectionController.Store | app/Http/Controllers/InspectionController.php:47-125 | an inspection is created, at the next id, iff `StoreOutcome` is saved; the database equals `InspectionReconciler.Store` and keeps `ValidTables` |
| ReconcileProperties.RemoveNoComponentPhotos | app/Http/Controllers/InspectionController.php:277-285 | deleting no photos changes nothing |
| ReconcileProperties.PhotosTaggedAfterRemoval | app/Http/Controllers/InspectionController.php:279-283 | after deleting a set, a component's photos of a type are the old ones minus the set |
| ReconcileProperties.PhotosBeforeAfterRemoval | app/Http/Controllers/InspectionController.php:317-321 | after deleting a set, an inspection's before photos are the old ones minus the set |
| ReconcileProperties.ComponentsOfAfterRemoval | app/Http/Controllers/InspectionController.php:303-309 | after deleting a set of components, an inspection's components are the old ones minus the set |
| ReconcileProperties.RemoveComponentsTwice | app/Http/Controllers/InspectionController.php:301-312 | deleting two sets of components one after the other is deleting their union |
| ReconcileProperties.DeleteTaggedPhotosIsRemoval | app/Http/Controllers/InspectionController.php:277-296 | a photo delete loop removes exactly the listed ids that are photos of this component with this type, with their files |
| ReconcileProperties.DeleteBeforePhotosIsRemoval | app/Http/Controllers/InspectionController.php:315-323 | the before-photo delete loop removes exactly the listed ids that are before photos of this inspection, with their files |
| ReconcileProperties.DeleteComponentIsRemoval | app/Http/Controllers/InspectionController.php:303-310 | one component delete removes the component only when it is this inspection's, with all its photos |
| ReconcileProperties.DeleteComponentsIsRemoval | app/Http/Controllers/InspectionController.php:301-312 | the component delete loop removes exactly the listed ids that are components of this inspection, with all their photos and files |
| ReconcileProperties.DeleteTaggedPhotosUnmatched | app/Http/Controllers/InspectionController.php:279-280 | a list that names none of this component's photos of that type changes nothing |
| ReconcileProperties.DeleteTaggedPhotosIdempotent | app/Http/Controllers/InspectionController.php:277-296 | running a photo delete loop twice is running it once |
| ReconcileProperties.DeleteBeforePhotosUnmatched | app/Http/Controllers/InspectionController.php:317-318 | a list that names no before photo of this inspection changes nothing |
| ReconcileProperties.DeleteBeforePhotosIdempotent | app/Http/Controllers/InspectionController.php:315-323 | running the before-photo delete loop twice is running it once |
| ReconcileProperties.DeleteComponentsUnmatched | app/Http/Controllers/InspectionController.php:303-304 | a list that names no component of this inspection changes nothing |
| ReconcileProperties.DeleteComponentsIdempotent | app/Http/Controllers/InspectionController.php:301-312 | running the component delete loop twice is running it once |
| ReconcileProperties.OthersUnchangedTrans | app/Http/Controllers/InspectionController.php:213-323 | "another inspection's rows are unchanged" composes across steps |
| ReconcileProperties.AddComponentPhotosOthers | app/Http/Controllers/InspectionController.php:258-274 | storing uploads keeps other inspections' rows |
| ReconcileProperties.DeleteTaggedPhotosOthers | app/Http/Controllers/InspectionController.php:277-296 | a photo delete loop on a component of this inspection keeps other inspections' rows |
| ReconcileProperties.UpsertOthers | app/Http/Controllers/InspectionController.php:235-255 | the find-or-create step keeps other inspections' rows, and the component it works on exists and belongs to this inspection |
| ReconcileProperties.EntryUploadsOthers | app/Http/Controllers/InspectionController.php:234-274 | one entry's upsert and uploads keep other inspections' rows, and its target is not another inspection's component |
| ReconcileProperties.ApplyEntryOthers | app/Http/Controllers/InspectionController.php:234-296 | one iteration of the components loop keeps other inspections' rows, even when the entry's id names another inspection's component |
| ReconcileProperties.ApplyEntriesOthers | app/Http/Controllers/InspectionController.php:233-298 | the whole components loop keeps other inspections' rows |
| ReconcileProperties.DeleteComponentsOthers | app/Http/Controllers/InspectionController.php:301-312 | the component delete loop keeps other inspections' rows |
| ReconcileProperties.DeleteBeforePhotosOthers | app/Http/Controllers/InspectionController.php:315-323 | the before-photo delete loop keeps other inspections' rows |
| ReconcileProperties.ReconcileLeavesOthers | app/Http/Controllers/InspectionController.php:213-323 | `update` of one inspection leaves every component, component photo and inspection photo of every other inspection in place and unchanged |
| ReconcileProperties.EntryDeletes | app/Http/Controllers/InspectionController.php:277-296 | the photos one entry deletes: the ids in the component list that are that component's "component" photos, and the ids in the check list that are its "check" photos |
| ReconcileProperties.ApplyEntryIsRemoval | app/Http/Controllers/InspectionController.php:234-296 | one iteration is its upsert and uploads followed by deleting exactly `EntryDeletes` |
| ReconcileProperties.ApplyEntryOldPhotos | app/Http/Controllers/InspectionController.php:277-296 | an old component photo survives one iteration iff it is not listed under its own type for the target component |
| ReconcileProperties.ApplyEntryBothLists | app/Http/Controllers/InspectionController.php:277-296 | an id listed in both delete lists goes iff it is the target's photo of either type |
| ReconcileProperties.ApplyEntryKeepsRows | app/Http/Controllers/InspectionController.php:234-296 | an old component photo that survives has an unchanged row |
| ReconcileProperties.AddComponentPhotosSameTag | app/Http/Controllers/InspectionController.php:258-265 | uploads to a bucket add only new ids to that bucket |
| ReconcileProperties.AddComponentPhotosOtherTag | app/Http/Controllers/InspectionController.php:258-274 | uploads to one bucket leave the other bucket of the component as it was |
| ReconcileProperties.UploadComponentBucket | app/Http/Controllers/InspectionController.php:258-265 | the new "component" photos of the target are exactly the ids created by its upload loop |
| ReconcileProperties.EntryUploadsComponentPhotos | app/Http/Controllers/InspectionController.php:258-265 | after the uploads the target has one new "component" photo per uploaded file |
| ReconcileProperties.EntryUploadsCheckPhotos | app/Http/Controllers/InspectionController.php:267-274 | after the uploads the target has one new "check" photo per uploaded file |
| ReconcileProperties.SecondBucket | app/Http/Controllers/InspectionController.php:257-274 | uploading the "component" bucket first adds no "check" photo, so the "check" photos newer than the counter are exactly the ids the second bucket handed out |
| ReconcileProperties.ApplyEntryNewComponentPhotos | app/Http/Controllers/InspectionController.php:258-296 | after the whole iteration, the target's new "component" photos still number one per uploaded file: the deletes never remove a photo uploaded in the same request |
| ReconcileProperties.ApplyEntryNewCheckPhotos | app/Http/Controllers/InspectionController.php:267-296 | the same for "check" photos |
| ReconcileProperties.AddBeforePhotosKeepsOld | app/Http/Controllers/InspectionController.php:225-230 | the before-photo uploads keep the old before photos |
| ReconcileProperties.AddBeforePhotosAddsNew | app/Http/Controllers/InspectionController.php:225-230 | the before-photo uploads add one before photo per uploaded file |
| ReconcileProperties.ReconcileInspectionPhotos | app/Http/Controllers/InspectionController.php:213-323 | the before photos after `update` are those after the uploads minus the listed deletions |
| ReconcileProperties.ReconcileKeepsBeforePhotos | app/Http/Controllers/InspectionController.php:225-323 | the old before photos that survive `update` are exactly those not listed in `_delete_photos_before` |
| ReconcileProperties.ReconcileAddsBeforePhotos | app/Http/Controllers/InspectionController.php:225-323 | `update` ends with one new before photo per uploaded file |
| ReconcileProperties.ReconcileDeletesListedComponents | app/Http/Controllers/InspectionController.php:301-312 | every listed component of this inspection is gone after `update`, and none of its photos is left |
| ReconcileProperties.SameFilesValid | app/Http/Controllers/InspectionController.php:213-222 | changing only non-photo rows keeps the file part of the invariant |
| ReconcileProperties.OverwriteFieldsValid | app/Http/Controllers/InspectionController.php:213-222 | overwriting the inspection's fields keeps the invariant |
| ReconcileProperties.PutComponentValid | app/Http/Controllers/InspectionController.php:241-254 | writing a component row of an existing inspection keeps the invariant |
| ReconcileProperties.InsertInspectionValid | app/Http/Controllers/InspectionController.php:73-82 | inserting an inspection keeps the invariant |
| ReconcileProperties.UpsertValid | app/Http/Controllers/InspectionController.php:235-255 | the find-or-create step keeps the invariant |
| ReconcileProperties.AddBeforePhotosValid | app/Http/Controllers/InspectionController.php:225-230 | the before-photo uploads keep the invariant |
| ReconcileProperties.AddComponentPhotosValid | app/Http/Controllers/InspectionController.php:258-274 | component photo uploads keep the invariant |
| ReconcileProperties.DeleteTaggedPhotosValid | app/Http/Controllers/InspectionController.php:277-296 | the photo delete loops keep the invariant |
| ReconcileProperties.DeleteBeforePhotosValid | app/Http/Controllers/InspectionController.php:315-323 | the before-photo delete loop keeps the invariant |
| ReconcileProperties.RemoveComponentsValid | app/Http/Controllers/InspectionController.php:304-310 | deleting components with all their photos keeps the invariant: no photo is left without its component |
| ReconcileProperties.DeleteComponentsValid | app/Http/Controllers/InspectionController.php:301-312 | the component delete loop keeps the invariant |
| ReconcileProperties.EntryUploadsValid | app/Http/Controllers/InspectionController.php:234-274 | one entry's upsert and uploads keep the invariant |
| ReconcileProperties.ApplyEntryValid | app/Http/Controllers/InspectionController.php:234-296 | one iteration keeps the invariant |
| ReconcileProperties.ApplyEntriesValid | app/Http/Controllers/InspectionController.php:233-298 | the components loop keeps the invariant |
| ReconcileProperties.ReconcileValid | app/Http/Controllers/InspectionController.php:213-323 | the writes of `update` keep the invariant |
| ReconcileProperties.UpdateValid | app/Http/Controllers/InspectionController.php:175-326 | `update` keeps the invariant on every request |
| ReconcileProperties.CreateComponentValid | app/Http/Controllers/InspectionController.php:95-120 | creating one component with its photos keeps the invariant |
| ReconcileProperties.CreateComponentsValid | app/Http/Controllers/InspectionController.php:92-122 | the component loop of `store` keeps the invariant |
| ReconcileProperties.StoreValid | app/Http/Controllers/InspectionController.php:47-125 | `store` keeps the invariant on every request |
| StoreProperties.CreateComponentsKeys | app/Http/Controllers/InspectionController.php:92-122 | after `store`'s component loop, the components are the old ones plus one new id per submitted component |
| StoreProperties.CreateComponentsKeepRows | app/Http/Controllers/InspectionController.php:92-122 | the loop leaves the old component rows unchanged |
| StoreProperties.CreateComponentsNewRows | app/Http/Controllers/InspectionController.php:95-100 | the k-th new id holds the k-th submitted component's fields under the inspection |
| StoreProperties.FreshInspectionIsEmpty | app/Http/Controllers/InspectionController.php:73 | an inspection at the next id has no photos and no components yet |
| StoreProperties.FreshBeforePhotos | app/Http/Controllers/InspectionController.php:84-90 | a fresh inspection gets exactly one before photo per uploaded file |
| StoreProperties.StoreBeforePhotos | app/Http/Controllers/InspectionController.php:47-125 | after a successful `store`, the new inspection has exactly one before photo per uploaded file, which is one per element of `photos_before` |
| StoreProperties.FreshComponents | app/Http/Controllers/InspectionController.php:92-122 | the components of a fresh inspection after the loop are exactly the new ids |
| StoreProperties.StoreComponents | app/Http/Controllers/InspectionController.php:47-125 | after a successful `store`, the new inspection's components are one per submitted component, in order, each with its fields |
| StoreProperties.CreateComponentPhotos | app/Http/Controllers/InspectionController.php:95-119 | the component created at the next id gets exactly one "component" photo per uploaded file of `photos_component` and one "check" photo per uploaded file of `photos_check` |
| StoreProperties.CreateComponentKeepsPhotos | app/Http/Controllers/InspectionController.php:94-121 | a later iteration of the loop leaves the photos of every other component, of either type, as they were |
| StoreProperties.ValidPhotosBelowNext | database/migrations/2025_08_10_084308_create_inspections_table.php:14-30 | under the invariants, every component photo and the component it points at have ids below the counter |
| StoreProperties.CreateComponentPhotosBelowNext | app/Http/Controllers/InspectionController.php:95-119 | one iteration keeps every component photo and its component below the counter |
| StoreProperties.CreateComponentsPhotos | app/Http/Controllers/InspectionController.php:93-122 | after the loop, the k-th new component has one photo of each type per uploaded file of the k-th entry |
| StoreProperties.ComponentImagesAreFiles | app/Http/Controllers/InspectionController.php:67-70 | the `image` rules on `components.*.photos_component.*` and `components.*.photos_check.*` let only files through |
| StoreProperties.FreshComponentPhotos | app/Http/Controllers/InspectionController.php:92-122 | on an inspection without components, the loop gives exactly one component per entry, in order, each with one photo of each type per element of its arrays |
| StoreProperties.StoreComponentPhotos | app/Http/Controllers/InspectionController.php:47-125 | after a successful `store`, the new inspection's components are one per submitted component, in order, and the k-th has one "component" photo per element of the k-th entry's `photos_component` and one "check" photo per element of its `photos_check` |
| StoreProperties.StoreInspectionRow | app/Http/Controllers/InspectionController.php:73-82 | creating the inspection adds exactly one row, at the next id, with the user and fields, and keeps the others |
| AssetActions.AssetRule | app/Http/Controllers/AssetController.php:31-39 | the rules of `store`: an existing customer, name and location required and short, a short code when given, image files only |
| AssetActions.AssetUpdateRule | app/Http/Controllers/AssetController.php:63-73 | the same plus `_delete_photos.*` existing among all asset photos |
| AssetActions.Fillable | app/Models/Asset.php:14-20 | the asset row takes the fillable fields: name, location and customer as sent; code and note as sent (null or a value) when the key was sent, and the given current value when it was not |
| AssetActions.Created | app/Http/Controllers/AssetController.php:41 | `Asset::create($validated)`: a code or note that was not sent is null |
| AssetActions.Revised | app/Http/Controllers/AssetController.php:75 | `$asset->update($validated)`: a code or note that was not sent keeps its current value |
| AssetActions.InsertAsset | app/Http/Controllers/AssetController.php:41 | one new asset row at the next id |
| AssetActions.AddAssetPhotos | app/Http/Controllers/AssetController.php:43-48 | one asset photo row per uploaded file, at consecutive new ids, each with its file on the disk; older rows unchanged |
| AssetActions.DeleteAssetPhotos | app/Http/Controllers/AssetController.php:84-92 | the delete loop changes only asset photos and files |
| AssetActions.StoreAsset | app/Http/Controllers/AssetController.php:29-51 | nothing is written on a failed rule; otherwise the asset at the next id is `Created` from the request |
| AssetActions.ReviseAsset | app/Http/Controllers/AssetController.php:75-92 | the asset row becomes `Revised`: the sent fillable fields over the current row, an unsent code or note kept |
| AssetActions.UpdateAssetOutcome | app/Http/Controllers/AssetController.php:61-73 | not found, else invalid when a rule fails, else saved |
| AssetActions.UpdateAsset | app/Http/Controllers/AssetController.php:61-95 | nothing is written unless the asset exists and the request passes the rules; then the database is `ReviseAsset` |
| AssetActions.DestroyAsset | app/Http/Controllers/AssetController.php:97-106 | the asset is gone; exactly its photos are gone and their files are off the disk |
| AssetActions.RemoveNoAssetPhotos | app/Http/Controllers/AssetController.php:84-92 | deleting no photos changes nothing |
| AssetActions.AssetPhotosAfterRemoval | app/Http/Controllers/AssetController.php:86-90 | after deleting a set, an asset's photos are the old ones minus the set |
| AssetActions.DeleteAssetPhotosIsRemoval | app/Http/Controllers/AssetController.php:84-92 | the delete loop removes exactly the listed ids that are this asset's photos, with their files |
| AssetActions.DeleteAssetPhotosUnmatched | app/Http/Controllers/AssetController.php:86-87 | a list that names none of this asset's photos changes nothing |
| AssetActions.DeleteAssetPhotosIdempotent | app/Http/Controllers/AssetController.php:84-92 | running the delete loop twice is running it once |
| AssetActions.ReviseAssetKeepsOtherAssets | app/Http/Controllers/AssetController.php:75-92 | updating an asset keeps every other asset's photos |
| AssetActions.ReviseAssetKeepsOldPhotos | app/Http/Controllers/AssetController.php:75-92 | the old photos that survive an update are exactly those not listed in `_delete_photos`, with unchanged rows |
| AssetActions.ReviseAssetAddsPhotos | app/Http/Controllers/AssetController.php:77-92 | an update ends with one new photo per uploaded file |
| AssetActions.StoreAssetPhotos | app/Http/Controllers/AssetController.php:41-48 | a stored asset has exactly one photo per uploaded file, which is one per element of `photos` |
| AssetActions.DestroyAssetKeepsOthers | app/Http/Controllers/AssetController.php:97-106 | destroying an asset leaves other assets, the remaining photos and all other tables unchanged |
| AssetActions.AddAssetPhotosValid | app/Http/Controllers/AssetController.php:43-48 | photo uploads to an existing asset keep the invariant |
| AssetActions.SameAssetPhotosValid | app/Http/Controllers/AssetController.php:75 | changing asset rows only keeps the invariant while every photo's asset exists |
| AssetActions.InsertAssetValid | app/Http/Controllers/AssetController.php:41 | inserting an asset keeps the invariant |
| AssetActions.StoreAssetValid | app/Http/Controllers/AssetController.php:29-51 | `store` keeps the invariant |
| AssetActions.UpdateAssetValid | app/Http/Controllers/AssetController.php:61-95 | `update` keeps the invariant |
| AssetActions.DestroyAssetValid | app/Http/Controllers/AssetController.php:97-106 | `destroy` keeps the invariant: the photos go before the asset, so none is left without its asset |
| AssetController.StorePhoto | app/Http/Controllers/AssetController.php:45-46 | storing one photo leaves the database equal to `AddAssetPhoto` |
| AssetController.UploadPhotos | app/Http/Controllers/AssetController.php:43-48 | the upload loop leaves the database equal to `AddAssetPhotos` |
| AssetController.RemovePhoto | app/Http/Controllers/AssetController.php:88-89 | file then row: the database equals `RemoveAssetPhotos` of that id |
| AssetController.DeletePhotosLoop | app/Http/Controllers/AssetController.php:84-92 | the delete loop leaves the database equal to `DeleteAssetPhotos` |
| AssetController.Store | app/Http/Controllers/AssetController.php:29-51 | an asset is created, at the next id, iff the request passes the rules; the database equals `StoreAsset` and keeps `ValidTables` |
| AssetController.Update | app/Http/Controllers/AssetController.php:61-95 | the outcome is as `UpdateAssetOutcome` decides; the database equals `UpdateAsset` and keeps `ValidTables` |
| AssetController.Destroy | app/Http/Controllers/AssetController.php:97-106 | for an existing asset the database equals `DestroyAsset`; for a missing one nothing changes; `ValidTables` is kept |
| CustomerActions.NextPhotoPath | app/Http/Controllers/CustomerController.php:36 | the stored photo's path is in the customer photo directory and is not a file already on the disk |
| CustomerActions.SavePhoto | app/Http/Controllers/CustomerController.php:35-37 | an uploaded file adds exactly that path to the disk; no file changes nothing |
| CustomerActions.PhotoPath | app/Http/Controllers/CustomerController.php:60-67 | the saved path when a file was uploaded, otherwise the current one |
| CustomerActions.SavePhotoValid | app/Http/Controllers/CustomerController.php:34-37 | saving an uploaded photo keeps the invariant, and no row refers to the new path |
| CustomerActions.PutCustomerValid | app/Http/Controllers/CustomerController.php:39 | writing a customer row whose photo is on the disk and is no other row's photo keeps the invariant |
| CustomerActions.CustomerRule | app/Http/Controllers/CustomerController.php:26-31 | name and location required and short, no photo or an image file of at most 2048 KB |
| CustomerActions.RowOf | app/Http/Controllers/CustomerController.php:39 | the customer row written: name and location as sent, the issue note merged as `Merged` says, and the photo path |
| CustomerActions.PutCustomer | app/Http/Controllers/CustomerController.php:69 | the customer at that id holds the row; nothing else changes |
| CustomerActions.InsertCustomer | app/Http/Controllers/CustomerController.php:39 | one new customer row at the next id |
| CustomerActions.UpdateCustomerOutcome | app/Http/Controllers/CustomerController.php:51-58 | not found, else invalid when a rule fails, else saved |
| CustomerActions.StoreCustomer | app/Http/Controllers/CustomerController.php:23-42 | nothing is written on a failed rule |
| CustomerActions.UpdateCustomer | app/Http/Controllers/CustomerController.php:51-72 | nothing is written unless the customer exists and the request passes the rules |
| CustomerActions.DestroyCustomer | app/Http/Controllers/CustomerController.php:74-82 | only the customer row goes; every other row and table is unchanged |
| CustomerActions.StoreCustomerRow | app/Http/Controllers/CustomerController.php:34-39 | the new customer at the next id holds the submitted name and location, the issue note as `Column` of the key (null when not sent), and a new photo path on the disk iff a file was uploaded |
| CustomerActions.UpdateCustomerFields | app/Http/Controllers/CustomerController.php:53-69 | an update sets name and location as sent; an issue note that was not sent is kept, a sent one is written as null or its value; other customers are unchanged |
| CustomerActions.UpdateCustomerKeepsPhoto | app/Http/Controllers/CustomerController.php:60-69 | an update without a file keeps the photo path and the disk |
| CustomerActions.UpdateCustomerReplacesPhoto | app/Http/Controllers/CustomerController.php:60-69 | an update with a file points the customer at a new file; the old file stays on the disk with no row referring to it |
| CustomerActions.DestroyCustomerKeepsFile | app/Http/Controllers/CustomerController.php:74-79 | destroying a customer leaves its photo file on the disk |
| CustomerActions.StoreCustomerValid | app/Http/Controllers/CustomerController.php:23-42 | `store` keeps the invariant |
| CustomerActions.UpdateCustomerValid | app/Http/Controllers/CustomerController.php:51-72 | `update` keeps the invariant |
| CustomerActions.DestroyCustomerValid | app/Http/Controllers/CustomerController.php:74-82 | `destroy` keeps the invariant |
| CustomerController.SaveUpload | app/Http/Controllers/CustomerController.php:34-37 | the method returns `PhotoPath` and leaves the database equal to `SavePhoto` |
| CustomerController.Store | app/Http/Controllers/CustomerController.php:23-42 | a customer is created iff the request passes the rules; the database equals `StoreCustomer` and keeps `ValidTables` |
| CustomerController.Update | app/Http/Controllers/CustomerController.php:51-72 | the outcome is as `UpdateCustomerOutcome` decides; the database equals `UpdateCustomer` and keeps `ValidTables` |
| CustomerController.Destroy | app/Http/Controllers/CustomerController.php:74-82 | for an existing customer the database equals `DestroyCustomer`; for a missing one nothing changes; `ValidTables` is kept |
| IdSets.Elements | app/Http/Controllers/InspectionController.php:302 | the set of the ids a request lists |
| IdSets.IdRange | app/Http/Controllers/InspectionController.php:226-229 | the ids a run of creations hands out: exactly those from the old counter up to the new one |
| IdSets.IdRangeSize | app/Http/Controllers/InspectionController.php:226-229 | a run of creations hands out as many ids as it creates rows |
| FormCommon.Find | resources/js/pages/Inspections/Edit.tsx:93 | `find`: the first element that matches, or none when none matches |
| FormCommon.RemoveAt | resources/js/pages/Inspections/Edit.tsx:204 | the filter by index drops exactly the element at the index and keeps the order; an index past the end keeps everything |
| FormCommon.CustomerWithId | resources/js/pages/Inspections/Edit.tsx:93 | a customer with that id from the list, or none iff no customer has it |
| FormCommon.AssetWithId | resources/js/pages/Inspections/Edit.tsx:108 | an asset with that id from the list shown, or none iff no asset shown has it |
| FormCommon.FilterAssets | resources/js/pages/Inspections/Edit.tsx:96 | the assets shown are exactly the assets of the chosen customer |
| FormCommon.DefaultLocation | resources/js/pages/Inspections/Edit.tsx:106-117 | the asset's non-empty location, else the customer's location, else empty |
| FormCommon.DefaultLocationSources | resources/js/pages/Inspections/Edit.tsx:106-117 | the location written is the asset's, the customer's or empty, and it is empty iff neither has a non-empty one |
| FormCommon.LocationPicker.constructor | resources/js/pages/Inspections/Edit.tsx:80-81 | the picker starts with the form's values, no customer location and no assets shown |
| FormCommon.LocationPicker.CustomerEffect | resources/js/pages/Inspections/Edit.tsx:91-103 | a known customer sets the customer location and the assets shown; an unknown one changes nothing; a cleared one clears both and `asset_id` |
| FormCommon.LocationPicker.LocationEffect | resources/js/pages/Inspections/Edit.tsx:106-117 | the location becomes `DefaultLocation` of the selected asset and the customer location; nothing else changes |
| FormCommon.LocationPicker.ChooseCustomer | resources/js/pages/Inspections/Edit.tsx:91-117 | choosing a customer, then both effects: clearing it clears the asset, the assets shown and the location; a known one shows its assets and sets the default location |
| FormCommon.LocationPicker.ChooseAsset | resources/js/pages/Inspections/Edit.tsx:106-117 | choosing an asset sets it and the default location, and nothing else |
| FormCommon.SelectedAsset | resources/js/pages/Inspections/Edit.tsx:107-108 | the asset with the chosen id among those shown, or none iff `asset_id` is empty or names none of them |
| FormCommon.ShownAssetBelongsToCustomer | resources/js/pages/Inspections/Edit.tsx:96-110 | a selected asset among those shown belongs to the chosen customer |
| FormCommon.SwitchingCustomerKeepsAsset | resources/js/pages/Inspections/Edit.tsx:91-117 | after switching to another customer, an asset of the previous one is no longer among the assets shown, though `asset_id` still holds it, and the location falls back to the customer's |
| FormCommon.TakeSelection | resources/js/pages/Inspections/Create.tsx:147 | a prefix of the selection, of at most 9 files, the whole selection when it has at most 9 |
| FormCommon.Kept | resources/js/pages/Inspections/Create.tsx:153-166 | at most one preview per file |
| FormCommon.KeptFromFiles | resources/js/pages/Inspections/Create.tsx:153-166 | each kept preview is the compression of one of the files |
| FormCommon.KeptAll | resources/js/pages/Inspections/Create.tsx:153-166 | when no file fails to compress, there is one preview per file |
| FormCommon.CompressAll | resources/js/pages/Inspections/Create.tsx:153-166 | the compression loop returns exactly `Kept` of its files |
| FormCommon.CollectSelection | resources/js/pages/Inspections/Create.tsx:146-167 | one file-change handler yields at most 9 previews, each from a file of the selection |
| FormCommon.FilesOf | resources/js/pages/Inspections/Create.tsx:60-62 | the files of the previews, one per preview, in order |
| EditForm.WithText | resources/js/pages/Inspections/Edit.tsx:285 | exactly the named text field takes the value; the others are unchanged |
| EditForm.WithoutPhoto | resources/js/pages/Inspections/Edit.tsx:220 | a saved photo is kept iff its id is not the one removed; a list without that id is unchanged |
| EditForm.EditInitial | resources/js/pages/Inspections/Edit.tsx:53-78 | one entry per component of the inspection with its id, text and saved photos (none when absent); nulls become `''`; no new photos and empty delete lists |
| EditForm.InitialAsset | resources/js/pages/Inspections/Edit.tsx:54 | a missing asset id becomes `''`, a present one its text |
| EditForm.AddComponent | resources/js/pages/Inspections/Edit.tsx:242-262 | one blank entry without an id is appended; nothing else changes |
| EditForm.AddThenRemove | resources/js/pages/Inspections/Edit.tsx:242-278 | adding a component and removing it again gives back the form, with no id marked for deletion |
| EditForm.Truthy | resources/js/pages/Inspections/Edit.tsx:268 | the JavaScript truth of an optional id: absent and `0` are false |
| EditForm.RemoveComponent | resources/js/pages/Inspections/Edit.tsx:265-278 | only the entry at the index goes; its id joins `_delete_components` iff it is truthy |
| EditForm.ChangeAt | resources/js/pages/Inspections/Edit.tsx:284-286 | the entry at the index is replaced and all others are kept |
| EditForm.ComponentChange | resources/js/pages/Inspections/Edit.tsx:281-288 | exactly one text field of exactly one entry changes |
| EditForm.AddComponentImages | resources/js/pages/Inspections/Edit.tsx:310-317 | the compressed files are appended to that bucket of that entry; nothing else changes |
| EditForm.AddNoImages | resources/js/pages/Inspections/Edit.tsx:310-317 | appending no files changes nothing |
| EditForm.RemoveComponentImage | resources/js/pages/Inspections/Edit.tsx:322-334 | only the new photo at the image index of that bucket of that entry goes |
| EditForm.RemoveExistingImage | resources/js/pages/Inspections/Edit.tsx:209-233 | for the inspection, the id joins `_delete_photos_before`; for an entry, the photo leaves both saved lists and the id joins both delete lists |
| EditForm.DeletesByKey | resources/js/pages/Inspections/Edit.tsx:345 | an entry has a delete list under exactly the two keys `_delete_photos_component` and `_delete_photos_check` |
| EditForm.RemoveExistingComponentImageAsWritten | resources/js/pages/Inspections/Edit.tsx:337-350 | the handler as written: the key it builds names no delete list of an entry, so it throws (an error result) whenever the entry exists |
| EditForm.RemoveExistingComponentImageAsWrittenThrows | resources/js/pages/Inspections/Edit.tsx:337-350 | as written, the handler fails for every entry the page renders |
| EditForm.RemoveExistingComponentImage | resources/js/pages/Inspections/Edit.tsx:337-350 | the handler as intended: the photo leaves the chosen saved list and its id joins the matching delete list; the other bucket and other entries are unchanged |
| EditForm.EditPage.constructor | resources/js/pages/Inspections/Edit.tsx:53-82 | the first render: the picker on the inspection's customer, asset and location, the initial form, no previews |
| EditForm.EditPage.SelectBeforePhotos | resources/js/pages/Inspections/Edit.tsx:177-198 | the compressed first 9 files are appended to the before-photo previews; the form is unchanged |
| EditForm.EditPage.RemoveNewBeforePhoto | resources/js/pages/Inspections/Edit.tsx:201-206 | the preview at the index goes, the others keep their order |
| EditForm.EditPage.SyncBeforePhotos | resources/js/pages/Inspections/Edit.tsx:86-88 | `photos_before` becomes the files of the previews |
| EditForm.EditPage.SelectComponentPhotos | resources/js/pages/Inspections/Edit.tsx:291-319 | the compressed first 9 files go to that bucket of that entry |
| EditForm.EditPage.Mount | resources/js/pages/Inspections/Edit.tsx:85-117 | the effects after the first render: `photos_before` is the previews' files, the customer effect's state is set, and the location is overwritten with `DefaultLocation` of the asset shown and the customer location, so the inspection's saved location does not survive loading the page |
| EditForm.PhotoIds | resources/js/pages/Inspections/Edit.tsx:70-71 | every saved photo's id is among the ids the page was given |
| EditForm.InitialKnown | resources/js/pages/Inspections/Edit.tsx:53-78 | every id in the initial form is one the page was given |
| EditForm.RemoveComponentKnown | resources/js/pages/Inspections/Edit.tsx:265-278 | removing a component adds only a given id to `_delete_components` |
| EditForm.RemoveExistingKnown | resources/js/pages/Inspections/Edit.tsx:209-233 | removing a shown saved photo adds only a given id to the delete lists |
| EditForm.RemoveExistingComponentKnown | resources/js/pages/Inspections/Edit.tsx:337-350 | the same for the corrected component handler |
| EditForm.Step | resources/js/pages/Inspections/Edit.tsx:242-350 | the form after one event of the page: the updater that event's handler passes to `setData`, except that a removal of a saved component photo applies the corrected `RemoveExistingComponentImage`; the handler as written throws and so changes nothing (`RemoveExistingComponentImageAsWrittenThrows`) |
| EditForm.Run | resources/js/pages/Inspections/Edit.tsx:242-350 | the form after a sequence of events, one `Step` after another |
| EditForm.StepKnown | resources/js/pages/Inspections/Edit.tsx:242-350 | no event of the page brings in an id the page was not given |
| EditForm.RunKnown | resources/js/pages/Inspections/Edit.tsx:242-350 | no sequence of events brings in an id the page was not given |
| EditForm.EditSessionIdsAccepted | app/Http/Controllers/InspectionController.php:191-209 | whatever the user does on a page opened on rows of the database, the ids the submitted form carries pass the `exists` rules of `update` |
| EditForm.Carries | app/Http/Controllers/InspectionController.php:191-209 | the request the form becomes carries its component ids and its delete lists unchanged |
| EditForm.KnownIdsAccepted | app/Http/Controllers/InspectionController.php:191-209 | a request that carries a form whose ids are all ids the page was given, given from the database, passes the `exists` rules of `update` |
| EditForm.UpdateRuleNeedsIds | app/Http/Controllers/InspectionController.php:191-209 | a request that passes `update`'s rules passes its `exists` rules on ids |
| CreateForm.CreateInitial | resources/js/pages/Inspections/Create.tsx:31-49 | condition "baik", every other text field empty, no components and no photos |
| CreateForm.WithText | resources/js/pages/Inspections/Create.tsx:215 | exactly the named text field takes the value; the others are unchanged |
| CreateForm.AddComponent | resources/js/pages/Inspections/Create.tsx:187-202 | one blank entry is appended; nothing else changes |
| CreateForm.RemoveComponent | resources/js/pages/Inspections/Create.tsx:204-209 | only the entry at the index goes, with no deletion bookkeeping; an index past the end changes nothing |
| CreateForm.ChangeAt | resources/js/pages/Inspections/Create.tsx:214-216 | the entry at the index is replaced and all others are kept |
| CreateForm.ComponentChange | resources/js/pages/Inspections/Create.tsx:211-218 | exactly one text field of exactly one entry changes |
| CreateForm.AddComponentImages | resources/js/pages/Inspections/Create.tsx:244-249 | the compressed files are appended to that bucket of that entry |
| CreateForm.AddNoImages | resources/js/pages/Inspections/Create.tsx:244-249 | appending no files changes nothing |
| CreateForm.RemoveComponentImage | resources/js/pages/Inspections/Create.tsx:253-265 | only the photo at the image index of that bucket of that entry goes |
| CreateForm.AddThenRemove | resources/js/pages/Inspections/Create.tsx:187-209 | adding a component and removing it again gives back the form |
| CreateForm.CreatePage.constructor | resources/js/pages/Inspections/Create.tsx:31-58 | the first render: nothing chosen, the initial form, no previews |
| CreateForm.CreatePage.SelectBeforePhotos | resources/js/pages/Inspections/Create.tsx:146-171 | the compressed first 9 files are appended to the before-photo previews |
| CreateForm.CreatePage.RemoveBeforePhoto | resources/js/pages/Inspections/Create.tsx:173-179 | the preview at the index goes, the others keep their order |
| CreateForm.CreatePage.SyncBeforePhotos | resources/js/pages/Inspections/Create.tsx:60-62 | `photos_before` becomes the files of the previews |
| CreateForm.CreatePage.SelectComponentPhotos | resources/js/pages/Inspections/Create.tsx:220-251 | the compressed first 9 files go to that bucket of that entry |

## Left out

- **Not modelled:**
  - Image compression (`compressImageFile`, canvas and JPEG encoding) is a parameter `compress`. `formatBytes`, `setNotice`, `URL.createObjectURL` and `URL.revokeObjectURL` are not modelled. They only touch the display.
  - JSX rendering is not modelled. So are the submit handlers' `post`/`put` calls and the request serialisation of the form (`forceFormData`). A submitted edit form is related to the request by `EditForm.Carries`, which covers the ids and delete lists it sends.
  - Storage URLs, redirects and flash messages are not modelled. They are output only.
  - The Laravel validation engine is reduced to the rules the actions check: `exists`, `required`, `max:255`, and `image|max:2048` on uploads. In an upload array every element must be a file that is an image of at most 2048 KB (`Validation.ImageRule`); only the single customer `photo`, being `nullable`, may be absent (`Validation.OptionalImageRule`). String trimming and empty-string-to-null conversion are not modelled.
  - Transactions and concurrency are not modelled. The source has none. Each action runs alone on one database.
  - Database cascades are not modelled. The controllers' own deletes are modelled as written: `CustomerController.destroy` removes only the customer row, and `AssetController.destroy` removes the asset's photos and then the asset. The inspections migration (`database/migrations/2025_08_10_084308_create_inspections_table.php:16-18`) declares `cascadeOnDelete` on `user_id`, `customer_id` and `asset_id`, so the database also deletes every inspection of a deleted customer and every inspection of a deleted asset; the model keeps those inspections, with their components and photos. The migrations of the other tables are not part of this model, so any further cascade (assets of a customer, components and photos of an inspection) is not modelled either.
- **Simplifications:**
  - Ids come from one counter shared by all tables, not one auto-increment per table. No property depends on the difference.
  - A file name is `StoredPath(dir, serial)` with a counter rather than Laravel's random hash name. The model relies only on its being new.
  - In an upload array, a request item that is not an uploaded file (`NotAFile`) stands for anything `instanceof UploadedFile` rejects. For the single customer `photo`, `NotAFile` means null: no file chosen, which is what Customers/Create and Customers/Edit send without a file. A non-null value that is not a file, which fails `nullable|image` (CustomerController.php lines 30 and 57), is not modelled. The rule rejects such items in every upload array, so the `instanceof` checks of the component loops never skip anything in a request that passes; the model keeps them as written. The `photos_before` loops and the asset `photos` loops have no such check, which comes to the same under the rule.
  - An uncaught error of the inspection controller (a nullable key that was not sent, read out of `$validated`) is `Outcome.Failed`: a server error with nothing written, since the read comes before the first write.
  - `EditForm.Truthy` treats a component id of `0` as false, as JavaScript does. Real ids start at 1.
  - `EditForm.Step` treats a remove-component event past the end as no event. The page renders the button only on an existing entry; the source itself would read `undefined.id` and throw.
  - `EditForm.RemoveExistingImage` ignores its `deleteKey` argument, as the source does: the handler filters both saved lists and appends to both delete lists.
  - The `field` argument of `handleComponentChange` is the four text fields of an entry (`TextField`). The source accepts any string key.
- **Key mismatches between the pages and the server:** the model keeps each side as written and does not bridge the names.
  - Create.tsx (line 247) and Edit.tsx (line 314) put the compressed previews themselves (`CompressedFile` objects) into a component's `photos_component` and `photos_check`, while `photos_before` gets their `.file` (Create.tsx line 61, Edit.tsx line 87). A preview object is not an uploaded file, so `components.*.photos_component.*`'s `image` rule rejects it: a form that carries component photos from either page fails validation. The page model keeps the previews (`Compressed`) in those lists.
  - Edit.tsx sends `_method: 'put'`, and `routes/web.php` registers the update route for PATCH.
  - The edit action loads the inspection's photos as `photos`. Edit.tsx reads `photos_before`.
  - Edit.tsx reads `comp.photos_component` and `comp.photos_check`. The edit action loads `components.photos`, so the saved component photos start empty on the page (`EditForm.EditInitial` maps a missing list to `[]`).
  - `create` and `edit` send the customers as `Customer::all(['id', 'name'])`, without `location`, so the customer location is absent (`None`) on both pages and the location effect falls back to the asset's location or `''`.
- **Edit page location:** `EditForm.EditPage.Mount` shows that the mount effects overwrite the location the form was given with the asset's location or the customer's, and with `''` when neither has one (with the customers sent without `location`, the asset's or `''`). An empty location then fails `update`'s `required` rule unless the user types it again. The model keeps this as written; it is not listed as a finding because the source gives no other sign of what was intended.
- **FormCommon.LocationPicker.CustomerEffect:** choosing another known customer does not clear `asset_id`, as the source writes it. `FormCommon.SwitchingCustomerKeepsAsset` states the outcome.
- **Other controller actions:** `index`, `show`, `create` and `edit` only read. InspectionController has no `destroy` action, and `routes/web.php` registers none. The report controller and the dummy-data command are not part of this model.

## Findings

| source | as written | input that shows it | evidently intended | confidence | as-written member | corrected member |
|---|---|---|---|---|---|---|
| resources/js/pages/Inspections/Edit.tsx:337-350 | `handleRemoveExistingComponentImage` builds the delete-list key as `` `_delete_${photoType}` `` with `photoType` being `existing_photos_component` or `existing_photos_check`. The key is then `_delete_existing_photos_component`, which no entry has, so spreading `comp[key]` throws a TypeError | any entry index the page renders, with either photo type and any photo id. The handler runs only from the saved-photo buttons at Edit.tsx:539-548 and :576-585, which map over the saved lists; since those lists always start empty (see "Key mismatches between the pages and the server" under Left out), no button reaches it in the shipped pages, so the defect is latent | filter the photo out of the chosen saved list and append its id to `_delete_photos_component` or `_delete_photos_check` | not executed | EditForm.RemoveExistingComponentImageAsWritten (lemma EditForm.RemoveExistingComponentImageAsWrittenThrows) | EditForm.RemoveExistingComponentImage |
