/**
 * The Eloquent models of the application (customers, assets, asset photos,
 * inspections, inspection photos, components, component photos), the public
 * photo disk, and the database object that the controllers change.
 *
 * Each table is a map from row id to row. The disk is the set of stored
 * paths. Ids come from one auto-increment counter `nextId`, and stored file
 * names from a counter `nextSerial`: `$file->store(dir)` returns a path that
 * is not on the disk yet, and that is all the controllers rely on.
 */
module Models {
  import opened Wrappers

  type Id = nat

  /** A path returned by `store(dir, 'public')`: the folder and a serial
      number standing for the random file name the framework picks. */
  datatype StoredPath = StoredPath(dir: string, serial: nat)

  const InspectionPhotoDir: string := "inspection_photos"
  const ComponentPhotoDir: string := "component_photos"
  const AssetPhotoDir: string := "asset_photos"
  const CustomerPhotoDir: string := "customer_photos"

  /** The `type` column values the controllers write. */
  const TypeBefore: string := "before"
  const TypeComponent: string := "component"
  const TypeCheck: string := "check"

  /** One element of a submitted file array: an uploaded file (is it an
      image, its size in kilobytes), or a value that is not a file. */
  datatype UploadItem = File(isImage: bool, kilobytes: nat) | NotAFile

  datatype CustomerRow = CustomerRow(
    name: string, location: string, issueNote: Option<string>, photoPath: Option<StoredPath>)

  /** All columns of an asset are in its fillable list (Asset.php). */
  datatype AssetRow = AssetRow(
    customerId: Id, name: string, code: Option<string>, location: string, note: Option<string>)

  datatype AssetPhotoRow = AssetPhotoRow(assetId: Id, path: StoredPath)

  /** The eight fillable columns of an inspection (Inspection.php). */
  datatype InspectionFields = InspectionFields(
    customerId: Id, assetId: Option<Id>, location: string, condition: string,
    estimateCost: Option<string>, finding: string, analysis: Option<string>,
    recommendation: Option<string>)

  /** `user_id` is not fillable: it is set once, through the user's relation. */
  datatype InspectionRow = InspectionRow(userId: Id, fields: InspectionFields)

  datatype ComponentFields = ComponentFields(
    name: string, functionDesc: string, condition: string, checkResults: string)

  datatype ComponentRow = ComponentRow(inspectionId: Id, fields: ComponentFields)

  datatype InspectionPhotoRow = InspectionPhotoRow(inspectionId: Id, path: StoredPath, tag: string)

  datatype ComponentPhotoRow = ComponentPhotoRow(componentId: Id, path: StoredPath, tag: string)

  /** The whole persisted state: every table and the photo disk. */
  datatype Tables = Tables(
    customers: map<Id, CustomerRow>,
    assets: map<Id, AssetRow>,
    assetPhotos: map<Id, AssetPhotoRow>,
    inspections: map<Id, InspectionRow>,
    components: map<Id, ComponentRow>,
    inspectionPhotos: map<Id, InspectionPhotoRow>,
    componentPhotos: map<Id, ComponentPhotoRow>,
    files: set<StoredPath>,
    nextId: nat,
    nextSerial: nat)

  function EmptyTables(): Tables {
    Tables(map[], map[], map[], map[], map[], map[], map[], {}, 0, 0)
  }

  // ---------------------------------------------------------------------
  // The type-filtered relations of Inspection.php and Component.php.

  /** `photosBefore()`: the inspection's photos whose type is "before". */
  function PhotosBefore(t: Tables, inspection: Id): (r: set<Id>)
    ensures forall p :: p in r <==>
      p in t.inspectionPhotos && t.inspectionPhotos[p].inspectionId == inspection
      && t.inspectionPhotos[p].tag == TypeBefore
  {
    set p | p in t.inspectionPhotos && t.inspectionPhotos[p].inspectionId == inspection
      && t.inspectionPhotos[p].tag == TypeBefore
  }

  /** `photos()` of a component: all its photos, whatever their type. */
  function PhotosOf(t: Tables, component: Id): (r: set<Id>)
    ensures forall p :: p in r <==>
      p in t.componentPhotos && t.componentPhotos[p].componentId == component
  {
    set p | p in t.componentPhotos && t.componentPhotos[p].componentId == component
  }

  /** `photosComponent()` and `photosCheck()`: the component's photos of one type. */
  function PhotosTagged(t: Tables, component: Id, tag: string): (r: set<Id>)
    ensures r <= PhotosOf(t, component)
    ensures forall p :: p in r <==>
      p in t.componentPhotos && t.componentPhotos[p].componentId == component
      && t.componentPhotos[p].tag == tag
  {
    set p | p in t.componentPhotos && t.componentPhotos[p].componentId == component
      && t.componentPhotos[p].tag == tag
  }

  /** The components of one inspection (`$inspection->components()`). */
  function ComponentsOf(t: Tables, inspection: Id): (r: set<Id>)
    ensures forall c :: c in r <==> c in t.components && t.components[c].inspectionId == inspection
  {
    set c | c in t.components && t.components[c].inspectionId == inspection
  }

  /** The photos of one asset (`$asset->photos()`). */
  function AssetPhotosOf(t: Tables, asset: Id): (r: set<Id>)
    ensures forall p :: p in r <==> p in t.assetPhotos && t.assetPhotos[p].assetId == asset
  {
    set p | p in t.assetPhotos && t.assetPhotos[p].assetId == asset
  }

  // ---------------------------------------------------------------------
  // Invariants of the persisted state.

  /** A row that refers to a stored file. */
  datatype PhotoRef =
    | InspectionPhotoRef(id: Id)
    | ComponentPhotoRef(id: Id)
    | AssetPhotoRef(id: Id)
    | CustomerPhotoRef(id: Id)

  ghost predicate Live(t: Tables, r: PhotoRef) {
    match r
    case InspectionPhotoRef(k) => k in t.inspectionPhotos
    case ComponentPhotoRef(k) => k in t.componentPhotos
    case AssetPhotoRef(k) => k in t.assetPhotos
    case CustomerPhotoRef(k) => k in t.customers && t.customers[k].photoPath.Some?
  }

  ghost function PathOf(t: Tables, r: PhotoRef): StoredPath
    requires Live(t, r)
  {
    match r
    case InspectionPhotoRef(k) => t.inspectionPhotos[k].path
    case ComponentPhotoRef(k) => t.componentPhotos[k].path
    case AssetPhotoRef(k) => t.assetPhotos[k].path
    case CustomerPhotoRef(k) => t.customers[k].photoPath.value
  }

  /** Every id in use is below the auto-increment counter. */
  ghost predicate KeysBelowNext(t: Tables) {
    && (forall k :: k in t.customers ==> k < t.nextId)
    && (forall k :: k in t.assets ==> k < t.nextId)
    && (forall k :: k in t.assetPhotos ==> k < t.nextId)
    && (forall k :: k in t.inspections ==> k < t.nextId)
    && (forall k :: k in t.components ==> k < t.nextId)
    && (forall k :: k in t.inspectionPhotos ==> k < t.nextId)
    && (forall k :: k in t.componentPhotos ==> k < t.nextId)
  }

  /** Every photo row and every component points to an existing parent. */
  ghost predicate OwnersExist(t: Tables) {
    && (forall k :: k in t.components ==> t.components[k].inspectionId in t.inspections)
    && (forall k :: k in t.inspectionPhotos ==> t.inspectionPhotos[k].inspectionId in t.inspections)
    && (forall k :: k in t.componentPhotos ==> t.componentPhotos[k].componentId in t.components)
    && (forall k :: k in t.assetPhotos ==> t.assetPhotos[k].assetId in t.assets)
  }

  /** Every file on the disk was named before the file-name counter. */
  ghost predicate SerialsBelowNext(t: Tables) {
    forall p :: p in t.files ==> p.serial < t.nextSerial
  }

  /** No row refers to a file that is not on the disk. */
  ghost predicate RowsHaveFiles(t: Tables) {
    forall r :: Live(t, r) ==> PathOf(t, r) in t.files
  }

  /** No two rows share a file, so deleting one row's file harms no other row. */
  ghost predicate PathsUnique(t: Tables) {
    forall r1, r2 :: Live(t, r1) && Live(t, r2) && PathOf(t, r1) == PathOf(t, r2) ==> r1 == r2
  }

  ghost predicate ValidTables(t: Tables) {
    && KeysBelowNext(t)
    && OwnersExist(t)
    && SerialsBelowNext(t)
    && RowsHaveFiles(t)
    && PathsUnique(t)
  }

  lemma EmptyTablesValid()
    ensures ValidTables(EmptyTables())
  {
  }

  // ---------------------------------------------------------------------
  // The elementary changes the controllers make, as functions on Tables.

  /** `store` a file in `dir`, then create a photo row of `inspection`. */
  function AddInspectionPhoto(t: Tables, inspection: Id, tag: string): (r: Tables)
    ensures r.inspectionPhotos.Keys == t.inspectionPhotos.Keys + {t.nextId}
    ensures r.inspectionPhotos[t.nextId] == InspectionPhotoRow(inspection, StoredPath(InspectionPhotoDir, t.nextSerial), tag)
  {
    var p := StoredPath(InspectionPhotoDir, t.nextSerial);
    t.(files := t.files + {p}, nextSerial := t.nextSerial + 1,
       inspectionPhotos := t.inspectionPhotos[t.nextId := InspectionPhotoRow(inspection, p, tag)],
       nextId := t.nextId + 1)
  }

  function AddComponentPhoto(t: Tables, component: Id, tag: string): (r: Tables)
    ensures r.componentPhotos.Keys == t.componentPhotos.Keys + {t.nextId}
    ensures r.componentPhotos[t.nextId] == ComponentPhotoRow(component, StoredPath(ComponentPhotoDir, t.nextSerial), tag)
  {
    var p := StoredPath(ComponentPhotoDir, t.nextSerial);
    t.(files := t.files + {p}, nextSerial := t.nextSerial + 1,
       componentPhotos := t.componentPhotos[t.nextId := ComponentPhotoRow(component, p, tag)],
       nextId := t.nextId + 1)
  }

  function AddAssetPhoto(t: Tables, asset: Id): (r: Tables)
    ensures r.assetPhotos.Keys == t.assetPhotos.Keys + {t.nextId}
    ensures r.assetPhotos[t.nextId] == AssetPhotoRow(asset, StoredPath(AssetPhotoDir, t.nextSerial))
  {
    var p := StoredPath(AssetPhotoDir, t.nextSerial);
    t.(files := t.files + {p}, nextSerial := t.nextSerial + 1,
       assetPhotos := t.assetPhotos[t.nextId := AssetPhotoRow(asset, p)],
       nextId := t.nextId + 1)
  }

  /** The files of the component photos with ids in `k`. */
  function ComponentPhotoPaths(t: Tables, k: set<Id>): set<StoredPath> {
    set p | p in k && p in t.componentPhotos :: t.componentPhotos[p].path
  }

  function InspectionPhotoPaths(t: Tables, k: set<Id>): set<StoredPath> {
    set p | p in k && p in t.inspectionPhotos :: t.inspectionPhotos[p].path
  }

  function AssetPhotoPaths(t: Tables, k: set<Id>): set<StoredPath> {
    set p | p in k && p in t.assetPhotos :: t.assetPhotos[p].path
  }

  /** Delete the file of every photo row in `k`, and the rows. */
  function RemoveComponentPhotos(t: Tables, k: set<Id>): (r: Tables)
    ensures r.componentPhotos.Keys == t.componentPhotos.Keys - k
    ensures forall p :: p in k && p in t.componentPhotos ==> t.componentPhotos[p].path !in r.files
  {
    t.(files := t.files - ComponentPhotoPaths(t, k), componentPhotos := t.componentPhotos - k)
  }

  function RemoveInspectionPhotos(t: Tables, k: set<Id>): (r: Tables)
    ensures r.inspectionPhotos.Keys == t.inspectionPhotos.Keys - k
    ensures forall p :: p in k && p in t.inspectionPhotos ==> t.inspectionPhotos[p].path !in r.files
  {
    t.(files := t.files - InspectionPhotoPaths(t, k), inspectionPhotos := t.inspectionPhotos - k)
  }

  function RemoveAssetPhotos(t: Tables, k: set<Id>): (r: Tables)
    ensures r.assetPhotos.Keys == t.assetPhotos.Keys - k
    ensures forall p :: p in k && p in t.assetPhotos ==> t.assetPhotos[p].path !in r.files
  {
    t.(files := t.files - AssetPhotoPaths(t, k), assetPhotos := t.assetPhotos - k)
  }

  /** Deleting one photo is deleting its file and its row. */
  lemma RemoveOneComponentPhoto(t: Tables, p: Id)
    requires p in t.componentPhotos
    ensures RemoveComponentPhotos(t, {p}) ==
      t.(files := t.files - {t.componentPhotos[p].path}, componentPhotos := t.componentPhotos - {p})
  {
    assert ComponentPhotoPaths(t, {p}) == {t.componentPhotos[p].path};
  }

  lemma RemoveOneInspectionPhoto(t: Tables, p: Id)
    requires p in t.inspectionPhotos
    ensures RemoveInspectionPhotos(t, {p}) ==
      t.(files := t.files - {t.inspectionPhotos[p].path}, inspectionPhotos := t.inspectionPhotos - {p})
  {
    assert InspectionPhotoPaths(t, {p}) == {t.inspectionPhotos[p].path};
  }

  lemma RemoveOneAssetPhoto(t: Tables, p: Id)
    requires p in t.assetPhotos
    ensures RemoveAssetPhotos(t, {p}) ==
      t.(files := t.files - {t.assetPhotos[p].path}, assetPhotos := t.assetPhotos - {p})
  {
    assert AssetPhotoPaths(t, {p}) == {t.assetPhotos[p].path};
  }

  /** Deleting two groups of photos one after the other is deleting their union. */
  lemma {:induction false} RemoveComponentPhotosTwice(t: Tables, k1: set<Id>, k2: set<Id>)
    ensures RemoveComponentPhotos(RemoveComponentPhotos(t, k1), k2) == RemoveComponentPhotos(t, k1 + k2)
  {
    var t1 := RemoveComponentPhotos(t, k1);
    assert ComponentPhotoPaths(t1, k2) == ComponentPhotoPaths(t, k2 - k1);
    assert ComponentPhotoPaths(t, k1 + k2) == ComponentPhotoPaths(t, k1) + ComponentPhotoPaths(t, k2 - k1);
  }

  lemma {:induction false} RemoveInspectionPhotosTwice(t: Tables, k1: set<Id>, k2: set<Id>)
    ensures RemoveInspectionPhotos(RemoveInspectionPhotos(t, k1), k2) == RemoveInspectionPhotos(t, k1 + k2)
  {
    var t1 := RemoveInspectionPhotos(t, k1);
    assert InspectionPhotoPaths(t1, k2) == InspectionPhotoPaths(t, k2 - k1);
    assert InspectionPhotoPaths(t, k1 + k2) == InspectionPhotoPaths(t, k1) + InspectionPhotoPaths(t, k2 - k1);
  }

  lemma {:induction false} RemoveAssetPhotosTwice(t: Tables, k1: set<Id>, k2: set<Id>)
    ensures RemoveAssetPhotos(RemoveAssetPhotos(t, k1), k2) == RemoveAssetPhotos(t, k1 + k2)
  {
    var t1 := RemoveAssetPhotos(t, k1);
    assert AssetPhotoPaths(t1, k2) == AssetPhotoPaths(t, k2 - k1);
    assert AssetPhotoPaths(t, k1 + k2) == AssetPhotoPaths(t, k1) + AssetPhotoPaths(t, k2 - k1);
  }

  // ---------------------------------------------------------------------
  // The elementary changes keep the invariants.

  lemma AddInspectionPhotoValid(t: Tables, inspection: Id, tag: string)
    requires ValidTables(t) && inspection in t.inspections
    ensures ValidTables(AddInspectionPhoto(t, inspection, tag))
  {
    var r := AddInspectionPhoto(t, inspection, tag);
    var n := InspectionPhotoRef(t.nextId);
    forall x | Live(r, x) && x != n ensures Live(t, x) && PathOf(r, x) == PathOf(t, x) {
    }
    forall x | Live(r, x) ensures PathOf(r, x) in r.files {
      if x != n { assert PathOf(t, x) in t.files; }
    }
    assert PathsUnique(r);
  }

  lemma AddComponentPhotoValid(t: Tables, component: Id, tag: string)
    requires ValidTables(t) && component in t.components
    ensures ValidTables(AddComponentPhoto(t, component, tag))
  {
    var r := AddComponentPhoto(t, component, tag);
    var n := ComponentPhotoRef(t.nextId);
    forall x | Live(r, x) && x != n ensures Live(t, x) && PathOf(r, x) == PathOf(t, x) {
    }
    forall x | Live(r, x) ensures PathOf(r, x) in r.files {
      if x != n { assert PathOf(t, x) in t.files; }
    }
    assert PathsUnique(r);
  }

  lemma AddAssetPhotoValid(t: Tables, asset: Id)
    requires ValidTables(t) && asset in t.assets
    ensures ValidTables(AddAssetPhoto(t, asset))
  {
    var r := AddAssetPhoto(t, asset);
    var n := AssetPhotoRef(t.nextId);
    forall x | Live(r, x) && x != n ensures Live(t, x) && PathOf(r, x) == PathOf(t, x) {
    }
    forall x | Live(r, x) ensures PathOf(r, x) in r.files {
      if x != n { assert PathOf(t, x) in t.files; }
    }
    assert PathsUnique(r);
  }

  /** Deleting photo rows together with their files leaves every other
      row with its file, because no two rows share a file. */
  lemma RemoveComponentPhotosValid(t: Tables, k: set<Id>)
    requires ValidTables(t)
    ensures ValidTables(RemoveComponentPhotos(t, k))
  {
    var r := RemoveComponentPhotos(t, k);
    forall x | Live(r, x) ensures Live(t, x) && PathOf(r, x) == PathOf(t, x) {
    }
    forall x | Live(r, x) ensures PathOf(r, x) in r.files {
      assert PathOf(t, x) in t.files;
      forall p | p in k && p in t.componentPhotos ensures t.componentPhotos[p].path != PathOf(t, x) {
        assert PathOf(t, ComponentPhotoRef(p)) == t.componentPhotos[p].path;
      }
    }
  }

  lemma RemoveInspectionPhotosValid(t: Tables, k: set<Id>)
    requires ValidTables(t)
    ensures ValidTables(RemoveInspectionPhotos(t, k))
  {
    var r := RemoveInspectionPhotos(t, k);
    forall x | Live(r, x) ensures Live(t, x) && PathOf(r, x) == PathOf(t, x) {
    }
    forall x | Live(r, x) ensures PathOf(r, x) in r.files {
      assert PathOf(t, x) in t.files;
      forall p | p in k && p in t.inspectionPhotos ensures t.inspectionPhotos[p].path != PathOf(t, x) {
        assert PathOf(t, InspectionPhotoRef(p)) == t.inspectionPhotos[p].path;
      }
    }
  }

  lemma RemoveAssetPhotosValid(t: Tables, k: set<Id>)
    requires ValidTables(t)
    ensures ValidTables(RemoveAssetPhotos(t, k))
  {
    var r := RemoveAssetPhotos(t, k);
    forall x | Live(r, x) ensures Live(t, x) && PathOf(r, x) == PathOf(t, x) {
    }
    forall x | Live(r, x) ensures PathOf(r, x) in r.files {
      assert PathOf(t, x) in t.files;
      forall p | p in k && p in t.assetPhotos ensures t.assetPhotos[p].path != PathOf(t, x) {
        assert PathOf(t, AssetPhotoRef(p)) == t.assetPhotos[p].path;
      }
    }
  }

  // ---------------------------------------------------------------------
  // The database the controllers change in place.

  class Database {
    var customers: map<Id, CustomerRow>
    var assets: map<Id, AssetRow>
    var assetPhotos: map<Id, AssetPhotoRow>
    var inspections: map<Id, InspectionRow>
    var components: map<Id, ComponentRow>
    var inspectionPhotos: map<Id, InspectionPhotoRow>
    var componentPhotos: map<Id, ComponentPhotoRow>
    var files: set<StoredPath>
    var nextId: nat
    var nextSerial: nat

    function Snapshot(): Tables
      reads this
    {
      Tables(customers, assets, assetPhotos, inspections, components,
             inspectionPhotos, componentPhotos, files, nextId, nextSerial)
    }

    ghost predicate Valid()
      reads this
    {
      ValidTables(Snapshot())
    }

    constructor ()
      ensures Snapshot() == EmptyTables() && Valid()
    {
      customers, assets, assetPhotos := map[], map[], map[];
      inspections, components := map[], map[];
      inspectionPhotos, componentPhotos := map[], map[];
      files, nextId, nextSerial := {}, 0, 0;
    }

    /** `$file->store(dir, 'public')`: a new file with a name not used before. */
    method StoreFile(dir: string) returns (path: StoredPath)
      modifies this
      ensures path == StoredPath(dir, old(nextSerial))
      ensures Snapshot() == old(Snapshot()).(files := old(files) + {path}, nextSerial := old(nextSerial) + 1)
    {
      path := StoredPath(dir, nextSerial);
      files := files + {path};
      nextSerial := nextSerial + 1;
    }

    /** `Storage::disk('public')->delete($path)`. */
    method DeleteFile(path: StoredPath)
      modifies this
      ensures Snapshot() == old(Snapshot()).(files := old(files) - {path})
    {
      files := files - {path};
    }

    method CreateRow() returns (id: Id)
      modifies this
      ensures id == old(nextId)
      ensures Snapshot() == old(Snapshot()).(nextId := id + 1)
    {
      id := nextId;
      nextId := nextId + 1;
    }

    method CreateInspection(row: InspectionRow) returns (id: Id)
      modifies this
      ensures id == old(nextId)
      ensures Snapshot() == old(Snapshot()).(inspections := old(inspections)[id := row], nextId := id + 1)
    {
      id := CreateRow();
      inspections := inspections[id := row];
    }

    /** `$inspection->update([...])` with the eight fillable columns. */
    method UpdateInspection(id: Id, fields: InspectionFields)
      requires id in inspections
      modifies this
      ensures Snapshot() == old(Snapshot()).(inspections :=
        old(inspections)[id := InspectionRow(old(inspections)[id].userId, fields)])
    {
      inspections := inspections[id := InspectionRow(inspections[id].userId, fields)];
    }

    method CreateInspectionPhoto(inspection: Id, path: StoredPath, tag: string) returns (id: Id)
      modifies this
      ensures id == old(nextId)
      ensures Snapshot() == old(Snapshot()).(
        inspectionPhotos := old(inspectionPhotos)[id := InspectionPhotoRow(inspection, path, tag)],
        nextId := id + 1)
    {
      id := CreateRow();
      inspectionPhotos := inspectionPhotos[id := InspectionPhotoRow(inspection, path, tag)];
    }

    method DeleteInspectionPhoto(id: Id)
      modifies this
      ensures Snapshot() == old(Snapshot()).(inspectionPhotos := old(inspectionPhotos) - {id})
    {
      inspectionPhotos := inspectionPhotos - {id};
    }

    method CreateComponent(inspection: Id, fields: ComponentFields) returns (id: Id)
      modifies this
      ensures id == old(nextId)
      ensures Snapshot() == old(Snapshot()).(
        components := old(components)[id := ComponentRow(inspection, fields)], nextId := id + 1)
    {
      id := CreateRow();
      components := components[id := ComponentRow(inspection, fields)];
    }

    /** `$component->update([...])` with the four text columns. */
    method UpdateComponent(id: Id, fields: ComponentFields)
      requires id in components
      modifies this
      ensures Snapshot() == old(Snapshot()).(components :=
        old(components)[id := ComponentRow(old(components)[id].inspectionId, fields)])
    {
      components := components[id := ComponentRow(components[id].inspectionId, fields)];
    }

    method DeleteComponent(id: Id)
      modifies this
      ensures Snapshot() == old(Snapshot()).(components := old(components) - {id})
    {
      components := components - {id};
    }

    method CreateComponentPhoto(component: Id, path: StoredPath, tag: string) returns (id: Id)
      modifies this
      ensures id == old(nextId)
      ensures Snapshot() == old(Snapshot()).(
        componentPhotos := old(componentPhotos)[id := ComponentPhotoRow(component, path, tag)],
        nextId := id + 1)
    {
      id := CreateRow();
      componentPhotos := componentPhotos[id := ComponentPhotoRow(component, path, tag)];
    }

    method DeleteComponentPhoto(id: Id)
      modifies this
      ensures Snapshot() == old(Snapshot()).(componentPhotos := old(componentPhotos) - {id})
    {
      componentPhotos := componentPhotos - {id};
    }

    method CreateAsset(row: AssetRow) returns (id: Id)
      modifies this
      ensures id == old(nextId)
      ensures Snapshot() == old(Snapshot()).(assets := old(assets)[id := row], nextId := id + 1)
    {
      id := CreateRow();
      assets := assets[id := row];
    }

    method UpdateAsset(id: Id, row: AssetRow)
      modifies this
      ensures Snapshot() == old(Snapshot()).(assets := old(assets)[id := row])
    {
      assets := assets[id := row];
    }

    method DeleteAsset(id: Id)
      modifies this
      ensures Snapshot() == old(Snapshot()).(assets := old(assets) - {id})
    {
      assets := assets - {id};
    }

    method CreateAssetPhoto(asset: Id, path: StoredPath) returns (id: Id)
      modifies this
      ensures id == old(nextId)
      ensures Snapshot() == old(Snapshot()).(
        assetPhotos := old(assetPhotos)[id := AssetPhotoRow(asset, path)], nextId := id + 1)
    {
      id := CreateRow();
      assetPhotos := assetPhotos[id := AssetPhotoRow(asset, path)];
    }

    method DeleteAssetPhoto(id: Id)
      modifies this
      ensures Snapshot() == old(Snapshot()).(assetPhotos := old(assetPhotos) - {id})
    {
      assetPhotos := assetPhotos - {id};
    }

    method CreateCustomer(row: CustomerRow) returns (id: Id)
      modifies this
      ensures id == old(nextId)
      ensures Snapshot() == old(Snapshot()).(customers := old(customers)[id := row], nextId := id + 1)
    {
      id := CreateRow();
      customers := customers[id := row];
    }

    method UpdateCustomer(id: Id, row: CustomerRow)
      modifies this
      ensures Snapshot() == old(Snapshot()).(customers := old(customers)[id := row])
    {
      customers := customers[id := row];
    }

    method DeleteCustomer(id: Id)
      modifies this
      ensures Snapshot() == old(Snapshot()).(customers := old(customers) - {id})
    {
      customers := customers - {id};
    }
  }
}
