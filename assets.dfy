/**
 * What AssetController's `store`, `update` and `destroy` do to the
 * database, as functions on Tables, and what they promise: photos are
 * appended one per uploaded file, a listed photo id is deleted only when it
 * is one of this asset's photos, a deleted photo loses its file together
 * with its row, and `destroy` leaves no photo of the asset behind.
 */
module AssetActions {
  import opened Wrappers
  import opened Models
  import opened Validation
  import opened IdSets

  /** The form of Assets/Create and Assets/Edit. `deletePhotos` is only
      sent by the edit form. */
  datatype AssetRequest = AssetRequest(
    customerId: Id, name: string, code: Submitted<string>, location: string, note: Submitted<string>,
    photos: seq<UploadItem>, deletePhotos: seq<Id>)

  /** The rules of `store` (AssetController.php:31-39). */
  predicate AssetRule(t: Tables, req: AssetRequest) {
    && req.customerId in t.customers
    && RequiredShort(req.name)
    && OptionalShort(req.code)
    && RequiredShort(req.location)
    && ImagesRule(req.photos)
  }

  /** `update` adds `_delete_photos.*`: `exists:asset_photos,id`, looked up
      among all asset photos, not this asset's. */
  predicate AssetUpdateRule(t: Tables, req: AssetRequest) {
    AssetRule(t, req) && forall p :: p in req.deletePhotos ==> p in t.assetPhotos
  }

  /** `Asset::create($validated)` and `$asset->update($validated)` write only
      the fillable columns; `photos` and `_delete_photos` are not columns. A
      nullable key that was not sent leaves its column as it was: `code` and
      `note` for an update, null for a new row. */
  function Fillable(req: AssetRequest, code: Option<string>, note: Option<string>): (row: AssetRow)
    ensures row.customerId == req.customerId && row.name == req.name && row.location == req.location
    ensures req.code.Absent? ==> row.code == code
    ensures !req.code.Absent? ==> row.code == Column(req.code)
    ensures req.note.Absent? ==> row.note == note
    ensures !req.note.Absent? ==> row.note == Column(req.note)
  {
    AssetRow(req.customerId, req.name, Merged(req.code, code), req.location, Merged(req.note, note))
  }

  /** The row `store` creates. */
  function Created(req: AssetRequest): AssetRow {
    Fillable(req, None, None)
  }

  /** The row `update` leaves in place of `row`. */
  function Revised(row: AssetRow, req: AssetRequest): AssetRow {
    Fillable(req, row.code, row.note)
  }

  function AddAssetPhotoIf(t: Tables, asset: Id, u: UploadItem): Tables {
    if u.File? then AddAssetPhoto(t, asset) else t
  }

  /** The `photos` loop: one stored file and one photo row per file. */
  function AddAssetPhotos(t: Tables, asset: Id, us: seq<UploadItem>): (r: Tables)
    decreases |us|
    ensures r.(assetPhotos := t.assetPhotos, files := t.files,
               nextId := t.nextId, nextSerial := t.nextSerial) == t
    ensures r.nextId == t.nextId + CountFiles(us) && r.nextSerial == t.nextSerial + CountFiles(us)
    ensures t.files <= r.files
    ensures forall k :: k in r.assetPhotos <==> k in t.assetPhotos || t.nextId <= k < r.nextId
    ensures forall k :: k in t.assetPhotos && k < t.nextId ==> r.assetPhotos[k] == t.assetPhotos[k]
    ensures forall k :: t.nextId <= k < r.nextId ==>
      r.assetPhotos[k].assetId == asset && r.assetPhotos[k].path in r.files
  {
    if us == [] then t
    else AddAssetPhotoIf(AddAssetPhotos(t, asset, us[..|us| - 1]), asset, us[|us| - 1])
  }

  /** `$asset->photos()->find($x)`, then delete its file and its row. */
  function DeleteAssetPhoto(t: Tables, asset: Id, x: Id): Tables {
    if x in t.assetPhotos && t.assetPhotos[x].assetId == asset
    then RemoveAssetPhotos(t, {x})
    else t
  }

  /** The `_delete_photos` loop. */
  function DeleteAssetPhotos(t: Tables, asset: Id, xs: seq<Id>): (r: Tables)
    decreases |xs|
    ensures r.(assetPhotos := t.assetPhotos, files := t.files) == t
  {
    if xs == [] then t
    else DeleteAssetPhoto(DeleteAssetPhotos(t, asset, xs[..|xs| - 1]), asset, xs[|xs| - 1])
  }

  /** A new asset row at the next id. */
  function InsertAsset(t: Tables, row: AssetRow): Tables {
    t.(assets := t.assets[t.nextId := row], nextId := t.nextId + 1)
  }

  /** `store`: nothing is written when validation fails. */
  function StoreAsset(t: Tables, req: AssetRequest): (r: Tables)
    ensures !AssetRule(t, req) ==> r == t
    ensures AssetRule(t, req) ==> t.nextId in r.assets && r.assets[t.nextId] == Created(req)
  {
    if AssetRule(t, req) then AddAssetPhotos(InsertAsset(t, Created(req)), t.nextId, req.photos) else t
  }

  function UpdateAssetOutcome(t: Tables, asset: Id, req: AssetRequest): Outcome {
    if asset !in t.assets then NotFound
    else if !AssetUpdateRule(t, req) then Invalid
    else Saved
  }

  /** The body of `update` after validation: overwrite the row, append the
      new photos, then process the delete list. */
  function ReviseAsset(t: Tables, asset: Id, req: AssetRequest): (r: Tables)
    requires asset in t.assets
    ensures r.assets == t.assets[asset := Revised(t.assets[asset], req)]
  {
    var t1 := t.(assets := t.assets[asset := Revised(t.assets[asset], req)]);
    DeleteAssetPhotos(AddAssetPhotos(t1, asset, req.photos), asset, req.deletePhotos)
  }

  function UpdateAsset(t: Tables, asset: Id, req: AssetRequest): (r: Tables)
    ensures UpdateAssetOutcome(t, asset, req) != Saved ==> r == t
  {
    if UpdateAssetOutcome(t, asset, req) == Saved then ReviseAsset(t, asset, req) else t
  }

  /** Reference definition of `destroy`: all the asset's photos with their
      files, then the asset row. */
  function DestroyAsset(t: Tables, asset: Id): (r: Tables)
    ensures asset !in r.assets
    ensures forall a :: a in r.assets <==> a in t.assets && a != asset
    ensures forall p :: p in r.assetPhotos <==> p in t.assetPhotos && t.assetPhotos[p].assetId != asset
    ensures forall p :: p in AssetPhotosOf(t, asset) ==> t.assetPhotos[p].path !in r.files
  {
    RemoveAssetPhotos(t, AssetPhotosOf(t, asset)).(assets := t.assets - {asset})
  }

  // ---------------------------------------------------------------------
  // Properties.

  lemma RemoveNoAssetPhotos(t: Tables)
    ensures RemoveAssetPhotos(t, {}) == t
  {
    assert AssetPhotoPaths(t, {}) == {};
    assert t.assetPhotos - {} == t.assetPhotos;
  }

  lemma AssetPhotosAfterRemoval(t: Tables, k: set<Id>, a: Id)
    ensures AssetPhotosOf(RemoveAssetPhotos(t, k), a) == AssetPhotosOf(t, a) - k
  {
  }

  /** The `_delete_photos` loop deletes exactly the listed photos of this
      asset, with their files; an id of another asset's photo does nothing. */
  lemma {:induction false} DeleteAssetPhotosIsRemoval(t: Tables, a: Id, xs: seq<Id>)
    decreases |xs|
    ensures DeleteAssetPhotos(t, a, xs) == RemoveAssetPhotos(t, Elements(xs) * AssetPhotosOf(t, a))
  {
    var k := Elements(xs) * AssetPhotosOf(t, a);
    if xs == [] {
      assert k == {};
      RemoveNoAssetPhotos(t);
    } else {
      var ys, x := xs[..|xs| - 1], xs[|xs| - 1];
      assert xs == ys + [x];
      ElementsSnoc(ys, x);
      DeleteAssetPhotosIsRemoval(t, a, ys);
      var k1 := Elements(ys) * AssetPhotosOf(t, a);
      var t1 := RemoveAssetPhotos(t, k1);
      AssetPhotosAfterRemoval(t, k1, a);
      if x in AssetPhotosOf(t1, a) {
        RemoveAssetPhotosTwice(t, k1, {x});
        assert k == k1 + {x};
      } else {
        assert k == k1;
      }
    }
  }

  /** Ids that name none of this asset's photos change nothing. */
  lemma DeleteAssetPhotosUnmatched(t: Tables, a: Id, xs: seq<Id>)
    requires forall x :: x in xs ==> x !in AssetPhotosOf(t, a)
    ensures DeleteAssetPhotos(t, a, xs) == t
  {
    DeleteAssetPhotosIsRemoval(t, a, xs);
    assert Elements(xs) * AssetPhotosOf(t, a) == {};
    RemoveNoAssetPhotos(t);
  }

  /** Sending the same delete list twice deletes nothing more. */
  lemma DeleteAssetPhotosIdempotent(t: Tables, a: Id, xs: seq<Id>)
    ensures DeleteAssetPhotos(DeleteAssetPhotos(t, a, xs), a, xs) == DeleteAssetPhotos(t, a, xs)
  {
    var k := Elements(xs) * AssetPhotosOf(t, a);
    DeleteAssetPhotosIsRemoval(t, a, xs);
    AssetPhotosAfterRemoval(t, k, a);
    DeleteAssetPhotosUnmatched(RemoveAssetPhotos(t, k), a, xs);
  }

  /** `update` leaves the photos of every other asset as they were. */
  lemma ReviseAssetKeepsOtherAssets(t: Tables, a: Id, req: AssetRequest)
    requires a in t.assets
    requires forall p :: p in t.assetPhotos ==> p < t.nextId
    ensures var r := ReviseAsset(t, a, req);
      forall p :: p in t.assetPhotos && t.assetPhotos[p].assetId != a ==>
        p in r.assetPhotos && r.assetPhotos[p] == t.assetPhotos[p]
  {
    var t2 := AddAssetPhotos(t.(assets := t.assets[a := Revised(t.assets[a], req)]), a, req.photos);
    DeleteAssetPhotosIsRemoval(t2, a, req.deletePhotos);
  }

  /** The photos the asset had before `update` that are still there are
      exactly those not listed in `_delete_photos`, unchanged. */
  lemma ReviseAssetKeepsOldPhotos(t: Tables, a: Id, req: AssetRequest)
    requires a in t.assets
    requires forall p :: p in t.assetPhotos ==> p < t.nextId
    ensures var r := ReviseAsset(t, a, req);
      && Older(AssetPhotosOf(r, a), t.nextId) == AssetPhotosOf(t, a) - Elements(req.deletePhotos)
      && forall p :: p in Older(AssetPhotosOf(r, a), t.nextId) ==> r.assetPhotos[p] == t.assetPhotos[p]
  {
    var t2 := AddAssetPhotos(t.(assets := t.assets[a := Revised(t.assets[a], req)]), a, req.photos);
    DeleteAssetPhotosIsRemoval(t2, a, req.deletePhotos);
    AssetPhotosAfterRemoval(t2, Elements(req.deletePhotos) * AssetPhotosOf(t2, a), a);
  }

  /** `update` appends one photo per uploaded file; none of them is deleted
      again, since validation lets only existing ids through. */
  lemma ReviseAssetAddsPhotos(t: Tables, a: Id, req: AssetRequest)
    requires a in t.assets
    requires forall p :: p in t.assetPhotos ==> p < t.nextId
    requires forall p :: p in req.deletePhotos ==> p in t.assetPhotos
    ensures |Newer(AssetPhotosOf(ReviseAsset(t, a, req), a), t.nextId)| == CountFiles(req.photos)
  {
    var t2 := AddAssetPhotos(t.(assets := t.assets[a := Revised(t.assets[a], req)]), a, req.photos);
    var k := Elements(req.deletePhotos) * AssetPhotosOf(t2, a);
    DeleteAssetPhotosIsRemoval(t2, a, req.deletePhotos);
    AssetPhotosAfterRemoval(t2, k, a);
    assert Newer(AssetPhotosOf(t2, a) - k, t.nextId) == IdRange(t.nextId, t2.nextId);
    IdRangeSize(t.nextId, t2.nextId);
  }

  /** A valid `store` gives the new asset one photo per uploaded file. */
  lemma StoreAssetPhotos(t: Tables, req: AssetRequest)
    requires ValidTables(t) && AssetRule(t, req)
    ensures |AssetPhotosOf(StoreAsset(t, req), t.nextId)| == CountFiles(req.photos)
    ensures |AssetPhotosOf(StoreAsset(t, req), t.nextId)| == |req.photos|
  {
    ImagesAreFiles(req.photos);
    var t1 := InsertAsset(t, Created(req));
    var r := AddAssetPhotos(t1, t.nextId, req.photos);
    forall p | p in t.assetPhotos ensures t.assetPhotos[p].assetId != t.nextId {
      assert t.assetPhotos[p].assetId in t.assets;
    }
    assert AssetPhotosOf(r, t.nextId) == IdRange(t1.nextId, r.nextId);
    IdRangeSize(t1.nextId, r.nextId);
  }

  /** `destroy` leaves the other assets and their photos as they were. */
  lemma DestroyAssetKeepsOthers(t: Tables, a: Id)
    ensures var r := DestroyAsset(t, a);
      && (forall b :: b in t.assets && b != a ==> r.assets[b] == t.assets[b])
      && (forall p :: p in r.assetPhotos ==> r.assetPhotos[p] == t.assetPhotos[p])
      && r.(assets := t.assets, assetPhotos := t.assetPhotos, files := t.files) == t
  {
  }

  // ---------------------------------------------------------------------
  // The three actions keep the invariants.

  lemma {:induction false} AddAssetPhotosValid(t: Tables, a: Id, us: seq<UploadItem>)
    requires ValidTables(t) && a in t.assets
    decreases |us|
    ensures ValidTables(AddAssetPhotos(t, a, us))
  {
    if us != [] {
      var t0 := AddAssetPhotos(t, a, us[..|us| - 1]);
      AddAssetPhotosValid(t, a, us[..|us| - 1]);
      if us[|us| - 1].File? {
        AddAssetPhotoValid(t0, a);
      }
    }
  }

  /** A change to the asset rows alone that keeps every asset that has
      photos keeps the invariants. */
  lemma SameAssetPhotosValid(t: Tables, r: Tables)
    requires ValidTables(t)
    requires r.(assets := t.assets, nextId := t.nextId) == t && t.nextId <= r.nextId
    requires forall k :: k in r.assets ==> k < r.nextId
    requires forall p :: p in t.assetPhotos ==> t.assetPhotos[p].assetId in r.assets
    ensures ValidTables(r)
  {
    forall x | Live(r, x) ensures Live(t, x) && PathOf(r, x) == PathOf(t, x) { }
    assert PathsUnique(r);
  }

  lemma InsertAssetValid(t: Tables, row: AssetRow)
    requires ValidTables(t)
    ensures ValidTables(InsertAsset(t, row))
  {
    SameAssetPhotosValid(t, InsertAsset(t, row));
  }

  lemma StoreAssetValid(t: Tables, req: AssetRequest)
    requires ValidTables(t)
    ensures ValidTables(StoreAsset(t, req))
  {
    if AssetRule(t, req) {
      InsertAssetValid(t, Created(req));
      AddAssetPhotosValid(InsertAsset(t, Created(req)), t.nextId, req.photos);
    }
  }

  lemma UpdateAssetValid(t: Tables, a: Id, req: AssetRequest)
    requires ValidTables(t)
    ensures ValidTables(UpdateAsset(t, a, req))
  {
    if UpdateAssetOutcome(t, a, req) == Saved {
      var t1 := t.(assets := t.assets[a := Revised(t.assets[a], req)]);
      SameAssetPhotosValid(t, t1);
      var t2 := AddAssetPhotos(t1, a, req.photos);
      AddAssetPhotosValid(t1, a, req.photos);
      DeleteAssetPhotosIsRemoval(t2, a, req.deletePhotos);
      RemoveAssetPhotosValid(t2, Elements(req.deletePhotos) * AssetPhotosOf(t2, a));
    }
  }

  /** `destroy` deletes the photos first, so no photo points to a deleted asset. */
  lemma DestroyAssetValid(t: Tables, a: Id)
    requires ValidTables(t)
    ensures ValidTables(DestroyAsset(t, a))
  {
    var u := RemoveAssetPhotos(t, AssetPhotosOf(t, a));
    RemoveAssetPhotosValid(t, AssetPhotosOf(t, a));
    SameAssetPhotosValid(u, DestroyAsset(t, a));
  }
}
