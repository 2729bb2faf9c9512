/**
 * AssetController's `store`, `update` and `destroy` as the controller runs
 * them, proved to compute the functions of AssetActions.
 */
module AssetController {
  import opened Wrappers
  import opened Models
  import opened Validation
  import opened AssetActions

  /** Store one uploaded file, then create its asset photo row. */
  method StorePhoto(db: Database, asset: Id)
    modifies db
    ensures db.Snapshot() == AddAssetPhoto(old(db.Snapshot()), asset)
  {
    var path := db.StoreFile(AssetPhotoDir);
    var _ := db.CreateAssetPhoto(asset, path);
  }

  /** The `photos` loop of `store` and `update`. */
  method UploadPhotos(db: Database, asset: Id, us: seq<UploadItem>)
    modifies db
    ensures db.Snapshot() == AddAssetPhotos(old(db.Snapshot()), asset, us)
  {
    ghost var t0 := db.Snapshot();
    var k := 0;
    while k < |us|
      invariant 0 <= k <= |us|
      invariant db.Snapshot() == AddAssetPhotos(t0, asset, us[..k])
    {
      assert us[..k + 1][..k] == us[..k];
      if us[k].File? {
        StorePhoto(db, asset);
      }
      k := k + 1;
    }
    assert us[..k] == us;
  }

  /** Delete one asset photo: its file first, then its row. */
  method RemovePhoto(db: Database, p: Id)
    requires p in db.assetPhotos
    modifies db
    ensures db.Snapshot() == RemoveAssetPhotos(old(db.Snapshot()), {p})
  {
    RemoveOneAssetPhoto(db.Snapshot(), p);
    db.DeleteFile(db.assetPhotos[p].path);
    db.DeleteAssetPhoto(p);
  }

  /** The `_delete_photos` loop of `update`: the id is looked up among this
      asset's photos only. */
  method DeletePhotosLoop(db: Database, asset: Id, xs: seq<Id>)
    modifies db
    ensures db.Snapshot() == DeleteAssetPhotos(old(db.Snapshot()), asset, xs)
  {
    ghost var t0 := db.Snapshot();
    var k := 0;
    while k < |xs|
      invariant 0 <= k <= |xs|
      invariant db.Snapshot() == DeleteAssetPhotos(t0, asset, xs[..k])
    {
      assert xs[..k + 1][..k] == xs[..k];
      var x := xs[k];
      if x in db.assetPhotos && db.assetPhotos[x].assetId == asset {
        RemovePhoto(db, x);
      }
      k := k + 1;
    }
    assert xs[..k] == xs;
  }

  /** `store`: returns the new asset's id when the request was valid. */
  method Store(db: Database, req: AssetRequest) returns (created: Option<Id>)
    requires db.Valid()
    modifies db
    ensures db.Valid()
    ensures created.Some? <==> AssetRule(old(db.Snapshot()), req)
    ensures created.Some? ==> created.value == old(db.nextId)
    ensures db.Snapshot() == StoreAsset(old(db.Snapshot()), req)
  {
    ghost var t0 := db.Snapshot();
    if !AssetRule(db.Snapshot(), req) {
      return None;
    }
    var asset := db.CreateAsset(Created(req));
    assert db.Snapshot() == InsertAsset(t0, Created(req));
    UploadPhotos(db, asset, req.photos);
    created := Some(asset);
    StoreAssetValid(t0, req);
  }

  /** `update`: overwrite the fillable columns, append the new photos, then
      delete the listed ones. */
  method Update(db: Database, asset: Id, req: AssetRequest) returns (outcome: Outcome)
    requires db.Valid()
    modifies db
    ensures db.Valid()
    ensures outcome == UpdateAssetOutcome(old(db.Snapshot()), asset, req)
    ensures db.Snapshot() == AssetActions.UpdateAsset(old(db.Snapshot()), asset, req)
  {
    ghost var t0 := db.Snapshot();
    if asset !in db.assets {
      return NotFound;
    }
    if !AssetUpdateRule(db.Snapshot(), req) {
      return Invalid;
    }
    db.UpdateAsset(asset, Revised(db.assets[asset], req));
    UploadPhotos(db, asset, req.photos);
    DeletePhotosLoop(db, asset, req.deletePhotos);
    outcome := Saved;
    UpdateAssetValid(t0, asset, req);
  }

  /** `destroy`: every photo of the asset loses its file and its row, then
      the asset row goes. An asset that does not exist is a 404. */
  method Destroy(db: Database, asset: Id) returns (found: bool)
    requires db.Valid()
    modifies db
    ensures db.Valid()
    ensures found <==> asset in old(db.assets)
    ensures found ==> db.Snapshot() == DestroyAsset(old(db.Snapshot()), asset)
    ensures !found ==> db.Snapshot() == old(db.Snapshot())
  {
    if asset !in db.assets {
      return false;
    }
    ghost var t0 := db.Snapshot();
    var owned := AssetPhotosOf(db.Snapshot(), asset);
    ghost var all := owned;
    while owned != {}
      invariant owned <= all
      invariant db.Snapshot() == RemoveAssetPhotos(t0, all - owned)
      decreases owned
    {
      var p :| p in owned;
      RemoveAssetPhotosTwice(t0, all - owned, {p});
      assert (all - owned) + {p} == all - (owned - {p});
      RemovePhoto(db, p);
      owned := owned - {p};
    }
    assert all - owned == AssetPhotosOf(t0, asset);
    db.DeleteAsset(asset);
    found := true;
    assert db.Snapshot() == DestroyAsset(t0, asset);
    DestroyAssetValid(t0, asset);
  }
}
