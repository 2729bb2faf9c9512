/**
 * CustomerController's `store`, `update` and `destroy` as the controller
 * runs them, with `$path` assigned and then reassigned when a photo was
 * uploaded; proved to compute the functions of CustomerActions.
 */
module CustomerController {
  import opened Wrappers
  import opened Models
  import opened Validation
  import opened CustomerActions

  /** `$path = $request->file('photo')->store(...)` when a file came;
      otherwise `$path` stays `current`. */
  method SaveUpload(db: Database, u: UploadItem, current: Option<StoredPath>) returns (path: Option<StoredPath>)
    modifies db
    ensures path == PhotoPath(old(db.Snapshot()), u, current)
    ensures db.Snapshot() == SavePhoto(old(db.Snapshot()), u)
  {
    path := current;
    if u.File? {
      var p := db.StoreFile(CustomerPhotoDir);
      path := Some(p);
    }
  }

  method Store(db: Database, req: CustomerRequest) returns (created: Option<Id>)
    requires db.Valid()
    modifies db
    ensures db.Valid()
    ensures created.Some? <==> CustomerRule(req)
    ensures db.Snapshot() == StoreCustomer(old(db.Snapshot()), req)
  {
    ghost var t0 := db.Snapshot();
    if !CustomerRule(req) {
      return None;
    }
    var path := SaveUpload(db, req.photo, None);
    var id := db.CreateCustomer(RowOf(req, None, path));
    created := Some(id);
    StoreCustomerValid(t0, req);
  }

  method Update(db: Database, c: Id, req: CustomerRequest) returns (outcome: Outcome)
    requires db.Valid()
    modifies db
    ensures db.Valid()
    ensures outcome == UpdateCustomerOutcome(old(db.Snapshot()), c, req)
    ensures db.Snapshot() == UpdateCustomer(old(db.Snapshot()), c, req)
  {
    ghost var t0 := db.Snapshot();
    if c !in db.customers {
      return NotFound;
    }
    if !CustomerRule(req) {
      return Invalid;
    }
    var path := SaveUpload(db, req.photo, db.customers[c].photoPath);
    db.UpdateCustomer(c, RowOf(req, db.customers[c].issueNote, path));
    outcome := Saved;
    UpdateCustomerValid(t0, c, req);
  }

  method Destroy(db: Database, c: Id) returns (found: bool)
    requires db.Valid()
    modifies db
    ensures db.Valid()
    ensures found <==> c in old(db.customers)
    ensures found ==> db.Snapshot() == DestroyCustomer(old(db.Snapshot()), c)
    ensures !found ==> db.Snapshot() == old(db.Snapshot())
  {
    ghost var t0 := db.Snapshot();
    if c !in db.customers {
      return false;
    }
    db.DeleteCustomer(c);
    found := true;
    DestroyCustomerValid(t0, c);
  }
}
