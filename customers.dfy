/**
 * What CustomerController's `store`, `update` and `destroy` do to the
 * database. A customer has at most one photo, kept in `photo_path`. A new
 * upload replaces the path but leaves the old file on the disk, and
 * `destroy` deletes the row and leaves its file: the lines that would
 * delete those files are commented out in the controller.
 */
module CustomerActions {
  import opened Wrappers
  import opened Models
  import opened Validation

  /** The form of Customers/Create and Customers/Edit; `photo` is NotAFile
      when no file was chosen. */
  datatype CustomerRequest = CustomerRequest(
    name: string, location: string, issueNote: Submitted<string>, photo: UploadItem)

  /** The rules of `store` and `update` (`issue_note` has no length limit). */
  predicate CustomerRule(req: CustomerRequest) {
    RequiredShort(req.name) && RequiredShort(req.location) && OptionalImageRule(req.photo)
  }

  /** The path `store('customer_photos')` returns for the next upload. */
  function NextPhotoPath(t: Tables): (p: StoredPath)
    ensures p.dir == CustomerPhotoDir
    ensures SerialsBelowNext(t) ==> p !in t.files
  {
    StoredPath(CustomerPhotoDir, t.nextSerial)
  }

  /** The disk after `if ($request->hasFile('photo')) store(...)`. */
  function SavePhoto(t: Tables, u: UploadItem): (r: Tables)
    ensures r.(files := t.files, nextSerial := t.nextSerial) == t
    ensures u.File? ==> r.files == t.files + {NextPhotoPath(t)} && r.nextSerial == t.nextSerial + 1
    ensures !u.File? ==> r == t
  {
    if u.File? then t.(files := t.files + {NextPhotoPath(t)}, nextSerial := t.nextSerial + 1) else t
  }

  /** `$path` after the upload: the new path when a file came, else `current`. */
  function PhotoPath(t: Tables, u: UploadItem, current: Option<StoredPath>): (p: Option<StoredPath>)
    ensures u.File? ==> p == Some(NextPhotoPath(t))
    ensures !u.File? ==> p == current
  {
    if u.File? then Some(NextPhotoPath(t)) else current
  }

  /** The row `create` or `update` writes: the sent columns over the
      `note` the row had (null for a new row), with `photo_path` set to `path`. */
  function RowOf(req: CustomerRequest, note: Option<string>, path: Option<StoredPath>): CustomerRow {
    CustomerRow(req.name, req.location, Merged(req.issueNote, note), path)
  }

  /** Customer row `c` becomes `row`. */
  function PutCustomer(t: Tables, c: Id, row: CustomerRow): Tables {
    t.(customers := t.customers[c := row])
  }

  /** A new customer row at the next id. */
  function InsertCustomer(t: Tables, row: CustomerRow): Tables {
    PutCustomer(t.(nextId := t.nextId + 1), t.nextId, row)
  }

  /** `store`: nothing is written when validation fails. */
  function StoreCustomer(t: Tables, req: CustomerRequest): (r: Tables)
    ensures !CustomerRule(req) ==> r == t
  {
    if !CustomerRule(req) then t
    else
      var t1 := SavePhoto(t, req.photo);
      InsertCustomer(t1, RowOf(req, None, PhotoPath(t, req.photo, None)))
  }

  function UpdateCustomerOutcome(t: Tables, c: Id, req: CustomerRequest): Outcome {
    if c !in t.customers then NotFound
    else if !CustomerRule(req) then Invalid
    else Saved
  }

  /** `update`: `$path` starts as the stored `photo_path`. */
  function UpdateCustomer(t: Tables, c: Id, req: CustomerRequest): (r: Tables)
    ensures UpdateCustomerOutcome(t, c, req) != Saved ==> r == t
  {
    if UpdateCustomerOutcome(t, c, req) != Saved then t
    else
      var t1 := SavePhoto(t, req.photo);
      PutCustomer(t1, c, RowOf(req, t.customers[c].issueNote, PhotoPath(t, req.photo, t.customers[c].photoPath)))
  }

  /** `destroy`: the row only. */
  function DestroyCustomer(t: Tables, c: Id): (r: Tables)
    ensures r.(customers := t.customers) == t
    ensures forall k :: k in r.customers <==> k in t.customers && k != c
    ensures forall k :: k in r.customers ==> r.customers[k] == t.customers[k]
  {
    t.(customers := t.customers - {c})
  }

  // ---------------------------------------------------------------------
  // Properties.

  /** `store` sets `photo_path` to the stored path when a photo was
      uploaded, and to null otherwise; the other columns are the submitted ones. */
  lemma StoreCustomerRow(t: Tables, req: CustomerRequest)
    requires SerialsBelowNext(t) && CustomerRule(req)
    ensures var r := StoreCustomer(t, req);
      && t.nextId in r.customers
      && r.customers[t.nextId].name == req.name
      && r.customers[t.nextId].location == req.location
      && r.customers[t.nextId].issueNote == Column(req.issueNote)
      && (req.photo.File? ==>
            && r.customers[t.nextId].photoPath.Some?
            && r.customers[t.nextId].photoPath.value !in t.files
            && r.customers[t.nextId].photoPath.value in r.files)
      && (!req.photo.File? ==> r.customers[t.nextId].photoPath.None? && r.files == t.files)
  {
  }

  /** `update` writes the sent name and location, and `issue_note` unless
      the key was not sent, in which case the old note stays. */
  lemma UpdateCustomerFields(t: Tables, c: Id, req: CustomerRequest)
    requires c in t.customers && CustomerRule(req)
    ensures var r := UpdateCustomer(t, c, req);
      && c in r.customers
      && r.customers[c].name == req.name && r.customers[c].location == req.location
      && (req.issueNote.Absent? ==> r.customers[c].issueNote == t.customers[c].issueNote)
      && (!req.issueNote.Absent? ==> r.customers[c].issueNote == Column(req.issueNote))
      && (forall k :: k in t.customers && k != c ==> k in r.customers && r.customers[k] == t.customers[k])
  {
  }

  /** `update` without a photo keeps `photo_path` and the disk as they were. */
  lemma UpdateCustomerKeepsPhoto(t: Tables, c: Id, req: CustomerRequest)
    requires c in t.customers && CustomerRule(req) && !req.photo.File?
    ensures var r := UpdateCustomer(t, c, req);
      r.customers[c].photoPath == t.customers[c].photoPath && r.files == t.files
  {
  }

  /** `update` with a photo points `photo_path` at a new file and leaves the
      old file on the disk, where no row refers to it any more. */
  lemma UpdateCustomerReplacesPhoto(t: Tables, c: Id, req: CustomerRequest)
    requires ValidTables(t) && c in t.customers && CustomerRule(req) && req.photo.File?
    ensures var r := UpdateCustomer(t, c, req);
      && r.customers[c].photoPath.Some?
      && r.customers[c].photoPath.value !in t.files
      && r.customers[c].photoPath.value in r.files
      && t.files <= r.files
      && (t.customers[c].photoPath.Some? ==>
            forall x :: Live(r, x) ==> PathOf(r, x) != t.customers[c].photoPath.value)
  {
    var r := UpdateCustomer(t, c, req);
    if t.customers[c].photoPath.Some? {
      var prior := t.customers[c].photoPath.value;
      assert PathOf(t, CustomerPhotoRef(c)) == prior;
      forall x | Live(r, x) ensures PathOf(r, x) != prior {
        if x != CustomerPhotoRef(c) {
          assert Live(t, x) && PathOf(r, x) == PathOf(t, x);
        }
      }
    }
  }

  /** `destroy` leaves the disk as it was, the customer's photo included. */
  lemma DestroyCustomerKeepsFile(t: Tables, c: Id)
    ensures var r := DestroyCustomer(t, c);
      c !in r.customers && r.files == t.files
  {
  }

  // ---------------------------------------------------------------------
  // The three actions keep the invariants.

  /** Saving an upload keeps the invariants, and its path is held by no row. */
  lemma SavePhotoValid(t: Tables, u: UploadItem)
    requires ValidTables(t)
    ensures ValidTables(SavePhoto(t, u))
    ensures forall x :: Live(t, x) ==> PathOf(t, x) != NextPhotoPath(t)
  {
    var r := SavePhoto(t, u);
    forall x | Live(t, x) ensures PathOf(t, x) != NextPhotoPath(t) {
      assert PathOf(t, x) in t.files;
    }
    forall x | Live(r, x) ensures Live(t, x) && PathOf(r, x) == PathOf(t, x) { }
  }

  /** Writing row `c`, with `c` below a counter at least as high as before,
      keeps the invariant when the row's file is on the disk and is no other
      row's file. */
  lemma PutCustomerValid(t: Tables, n: nat, c: Id, row: CustomerRow)
    requires ValidTables(t) && t.nextId <= n && c < n
    requires row.photoPath.Some? ==> row.photoPath.value in t.files
    requires row.photoPath.Some? ==>
      forall x :: Live(t, x) && x != CustomerPhotoRef(c) ==> PathOf(t, x) != row.photoPath.value
    ensures ValidTables(PutCustomer(t.(nextId := n), c, row))
  {
    var r := PutCustomer(t.(nextId := n), c, row);
    var cr := CustomerPhotoRef(c);
    forall x | Live(r, x) && x != cr ensures Live(t, x) && PathOf(r, x) == PathOf(t, x) { }
    forall x | Live(r, x) ensures PathOf(r, x) in r.files {
      if x != cr { assert PathOf(t, x) in t.files; }
    }
    forall x1, x2 | Live(r, x1) && Live(r, x2) && PathOf(r, x1) == PathOf(r, x2) ensures x1 == x2 {
      if x1 != cr && x2 != cr {
        assert Live(t, x1) && Live(t, x2);
      }
    }
  }

  lemma StoreCustomerValid(t: Tables, req: CustomerRequest)
    requires ValidTables(t)
    ensures ValidTables(StoreCustomer(t, req))
  {
    if CustomerRule(req) {
      var t1 := SavePhoto(t, req.photo);
      SavePhotoValid(t, req.photo);
      forall x | Live(t1, x) ensures Live(t, x) && PathOf(t1, x) == PathOf(t, x) { }
      PutCustomerValid(t1, t1.nextId + 1, t1.nextId, RowOf(req, None, PhotoPath(t, req.photo, None)));
    }
  }

  lemma UpdateCustomerValid(t: Tables, c: Id, req: CustomerRequest)
    requires ValidTables(t)
    ensures ValidTables(UpdateCustomer(t, c, req))
  {
    if UpdateCustomerOutcome(t, c, req) == Saved {
      var t1 := SavePhoto(t, req.photo);
      SavePhotoValid(t, req.photo);
      var n := CustomerPhotoRef(c);
      forall x | Live(t1, x) ensures Live(t, x) && PathOf(t1, x) == PathOf(t, x) { }
      if !req.photo.File? && t.customers[c].photoPath.Some? {
        assert Live(t, n);
      }
      assert t1.(nextId := t1.nextId) == t1;
      PutCustomerValid(t1, t1.nextId, c, RowOf(req, t.customers[c].issueNote, PhotoPath(t, req.photo, t.customers[c].photoPath)));
    }
  }

  lemma DestroyCustomerValid(t: Tables, c: Id)
    requires ValidTables(t)
    ensures ValidTables(DestroyCustomer(t, c))
  {
    var r := DestroyCustomer(t, c);
    forall x | Live(r, x) ensures Live(t, x) && PathOf(r, x) == PathOf(t, x) { }
    assert PathsUnique(r);
  }
}
