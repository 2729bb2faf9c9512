/**
 * What the inspection Create and Edit pages share: the customer and asset
 * pickers, with the two effects that filter the assets and default the
 * location; the 9-file cap on a file selection; the loop that collects the
 * compressed files; and the array helpers the reducers are written with.
 */
module FormCommon {
  import opened Wrappers

  // ---------------------------------------------------------------------
  // Values the pages receive and hold.

  /** A `<select>` value: `''`, or the decimal text of an id. Both pages
      compare `x.id.toString()` with such a value, which is comparing ids. */
  datatype Choice = Blank | Chosen(id: nat)

  /** A customer as the page receives it. `location` is absent when the
      page is sent only the `id` and `name` columns. */
  datatype CustomerOption = CustomerOption(id: nat, location: Option<string>)

  datatype AssetOption = AssetOption(id: nat, customerId: nat, location: string)

  /** A file picked in an `<input type="file">`. */
  datatype Picked = Picked(name: string, size: nat)

  /** A `CompressedFile`: the file to send, its name, size and preview URL. */
  datatype Compressed = Compressed(file: Picked, name: string, size: nat, url: string)

  /** The `photoType` of the component photo handlers: `component` or `check`. */
  datatype Bucket = ComponentBucket | CheckBucket

  function Other(b: Bucket): Bucket {
    if b == ComponentBucket then CheckBucket else ComponentBucket
  }

  /** The four text fields the inputs of a component change. */
  datatype TextField = NameField | FunctionField | ConditionField | CheckResultsField

  /** `s || ''` on a nullable string. */
  function OrEmpty(s: Option<string>): string {
    if s.Some? then s.value else ""
  }

  // ---------------------------------------------------------------------
  // Array helpers.

  /** `xs.find(matches)`: the first element that matches, if there is one. */
  function Find<T>(xs: seq<T>, matches: T -> bool): (r: Option<T>)
    ensures r.None? <==> forall k :: 0 <= k < |xs| ==> !matches(xs[k])
    ensures r.Some? ==> exists k :: 0 <= k < |xs| && xs[k] == r.value && matches(xs[k])
                                    && forall j :: 0 <= j < k ==> !matches(xs[j])
  {
    if xs == [] then None
    else if matches(xs[0]) then Some(xs[0])
    else
      var r := Find(xs[1..], matches);
      assert forall k :: 1 <= k < |xs| ==> xs[k] == xs[1..][k - 1];
      r
  }

  /** `xs.filter((_, i) => i !== index)`: every element but the one at `index`. */
  function RemoveAt<T>(xs: seq<T>, index: nat): (r: seq<T>)
    ensures index < |xs| ==> |r| == |xs| - 1
    ensures index < |xs| ==> forall k :: 0 <= k < index ==> r[k] == xs[k]
    ensures index < |xs| ==> forall k :: index <= k < |r| ==> r[k] == xs[k + 1]
    ensures index >= |xs| ==> r == xs
  {
    if index < |xs| then xs[..index] + xs[index + 1..] else xs
  }

  // ---------------------------------------------------------------------
  // The customer and asset pickers.

  /** `customers.find(c => c.id.toString() === data.customer_id)`. */
  function CustomerWithId(customers: seq<CustomerOption>, id: nat): (r: Option<CustomerOption>)
    ensures r.Some? ==> r.value in customers && r.value.id == id
    ensures r.None? <==> forall c :: c in customers ==> c.id != id
  {
    Find(customers, (c: CustomerOption) => c.id == id)
  }

  /** `filteredAssets.find(a => a.id.toString() === data.asset_id)`. */
  function AssetWithId(assets: seq<AssetOption>, id: nat): (r: Option<AssetOption>)
    ensures r.Some? ==> r.value in assets && r.value.id == id
    ensures r.None? <==> forall a :: a in assets ==> a.id != id
  {
    Find(assets, (a: AssetOption) => a.id == id)
  }

  /** `assets.filter(a => a.customer_id.toString() === data.customer_id)`:
      exactly the assets of that customer. */
  function FilterAssets(assets: seq<AssetOption>, customer: nat): (r: seq<AssetOption>)
    decreases |assets|
    ensures |r| <= |assets|
    ensures forall a :: a in r <==> a in assets && a.customerId == customer
  {
    if assets == [] then []
    else
      var init := FilterAssets(assets[..|assets| - 1], customer);
      var last := assets[|assets| - 1];
      assert assets == assets[..|assets| - 1] + [last];
      if last.customerId == customer then init + [last] else init
  }

  /** The location the location effect writes: the selected asset's own
      location when it has a non-empty one, else the selected customer's,
      else `''`. */
  function DefaultLocation(asset: Option<AssetOption>, customerLocation: Option<string>): (r: string)
    ensures asset.Some? && asset.value.location != "" ==> r == asset.value.location
    ensures !(asset.Some? && asset.value.location != "") && customerLocation.Some? ==> r == customerLocation.value
    ensures !(asset.Some? && asset.value.location != "") && customerLocation.None? ==> r == ""
  {
    if asset.Some? && asset.value.location != "" then asset.value.location
    else OrEmpty(customerLocation)
  }

  /** The location is never invented: it is the asset's, the customer's, or
      empty, and it is empty only when neither has one. */
  lemma DefaultLocationSources(asset: Option<AssetOption>, customerLocation: Option<string>)
    ensures var r := DefaultLocation(asset, customerLocation);
      (asset.Some? && r == asset.value.location) || (customerLocation.Some? && r == customerLocation.value) || r == ""
    ensures DefaultLocation(asset, customerLocation) == "" <==>
      (asset.None? || asset.value.location == "") && (customerLocation.None? || customerLocation.value == "")
  {
  }

  /**
   * The picker state of both pages: the `customer_id`, `asset_id` and
   * `location` fields of the form, and the `selectedCustomerLocation` and
   * `filteredAssets` state they drive. The page's `customers` and `assets`
   * are passed to each effect.
   */
  class LocationPicker {
    var customerId: Choice
    var assetId: Choice
    var location: string
    var customerLocation: Option<string>
    var filteredAssets: seq<AssetOption>

    /** The form's first values, with the two state hooks at `null` and `[]`. */
    constructor (customerId: Choice, assetId: Choice, location: string)
      ensures this.customerId == customerId && this.assetId == assetId && this.location == location
      ensures customerLocation.None? && filteredAssets == []
    {
      this.customerId := customerId;
      this.assetId := assetId;
      this.location := location;
      customerLocation := None;
      filteredAssets := [];
    }

    /** The effect on `data.customer_id`: a known customer sets its location
        and the assets shown; an unknown one changes nothing; a cleared one
        clears the location, the assets shown and `asset_id`. */
    method CustomerEffect(customers: seq<CustomerOption>, assets: seq<AssetOption>)
      modifies this
      ensures customerId == old(customerId) && location == old(location)
      ensures old(customerId).Blank? ==>
        customerLocation.None? && filteredAssets == [] && assetId.Blank?
      ensures old(customerId).Chosen? && CustomerWithId(customers, old(customerId).id).Some? ==>
        && customerLocation == CustomerWithId(customers, old(customerId).id).value.location
        && filteredAssets == FilterAssets(assets, old(customerId).id)
        && assetId == old(assetId)
      ensures old(customerId).Chosen? && CustomerWithId(customers, old(customerId).id).None? ==>
        customerLocation == old(customerLocation) && filteredAssets == old(filteredAssets)
        && assetId == old(assetId)
    {
      if customerId.Chosen? {
        var customer := CustomerWithId(customers, customerId.id);
        if customer.Some? {
          customerLocation := customer.value.location;
          filteredAssets := FilterAssets(assets, customerId.id);
        }
      } else {
        customerLocation := None;
        filteredAssets := [];
        assetId := Blank;
      }
    }

    /** The effect on `data.asset_id`, the assets shown and the customer's
        location: it writes the location and nothing else. */
    method LocationEffect()
      modifies this
      ensures location == DefaultLocation(SelectedAsset(filteredAssets, assetId), customerLocation)
      ensures customerId == old(customerId) && assetId == old(assetId)
      ensures customerLocation == old(customerLocation) && filteredAssets == old(filteredAssets)
    {
      if assetId.Chosen? {
        var asset := AssetWithId(filteredAssets, assetId.id);
        if asset.Some? && asset.value.location != "" {
          location := asset.value.location;
        } else {
          location := OrEmpty(customerLocation);
        }
      } else {
        location := OrEmpty(customerLocation);
      }
    }

    /** Choosing a customer in the first `<select>`, followed by the effects
        React runs for it: first the customer effect, then the location effect. */
    method ChooseCustomer(c: Choice, customers: seq<CustomerOption>, assets: seq<AssetOption>)
      modifies this
      ensures customerId == c
      ensures c.Blank? ==> assetId.Blank? && filteredAssets == [] && location == ""
      ensures c.Chosen? && CustomerWithId(customers, c.id).Some? ==>
        && filteredAssets == FilterAssets(assets, c.id)
        && assetId == old(assetId)
        && location == DefaultLocation(SelectedAsset(filteredAssets, assetId),
                                       CustomerWithId(customers, c.id).value.location)
    {
      customerId := c;
      CustomerEffect(customers, assets);
      LocationEffect();
    }

    /** Choosing an asset in the second `<select>`, then the location effect. */
    method ChooseAsset(a: Choice)
      modifies this
      ensures assetId == a && customerId == old(customerId)
      ensures filteredAssets == old(filteredAssets) && customerLocation == old(customerLocation)
      ensures location == DefaultLocation(SelectedAsset(filteredAssets, a), customerLocation)
    {
      assetId := a;
      LocationEffect();
    }
  }

  /** The asset the location effect looks at: the one with the chosen id
      among the assets shown, and none when `asset_id` is `''`. */
  function SelectedAsset(shown: seq<AssetOption>, a: Choice): (r: Option<AssetOption>)
    ensures r.Some? ==> a.Chosen? && r.value in shown && r.value.id == a.id
    ensures r.None? <==> a.Blank? || forall x :: x in shown ==> x.id != a.id
  {
    if a.Chosen? then AssetWithId(shown, a.id) else None
  }

  /** An asset chosen among those shown for a customer belongs to that
      customer, so its location (when it has one) is the one written. */
  lemma ShownAssetBelongsToCustomer(assets: seq<AssetOption>, customer: nat, a: Choice)
    requires SelectedAsset(FilterAssets(assets, customer), a).Some?
    ensures var x := SelectedAsset(FilterAssets(assets, customer), a).value;
      x in assets && x.customerId == customer && x.id == a.id
  {
  }

  /** Switching to another known customer does not clear `asset_id`: an
      asset of the previous customer stays selected, is no longer among the
      assets shown, and the location falls back to the customer's. */
  lemma SwitchingCustomerKeepsAsset(assets: seq<AssetOption>, x: AssetOption, other: nat, loc: Option<string>)
    requires x in assets && x.customerId != other
    requires forall y :: y in assets && y.id == x.id ==> y == x
    ensures SelectedAsset(FilterAssets(assets, other), Chosen(x.id)).None?
    ensures DefaultLocation(SelectedAsset(FilterAssets(assets, other), Chosen(x.id)), loc) == OrEmpty(loc)
  {
  }

  // ---------------------------------------------------------------------
  // A file selection.

  /** At most this many files of one selection are taken. */
  const MaxSelection: nat := 9

  /** `Array.from(e.target.files || []).slice(0, 9)`. */
  function TakeSelection<T>(files: seq<T>): (r: seq<T>)
    ensures r <= files
    ensures |r| <= MaxSelection
    ensures |files| <= MaxSelection ==> r == files
    ensures |files| > MaxSelection ==> |r| == MaxSelection
  {
    if |files| <= MaxSelection then files else files[..MaxSelection]
  }

  /** The files the compression loop keeps, in their order: those for which
      `compress` returned a file rather than throwing. */
  function Kept(files: seq<Picked>, compress: Picked -> Option<Compressed>): (r: seq<Compressed>)
    decreases |files|
    ensures |r| <= |files|
  {
    if files == [] then []
    else
      var init := Kept(files[..|files| - 1], compress);
      var last := files[|files| - 1];
      if compress(last).Some? then init + [compress(last).value] else init
  }

  /** Every kept preview is the compression of one of the files. */
  lemma {:induction false} KeptFromFiles(files: seq<Picked>, compress: Picked -> Option<Compressed>)
    decreases |files|
    ensures forall c :: c in Kept(files, compress) ==> exists f :: f in files && compress(f) == Some(c)
  {
    if files != [] {
      var front := files[..|files| - 1];
      KeptFromFiles(front, compress);
      assert forall f :: f in front ==> f in files;
    }
  }

  /** When no file fails to compress, there is one preview per file. */
  lemma {:induction false} KeptAll(files: seq<Picked>, compress: Picked -> Option<Compressed>)
    requires forall f :: f in files ==> compress(f).Some?
    decreases |files|
    ensures |Kept(files, compress)| == |files|
  {
    if files != [] {
      var front := files[..|files| - 1];
      assert forall f :: f in front ==> f in files;
      KeptAll(front, compress);
    }
  }

  /** One more file of the loop below. */
  lemma KeptSnoc(files: seq<Picked>, compress: Picked -> Option<Compressed>, k: nat)
    requires k < |files|
    ensures Kept(files[..k + 1], compress)
         == Kept(files[..k], compress) + (if compress(files[k]).Some? then [compress(files[k]).value] else [])
  {
    assert files[..k + 1][..k] == files[..k];
  }

  /** The `for (const f of files)` loop of a file-change handler: each file
      that compresses without an error is pushed, the others are skipped.
      `compress` stands for the outcome of `compressImageFile` on a file. */
  method CompressAll(files: seq<Picked>, compress: Picked -> Option<Compressed>) returns (out: seq<Compressed>)
    ensures out == Kept(files, compress)
    ensures |out| <= |files|
  {
    out := [];
    var k := 0;
    while k < |files|
      invariant 0 <= k <= |files|
      invariant out == Kept(files[..k], compress)
    {
      var c := compress(files[k]);
      KeptSnoc(files, compress, k);
      out := out + if c.Some? then [c.value] else [];
      k := k + 1;
    }
    assert files[..k] == files;
  }

  /** What one file-change handler adds: at most 9 previews, all of them
      files of the selection. */
  method CollectSelection(selection: seq<Picked>, compress: Picked -> Option<Compressed>) returns (out: seq<Compressed>)
    ensures out == Kept(TakeSelection(selection), compress)
    ensures |out| <= MaxSelection
    ensures forall c :: c in out ==> exists f :: f in selection && compress(f) == Some(c)
  {
    var files := TakeSelection(selection);
    out := CompressAll(files, compress);
    KeptFromFiles(files, compress);
    assert forall f :: f in files ==> f in selection;
  }

  /** `compressed.map(f => f.file)`: the files the before-photo effect puts in the form. */
  function FilesOf(cs: seq<Compressed>): (r: seq<Picked>)
    ensures |r| == |cs|
    ensures forall k :: 0 <= k < |cs| ==> r[k] == cs[k].file
  {
    seq(|cs|, k requires 0 <= k < |cs| => cs[k].file)
  }
}
