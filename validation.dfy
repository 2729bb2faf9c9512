/**
 * The validation rules the controllers share, on the values the form
 * submits. A rule that fails is answered with a field error before the
 * controller writes anything.
 */
module Validation {
  import opened Wrappers
  import opened Models

  /** The response of an action on a stored row: 404 when the row named by
      the route does not exist, field errors when validation fails, a
      server error when the action fails after validation but before its
      first write, otherwise a redirect after the change. */
  datatype Outcome = NotFound | Invalid | Failed | Saved

  /** A nullable key of a request as the controller sees it: not sent at
      all, sent as null (an empty form field arrives as null), or sent with
      a value. Laravel's `validate` returns only the keys that were sent. */
  datatype Submitted<T> = Absent | Null | Given(value: T)

  /** The column a nullable key writes when it is there: null or its value. */
  function Column<T>(s: Submitted<T>): (c: Option<T>)
    ensures c.Some? <==> s.Given?
    ensures s.Given? ==> c.value == s.value
  {
    if s.Given? then Some(s.value) else None
  }

  /** A nullable column after `$model->update($validated)`: an absent key
      leaves the `current` value, a sent one writes its column. */
  function Merged<T>(s: Submitted<T>, current: Option<T>): (c: Option<T>)
    ensures s.Absent? ==> c == current
    ensures !s.Absent? ==> c == Column(s)
  {
    if s.Absent? then current else Column(s)
  }

  /** `max:255` on strings, `max:2048` (kilobytes) on images. */
  const MaxStringLength: nat := 255
  const MaxImageKilobytes: nat := 2048

  /** `required|string`: present and not empty. */
  predicate Required(s: string) {
    |s| > 0
  }

  predicate RequiredShort(s: string) {
    Required(s) && |s| <= MaxStringLength
  }

  /** `nullable|string|max:255`: absent, null, or at most 255 characters. */
  predicate OptionalShort(s: Submitted<string>) {
    !s.Given? || |s.value| <= MaxStringLength
  }

  /** `image|max:2048` on one element of a file array. The rule is not
      `nullable`, so an element that is not an uploaded file fails it. */
  predicate ImageRule(u: UploadItem) {
    u.File? && u.isImage && u.kilobytes <= MaxImageKilobytes
  }

  predicate ImagesRule(us: seq<UploadItem>) {
    forall k :: 0 <= k < |us| ==> ImageRule(us[k])
  }

  /** `nullable|image|max:2048` on a single file key: no file passes. */
  predicate OptionalImageRule(u: UploadItem) {
    u.File? ==> u.isImage && u.kilobytes <= MaxImageKilobytes
  }

  /** The number of elements of a file array that are files. */
  function CountFiles(us: seq<UploadItem>): (n: nat)
    ensures n <= |us|
    ensures n == 0 <==> forall k :: 0 <= k < |us| ==> !us[k].File?
  {
    if us == [] then 0
    else CountFiles(us[..|us| - 1]) + (if us[|us| - 1].File? then 1 else 0)
  }

  /** An array that passes `image|max:2048` holds only files, so the
      controllers' loops touch every element. */
  lemma {:induction false} ImagesAreFiles(us: seq<UploadItem>)
    requires ImagesRule(us)
    ensures CountFiles(us) == |us|
  {
    if us != [] {
      var front := us[..|us| - 1];
      assert forall k :: 0 <= k < |front| ==> front[k] == us[k];
      ImagesAreFiles(front);
    }
  }
}
