/** The user-visible notifications the widget raises through `toast`. The
    notification library itself is outside the model; only the sequence of
    notifications is kept, as an event log. */
module Notices {

  datatype Notice =
    | TooLarge(fileName: string)         // a candidate above the size limit
    | UnsupportedType(mediaType: string) // a candidate whose type is not allowed
    | Uploaded(fileName: string)         // an upload finished and its record was added
    | UploadFailed(fileName: string)     // an upload failed; nothing was added
    | FileDeleted
    | FileRenamed

  /** Notices shown with `toast.error` rather than `toast.success`. */
  predicate IsError(n: Notice)
  {
    n.TooLarge? || n.UnsupportedType? || n.UploadFailed?
  }
}
