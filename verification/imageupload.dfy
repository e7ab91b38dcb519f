/**
 * The image picker of src/components/ImageUpload.tsx: the type and size
 * checks a file passes before it is uploaded, the `uploading` and
 * `dragActive` flags, what is handed to the parent once the upload service
 * answers, and the guard of the remove button. The upload and delete
 * requests themselves are parameters: the service's answer is an input.
 */
module ImageUpload {
  import opened Optional
  import opened JsString
  import opened ImageService

  /** The two properties of a browser File the component reads. */
  datatype File = File(mimeType: string, size: nat)

  /** The 10 MB limit, in bytes. */
  const MaxUploadBytes: nat := 10 * 1024 * 1024

  /** What the checks decide. */
  datatype Check = NotAnImage | TooLarge | Accepted

  /**
   * The checks of handleFileUpload, in order: a type not starting with
   * "image/" is refused first, then a size above 10 MiB; exactly 10 MiB
   * passes.
   */
  function CheckFile(f: File): (c: Check)
    ensures c == NotAnImage <==> !StartsWith(f.mimeType, "image/")
    ensures c == TooLarge <==> StartsWith(f.mimeType, "image/") && f.size > 10485760
    ensures c == Accepted <==> StartsWith(f.mimeType, "image/") && f.size <= 10485760
  {
    if !StartsWith(f.mimeType, "image/") then NotAnImage
    else if f.size > MaxUploadBytes then TooLarge
    else Accepted
  }

  /** The alert a refused file raises: every refusal raises a non-empty alert. */
  function CheckMessage(c: Check): (r: string)
    ensures r == "" <==> c == Accepted
  {
    match c
    case NotAnImage => "Please select an image file"
    case TooLarge => "File size must be less than 10MB"
    case Accepted => ""
  }

  /** What ImageService.uploadImage gave: a URL (possibly empty), null, or a thrown error. */
  datatype UploadAnswer = Url(url: string) | NullUrl | Threw

  /** What handleFileUpload ends with: an alert, or the URL passed to onImageUploaded. */
  datatype UploadOutcome = Alert(message: string) | Uploaded(url: string)

  /** The drop zone and upload button state. */
  class ImageUploadState {
    var uploading: bool
    var dragActive: bool

    constructor()
      ensures !uploading && !dragActive
    {
      uploading := false;
      dragActive := false;
    }

    /**
     * handleFileUpload, with the service's answer as a parameter. A refused
     * file raises its alert and leaves the flags alone, without an upload.
     * Otherwise the upload runs with `uploading` set, `onImageUploaded`
     * receives a non-empty URL, a null or empty URL or an error raises
     * 'Failed to upload image', and `uploading` is false at the end.
     */
    method HandleFileUpload(file: File, answer: UploadAnswer) returns (outcome: UploadOutcome, uploadStarted: bool)
      modifies this
      ensures uploadStarted <==> CheckFile(file) == Accepted
      ensures !uploadStarted ==> outcome == Alert(CheckMessage(CheckFile(file))) && uploading == old(uploading)
      ensures uploadStarted ==> !uploading
      ensures uploadStarted ==> (outcome.Uploaded? <==> answer.Url? && answer.url != "")
      ensures outcome.Uploaded? ==> answer == Url(outcome.url) && outcome.url != ""
      ensures uploadStarted && !outcome.Uploaded? ==> outcome == Alert("Failed to upload image")
      ensures dragActive == old(dragActive)
    {
      if !StartsWith(file.mimeType, "image/") {
        return Alert("Please select an image file"), false;
      }
      if file.size > 10 * 1024 * 1024 {
        return Alert("File size must be less than 10MB"), false;
      }
      uploading := true;
      uploadStarted := true;
      match answer {
        case Url(u) =>
          if u != "" {
            outcome := Uploaded(u);
          } else {
            outcome := Alert("Failed to upload image");
          }
        case NullUrl => outcome := Alert("Failed to upload image");
        case Threw => outcome := Alert("Failed to upload image");
      }
      uploading := false;
    }

    /** handleFileSelect: the first chosen file, if any, is uploaded. */
    method HandleFileSelect(file: Option<File>, answer: UploadAnswer) returns (outcome: Option<UploadOutcome>)
      modifies this
      ensures file.None? ==> outcome.None? && uploading == old(uploading)
      ensures file.Some? && CheckFile(file.value) == Accepted ==> !uploading && outcome.Some?
      ensures file.Some? && CheckFile(file.value) != Accepted ==>
        outcome == Some(Alert(CheckMessage(CheckFile(file.value)))) && uploading == old(uploading)
      ensures dragActive == old(dragActive)
    {
      outcome := None;
      if file.Some? {
        var o, _ := HandleFileUpload(file.value, answer);
        outcome := Some(o);
      }
    }

    /** handleDrop: the highlight goes off, then the first dropped file, if any, is uploaded. */
    method HandleDrop(file: Option<File>, answer: UploadAnswer) returns (outcome: Option<UploadOutcome>)
      modifies this
      ensures !dragActive
      ensures file.None? ==> outcome.None? && uploading == old(uploading)
      ensures file.Some? && CheckFile(file.value) == Accepted ==> !uploading && outcome.Some?
      ensures file.Some? && CheckFile(file.value) != Accepted ==>
        outcome == Some(Alert(CheckMessage(CheckFile(file.value)))) && uploading == old(uploading)
    {
      dragActive := false;
      outcome := HandleFileSelect(file, answer);
    }

    /** handleDragOver: the drop zone is highlighted. */
    method HandleDragOver()
      modifies this
      ensures dragActive && uploading == old(uploading)
    {
      dragActive := true;
    }

    /** handleDragLeave: the highlight goes off. */
    method HandleDragLeave()
      modifies this
      ensures !dragActive && uploading == old(uploading)
    {
      dragActive := false;
    }
  }

  /** What the remove button does: nothing, or delete the image with this public id and tell the parent. */
  datatype RemoveAction = NoAction | DeleteAndNotify(publicId: string)

  /**
   * handleRemoveImage: only with a non-empty current image and an
   * onImageRemoved callback, the image's public id is deleted and the
   * parent is told.
   */
  function RemoveImage(currentImage: Option<string>, hasOnImageRemoved: bool): (a: RemoveAction)
    ensures a.DeleteAndNotify? <==> currentImage.Some? && currentImage.value != "" && hasOnImageRemoved
    ensures a.DeleteAndNotify? ==> a.publicId == GetPublicIdFromUrl(currentImage.value)
    ensures a.DeleteAndNotify? ==> '/' !in a.publicId && '.' !in a.publicId
  {
    if currentImage.Some? && currentImage.value != "" && hasOnImageRemoved then
      DeleteAndNotify(GetPublicIdFromUrl(currentImage.value))
    else NoAction
  }

  /** A file of exactly 10 MiB with an image type is accepted; one byte more is refused. */
  lemma TenMiBBoundary(mimeType: string)
    requires StartsWith(mimeType, "image/")
    ensures CheckFile(File(mimeType, MaxUploadBytes)) == Accepted
    ensures CheckFile(File(mimeType, MaxUploadBytes + 1)) == TooLarge
  {
  }

  /** A file that is not an image is refused as such whatever its size: the type check comes first. */
  lemma TypeCheckedFirst(mimeType: string, size: nat)
    requires !StartsWith(mimeType, "image/")
    ensures CheckFile(File(mimeType, size)) == NotAnImage
    ensures CheckMessage(CheckFile(File(mimeType, size))) == "Please select an image file"
  {
  }
}
