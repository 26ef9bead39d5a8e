/** The "create library" modal: its image upload checks, its name checks,
    the body it posts, when its submit button is disabled, and the state it
    keeps across the two requests it makes. */
module CreateLibraryModal {
  import opened Common
  import opened Text
  import UploadRoutes
  import LibrariesRoutes

  /** What the browser reports of a chosen file. */
  datatype ClientFile = ClientFile(name: string, mimeType: string, size: nat)

  /** The MIME types the modal lets through. */
  const ValidTypes: seq<string> := ["image/jpeg", "image/png", "image/gif", "image/webp"]

  /** The largest image the modal sends: 5 MiB. */
  const MaxImageSize: nat := 5 * 1024 * 1024

  /** The upload checks, type before size: `None` when the file may be sent. */
  function CheckImage(file: ClientFile): (error: Option<string>)
    ensures error.None? <==> file.mimeType in ValidTypes && file.size <= MaxImageSize
    ensures file.mimeType !in ValidTypes ==> error == Some("Please upload a valid image (JPEG, PNG, GIF, WebP)")
    ensures file.mimeType in ValidTypes && file.size > MaxImageSize ==>
      error == Some("Image size should be less than 5MB")
  {
    if file.mimeType !in ValidTypes then Some("Please upload a valid image (JPEG, PNG, GIF, WebP)")
    else if file.size > MaxImageSize then Some("Image size should be less than 5MB")
    else None
  }

  /** Every type the modal accepts passes the server's MIME test, and every
      file it sends is within the server's size limit. */
  lemma CheckedImagePassesServer(file: ClientFile)
    requires CheckImage(file).None?
    ensures UploadRoutes.AllowedType(file.mimeType)
    ensures file.size <= UploadRoutes.MaxFileSize
  {
    if file.mimeType == "image/jpeg" {
      UploadRoutes.OccursAt("image/jpeg", "jpeg", 6);
    } else if file.mimeType == "image/png" {
      UploadRoutes.OccursAt("image/png", "png", 6);
    } else if file.mimeType == "image/gif" {
      UploadRoutes.OccursAt("image/gif", "gif", 6);
    } else {
      UploadRoutes.OccursAt("image/webp", "webp", 6);
    }
  }

  /** The size bound is inclusive: exactly 5 MiB is sent, one byte more is not. */
  lemma SizeBoundInclusive(name: string)
    ensures CheckImage(ClientFile(name, "image/png", 5 * 1024 * 1024)).None?
    ensures CheckImage(ClientFile(name, "image/png", 5 * 1024 * 1024 + 1)) == Some("Image size should be less than 5MB")
  {
  }

  /** The name checks: present after trimming, then at least three UTF-16
      units long after trimming. */
  function CheckName(name: string): (error: Option<string>)
    ensures error.None? <==> !Blank(name) && JsLength(Trim(name)) >= 3
    ensures Blank(name) ==> error == Some("Library name is required")
    ensures !Blank(name) && JsLength(Trim(name)) < 3 ==> error == Some("Library name must be at least 3 characters")
  {
    TrimEmptyIffBlank(name);
    if Trim(name) == "" then Some("Library name is required")
    else if JsLength(Trim(name)) < 3 then Some("Library name must be at least 3 characters")
    else None
  }

  /** The body posted to /libraries. */
  datatype CreatePayload = CreatePayload(name: string, imageUrl: Option<string>)

  /** The trimmed name, and the image URL with "" sent as null. */
  function LibraryPayload(name: string, imageUrl: string): (payload: CreatePayload)
    ensures payload.name == Trim(name)
    ensures payload.imageUrl.None? <==> imageUrl == ""
    ensures payload.imageUrl.Some? ==> payload.imageUrl.value == imageUrl
  {
    CreatePayload(Trim(name), if imageUrl == "" then None else Some(imageUrl))
  }

  /** The payload as the server's handler reads it. */
  function AsBody(payload: CreatePayload): (fields: (Field, Field)) {
    (Str(payload.name), if payload.imageUrl.None? then Null else Str(payload.imageUrl.value))
  }

  /** A name the modal accepts passes the server's name check, and the
      server's own trim leaves it as sent; the image URL is stored as sent. */
  lemma CheckedNamePassesServer(name: string, imageUrl: string)
    requires CheckName(name).None?
    ensures var body := AsBody(LibraryPayload(name, imageUrl));
      && body.0.Str? && !Blank(body.0.s)
      && Trim(body.0.s) == Trim(name)
      && (if body.1.Str? then Some(body.1.s) else None) == LibraryPayload(name, imageUrl).imageUrl
  {
    var payload := LibraryPayload(name, imageUrl);
    assert AsBody(payload).0 == Str(Trim(name));
    TrimKeepsNonBlank(name);
    TrimIdempotent(name);
  }

  /** `!formData.name.trim() || uploading`. */
  function SubmitDisabled(name: string, uploading: bool): (disabled: bool)
    ensures disabled <==> Blank(name) || uploading
  {
    TrimEmptyIffBlank(name);
    Trim(name) == "" || uploading
  }

  /** With the button enabled, the only name check left to fail is the
      length check. */
  lemma EnabledSubmitHasName(name: string, uploading: bool)
    requires !SubmitDisabled(name, uploading)
    ensures CheckName(name) != Some("Library name is required")
    ensures !uploading
  {
  }

  // ----------------------------------------------------------- the modal

  /** The modal's component state. */
  class CreateLibraryForm {
    var name: string
    var imageUrl: string
    var error: string
    var uploading: bool
    var loading: bool

    constructor ()
      ensures name == "" && imageUrl == "" && error == "" && !uploading && !loading
    {
      name, imageUrl, error := "", "", "";
      uploading, loading := false, false;
    }

    /** Whether the submit button is disabled now: its `disabled` prop, or
        a create request in flight, since the button also disables itself
        while `loading`. */
    function Disabled(): (disabled: bool)
      reads this
      ensures disabled <==> Blank(name) || uploading || loading
      ensures !disabled ==> CheckName(name).None? || CheckName(name) == Some("Library name must be at least 3 characters")
    {
      SubmitDisabled(name, uploading) || loading
    }

    /** `handleChange`, wired only to the name input: the name takes the
        typed value and the error clears. */
    method HandleChange(value: string)
      modifies this
      ensures name == value && imageUrl == old(imageUrl)
      ensures error == "" && uploading == old(uploading) && loading == old(loading)
    {
      name := value;
      error := "";
    }

    /** The "Remove image" button: the image reference empties, everything
        else (the error included) is kept, and the next submit sends no image. */
    method RemoveImage()
      modifies this`imageUrl
      ensures imageUrl == ""
      ensures LibraryPayload(name, imageUrl).imageUrl.None?
    {
      imageUrl := "";
    }

    /** `handleImageUpload` up to the request: no file does nothing; a
      failed check shows its message and sends nothing; otherwise the file
      is sent and the modal shows it is uploading. */
    method BeginUpload(file: Option<ClientFile>) returns (request: Option<ClientFile>)
      modifies this
      ensures name == old(name) && imageUrl == old(imageUrl) && loading == old(loading)
      ensures file.None? ==> request.None? && error == old(error) && uploading == old(uploading)
      ensures file.Some? && CheckImage(file.value).Some? ==>
        request.None? && error == CheckImage(file.value).value && uploading == old(uploading)
      ensures file.Some? && CheckImage(file.value).None? ==>
        request == file && uploading && error == old(error)
    {
      if file.None? {
        return None;
      }
      var failure := CheckImage(file.value);
      if failure.Some? {
        error := failure.value;
        return None;
      }
      uploading := true;
      request := file;
    }

    /** `handleImageUpload` after the request: a successful answer fills in
      the image URL; a thrown error shows the server's message or the
      modal's own; either way the upload is over. */
    method FinishUpload(answer: ApiReply<string>)
      modifies this
      ensures name == old(name) && loading == old(loading) && !uploading
      ensures answer.Answered? && answer.success ==> imageUrl == answer.data && error == ""
      ensures answer.Answered? && !answer.success ==> imageUrl == old(imageUrl) && error == old(error)
      ensures answer.Failed? ==>
        imageUrl == old(imageUrl) && error == MessageOr(answer.message, "Failed to upload image")
    {
      match answer {
        case Answered(success, url) =>
          if success {
            imageUrl := url;
            error := "";
          }
        case Failed(message) =>
          error := MessageOr(message, "Failed to upload image");
      }
      uploading := false;
    }

    /** `handleSubmit` up to the request: a failed name check shows its
      message and sends nothing; otherwise the payload is posted. */
    method BeginSubmit() returns (request: Option<CreatePayload>)
      modifies this`error, this`loading
      ensures name == old(name) && imageUrl == old(imageUrl) && uploading == old(uploading)
      ensures request == if CheckName(name).Some? then None else Some(LibraryPayload(name, imageUrl))
      ensures error == if CheckName(name).Some? then CheckName(name).value else old(error)
      ensures loading == (CheckName(name).None? || old(loading))
    {
      var failure := CheckName(name);
      if failure.Some? {
        error := failure.value;
        return None;
      }
      loading := true;
      request := Some(LibraryPayload(name, imageUrl));
    }

    /** `handleSubmit` after the request: on success the new library goes to
      the caller and the form is emptied; a thrown error shows the server's
      message or the modal's own. */
    method FinishSubmit(answer: ApiReply<LibrariesRoutes.Library>) returns (created: Option<LibrariesRoutes.Library>)
      modifies this
      ensures uploading == old(uploading) && !loading
      ensures answer.Answered? && answer.success ==>
        created == Some(answer.data) && name == "" && imageUrl == "" && error == ""
      ensures answer.Answered? && !answer.success ==>
        created.None? && name == old(name) && imageUrl == old(imageUrl) && error == old(error)
      ensures answer.Failed? ==>
        && created.None? && name == old(name) && imageUrl == old(imageUrl)
        && error == MessageOr(answer.message, "Failed to create library")
    {
      created := None;
      match answer {
        case Answered(success, library) =>
          if success {
            created := Some(library);
            name, imageUrl := "", "";
            error := "";
          }
        case Failed(message) =>
          error := MessageOr(message, "Failed to create library");
      }
      loading := false;
    }
  }
}
