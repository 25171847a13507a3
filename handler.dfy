/** The `/daily_upload` handler's decisions and the error-handling middleware. */
module Handler {
  import opened Wrappers
  import opened FileNaming
  import opened Intake
  import opened Registry

  /** `req.files` as the storage engine leaves it: the stored file name under each field. */
  datatype UploadedFiles = UploadedFiles(front: Option<string>, back: Option<string>)

  /** At least one of `front` and `back` arrived (`req.files` itself may be missing). */
  predicate HasFiles(files: Option<UploadedFiles>) {
    files.Some? && (files.value.front.Some? || files.value.back.Some?)
  }

  /** A template literal's rendering of `req.body.user`. */
  function TemplateText(v: Option<string>): string {
    match v
    case None => "undefined"
    case Some(s) => s
  }

  /** The public path of a stored file: `/uploads/<username>/<filename>`. */
  function StoredPath(user: Option<string>, filename: string): (p: string)
    ensures p != ""
  {
    "/uploads/" + TemplateText(user) + "/" + filename
  }

  /** The stored path is the file's place on disk, `./uploads/<username>/<filename>`, without the '.'. */
  lemma StoredPathMirrorsDisk(user: Option<string>, filename: string)
    requires UserGiven(user)
    ensures "." + StoredPath(user, filename) == Destination(user).value + "/" + filename
  {
  }

  /** The path stored for one side: its public path when the file is present, null otherwise. */
  function SidePath(user: Option<string>, side: Option<string>): (p: Option<string>)
    ensures p.Some? <==> side.Some?
    ensures p.Some? ==> p.value == StoredPath(user, side.value)
  {
    match side
    case None => None
    case Some(f) => Some(StoredPath(user, f))
  }

  /** The document the handler builds for the user's collection. */
  datatype ImageEntry = ImageEntry(frontImagePath: Option<string>, backImagePath: Option<string>,
                                   uploadDate: string, uploadTime: string)

  /** A string field passes a `required` check when it is present and not empty. */
  predicate Present(v: Option<string>) {
    v.Some? && v.value != ""
  }

  /**
   * The entry for the stored files: a side has a path exactly when its file arrived, and that
   * path always passes a `required` check.
   */
  function NewImageEntry(user: Option<string>, files: UploadedFiles, date: string, time: string): (e: ImageEntry)
    ensures e.uploadDate == date && e.uploadTime == time
    ensures e.frontImagePath.Some? <==> files.front.Some?
    ensures e.backImagePath.Some? <==> files.back.Some?
    ensures Present(e.frontImagePath) <==> files.front.Some?
    ensures Present(e.backImagePath) <==> files.back.Some?
  {
    ImageEntry(SidePath(user, files.front), SidePath(user, files.back), date, time)
  }

  /**
   * The entry passes the schema's validation, which `save()` runs before writing. The schema
   * as written demands both paths; the intended one demands at least one.
   */
  predicate Validates(schema: Schema, e: ImageEntry): (ok: bool)
    ensures schema == UserImageSchema ==>
      (ok <==> Present(e.frontImagePath) && Present(e.backImagePath) && e.uploadDate != "" && e.uploadTime != "")
    ensures schema == IntendedSchema ==>
      (ok <==> (Present(e.frontImagePath) || Present(e.backImagePath)) && e.uploadDate != "" && e.uploadTime != "")
  {
    && (schema.frontRequired ==> Present(e.frontImagePath))
    && (schema.backRequired ==> Present(e.backImagePath))
    && (schema.oneImageRequired ==> Present(e.frontImagePath) || Present(e.backImagePath))
    && e.uploadDate != "" && e.uploadTime != ""
  }

  const NoFilesMessage: string := "No files uploaded or invalid file format"
  const SaveFailedMessage: string := "Failed to save entry to database"
  const SavedMessage: string := "Images uploaded and entry created successfully!"

  /** What the handler answers: an error status with its message, or 200 with a message and the saved entry. */
  datatype Response =
    | ErrorResponse(status: nat, error: string)
    | Saved(message: string, front: Option<string>, back: Option<string>, date: string, time: string)
  {
    function Status(): nat {
      match this
      case ErrorResponse(status, _) => status
      case Saved(_, _, _, _, _) => 200
    }
  }

  /**
   * The handler's answer, given the models' schema, the user, the stored files, the date and
   * time read from the clock, and whether the database accepted the write (`stored`).
   */
  function UploadOutcome(schema: Schema, user: Option<string>, files: Option<UploadedFiles>,
                         date: string, time: string, stored: bool): (r: Response)
    ensures r.Status() == 400 <==> !HasFiles(files)
    ensures r.Status() == 400 ==> r == ErrorResponse(400, NoFilesMessage)
    ensures HasFiles(files) ==>
      var e := NewImageEntry(user, files.value, date, time);
      (r.Saved? <==> Validates(schema, e) && stored)
      && (r.Saved? ==> r == Saved(SavedMessage, e.frontImagePath, e.backImagePath, date, time))
      && (!r.Saved? ==> r == ErrorResponse(500, SaveFailedMessage))
  {
    if !HasFiles(files) then ErrorResponse(400, NoFilesMessage)
    else
      var e := NewImageEntry(user, files.value, date, time);
      if Validates(schema, e) && stored then Saved(SavedMessage, e.frontImagePath, e.backImagePath, date, time)
      else ErrorResponse(500, SaveFailedMessage)
  }

  /**
   * With the schema as written, a saved upload needs both images: a request carrying only a
   * front or only a back file fails validation and is answered 500.
   */
  lemma AsWrittenSavesOnlyPairs(user: Option<string>, files: UploadedFiles, date: string, time: string)
    requires HasFiles(Some(files)) && date != "" && time != ""
    ensures UploadOutcome(UserImageSchema, user, Some(files), date, time, true).Saved?
            <==> files.front.Some? && files.back.Some?
  {
  }

  /** The concrete case: a front image alone, stored without trouble, is answered 500. */
  lemma FrontOnlyUploadFailsAsWritten(user: string, front: string, date: string, time: string)
    requires date != "" && time != ""
    ensures UploadOutcome(UserImageSchema, Some(user), Some(UploadedFiles(Some(front), None)), date, time, true)
            == ErrorResponse(500, SaveFailedMessage)
  {
    assert !Present(None);
  }

  /**
   * With the intended schema, every upload with at least one image is saved when the database
   * accepts it, and the missing side is stored as null.
   */
  lemma IntendedSchemaSavesEitherSide(user: Option<string>, files: UploadedFiles, date: string, time: string)
    requires HasFiles(Some(files)) && date != "" && time != ""
    ensures var r := UploadOutcome(IntendedSchema, user, Some(files), date, time, true);
      && r.Saved?
      && (r.front.Some? <==> files.front.Some?) && (r.back.Some? <==> files.back.Some?)
  {
    var e := NewImageEntry(user, files, date, time);
    assert Present(e.frontImagePath) || Present(e.backImagePath);
  }

  /** What the error-handling middleware does with an error: answer it, or pass it on. */
  datatype ErrorStep = Respond(status: nat, error: string) | Forward(err: Error)

  /**
   * The error-handling middleware: multer's own errors and the two messages the callbacks
   * raise are answered 400 with their message; every other error goes to the next handler.
   */
  function HandleUploadError(e: Error): (r: ErrorStep)
    ensures r.Respond? <==>
      e.isMulterError || e.message == OnlyImagesMessage || e.message == UsernameRequiredMessage
    ensures r.Respond? ==> r.status == 400 && r.error == e.message
    ensures r.Forward? ==> r.err == e
  {
    if e.isMulterError || e.message == OnlyImagesMessage || e.message == UsernameRequiredMessage
    then Respond(400, e.message)
    else Forward(e)
  }

  /** Every error the intake callbacks raise is answered 400 with its own message. */
  lemma IntakeErrorsAnswered400(file: FileInfo, user: Option<string>)
    ensures FileFilter(file).Failure? ==>
      HandleUploadError(FileFilter(file).error) == Respond(400, OnlyImagesMessage)
    ensures Destination(user).Failure? ==>
      HandleUploadError(Destination(user).error) == Respond(400, UsernameRequiredMessage)
  {
  }

  /**
   * The `/daily_upload` handler. It runs only after every file was stored, and a file is
   * stored only under a non-empty username, so files come with a username.
   */
  method DailyUpload(registry: ModelRegistry, req: UploadRequest, files: Option<UploadedFiles>,
                     date: string, time: string, stored: bool) returns (resp: Response)
    requires registry.Valid() && req.Valid()
    requires HasFiles(files) ==> UserGiven(req.user)
    modifies registry, req
    ensures registry.Valid() && req.Valid()
    ensures resp == UploadOutcome(registry.schema, req.user, files, date, time, stored)
    ensures !HasFiles(files) ==> unchanged(registry) && unchanged(req)
    ensures HasFiles(files) ==>
      registry.models == Registered(old(registry.models), old(registry.created), registry.schema, req.user.value)
    ensures HasFiles(files) ==>
      registry.created == if req.user.value in old(registry.models) then old(registry.created)
                          else old(registry.created) + 1
    ensures resp.Saved? ==> req.CurrentStash() == Stash(None, None)
    ensures !resp.Saved? ==> unchanged(req)
  {
    if !HasFiles(files) {
      return ErrorResponse(400, NoFilesMessage);
    }
    var username := req.user.value;
    var userImage := registry.GetUserImageModel(username);
    var entry := NewImageEntry(req.user, files.value, date, time);
    if !(Validates(userImage.schema, entry) && stored) {
      return ErrorResponse(500, SaveFailedMessage);
    }
    req.ClearStash();
    resp := Saved(SavedMessage, entry.frontImagePath, entry.backImagePath, entry.uploadDate, entry.uploadTime);
  }
}
