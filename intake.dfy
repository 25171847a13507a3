/** The multipart callbacks that decide whether and where an uploaded file is written. */
module Intake {
  import opened Wrappers
  import opened Strings
  import opened DateStamp
  import opened FileNaming

  /** An error passed to a callback: its message, and whether it is a `multer.MulterError`. */
  datatype Error = Error(message: string, isMulterError: bool)

  const OnlyImagesMessage: string := "Only image files (jpeg, jpg, png, gif) are allowed!"
  const UsernameRequiredMessage: string := "Username is required"

  /** The alternatives of the allow-list pattern `/jpeg|jpg|png|gif/`. */
  const AllowedTypes: seq<string> := ["jpeg", "jpg", "png", "gif"]

  /** Some allowed type name occurs somewhere in `s`. */
  ghost predicate MentionsAllowedType(s: string) {
    exists w, i: nat :: w in AllowedTypes && OccursAt(s, w, i)
  }

  /**
   * `/jpeg|jpg|png|gif/.test(s)`: the pattern is unanchored, so it holds exactly when one of
   * the alternatives occurs somewhere in `s`.
   */
  function MatchesAllowedType(s: string): (b: bool)
    ensures b <==> MentionsAllowedType(s)
  {
    AnyAlternativeIff(s);
    Contains(s, "jpeg") || Contains(s, "jpg") || Contains(s, "png") || Contains(s, "gif")
  }

  /** One substring test per alternative decides whether an allowed type is mentioned. */
  lemma AnyAlternativeIff(s: string)
    ensures (Contains(s, "jpeg") || Contains(s, "jpg") || Contains(s, "png") || Contains(s, "gif"))
            <==> MentionsAllowedType(s)
  {
    ContainsIff(s, "jpeg");
    ContainsIff(s, "jpg");
    ContainsIff(s, "png");
    ContainsIff(s, "gif");
    if MentionsAllowedType(s) {
      var w, i: nat :| w in AllowedTypes && OccursAt(s, w, i);
      assert w == "jpeg" || w == "jpg" || w == "png" || w == "gif";
    }
  }

  /** The `fileFilter` callback: accepts, or fails with the fixed image-only error. */
  function FileFilter(file: FileInfo): (r: Result<bool, Error>)
    ensures r.Success? ==> r.value
    ensures r.Failure? ==> r.error == Error(OnlyImagesMessage, false)
  {
    var extOk := MatchesAllowedType(ToLower(ExtName(file.originalname)));
    var mimeOk := MatchesAllowedType(file.mimetype);
    if mimeOk && extOk then Success(true) else Failure(Error(OnlyImagesMessage, false))
  }

  /**
   * A file is accepted exactly when its lower-cased extension and its MIME type, taken as it
   * is, both mention an allowed type.
   */
  lemma FileFilterAcceptsIff(file: FileInfo)
    ensures FileFilter(file).Success? <==>
      MentionsAllowedType(ToLower(ExtName(file.originalname))) && MentionsAllowedType(file.mimetype)
  {
  }

  /** The extension is lower-cased before the test: the case of the original name does not matter. */
  lemma FilterIgnoresNameCase(file: FileInfo)
    ensures FileFilter(file.(originalname := ToLower(file.originalname))) == FileFilter(file)
  {
    ExtNameToLower(file.originalname);
    ToLowerIdempotent(ExtName(file.originalname));
  }

  /** The MIME type is not lower-cased: one with no lower-case letter (say IMAGE/JPEG) is refused. */
  lemma FilterRefusesUpperCaseMimeType(file: FileInfo)
    requires forall i :: 0 <= i < |file.mimetype| ==> !('a' <= file.mimetype[i] <= 'z')
    ensures FileFilter(file) == Failure(Error(OnlyImagesMessage, false))
  {
    var m := file.mimetype;
    forall w | w in AllowedTypes ensures !Contains(m, w) {
      ContainsIff(m, w);
      forall i: nat ensures !OccursAt(m, w, i) {
        assert 'a' <= w[0] <= 'z';
      }
    }
    assert !MatchesAllowedType(m);
  }

  /** A username is present in the sense of `!username` being false: given and not empty. */
  predicate UserGiven(user: Option<string>) {
    user.Some? && user.value != ""
  }

  const UploadsRoot: string := "./uploads/"

  /**
   * The `destination` callback's choice: fails with "Username is required" when the form's
   * `user` field is missing or empty, and otherwise names the user's own upload directory.
   */
  function Destination(user: Option<string>): (r: Result<string, Error>)
    ensures r.Failure? <==> !UserGiven(user)
    ensures r.Failure? ==> r.error == Error(UsernameRequiredMessage, false)
    ensures r.Success? ==> UploadsRoot <= r.value && r.value[|UploadsRoot|..] == user.value
  {
    if !UserGiven(user) then Failure(Error(UsernameRequiredMessage, false))
    else Success(UploadsRoot + user.value)
  }

  /**
   * Different users are given different directory paths, compared as strings. Path
   * normalisation is not modelled, so two such paths may still name one directory on disk.
   */
  lemma DistinctUsersDistinctDirectories(u1: string, u2: string)
    requires u1 != "" && u2 != "" && u1 != u2
    ensures Destination(Some(u1)).value != Destination(Some(u2)).value
  {
    var d1, d2 := Destination(Some(u1)).value, Destination(Some(u2)).value;
    assert d1[|UploadsRoot|..] == u1 && d2[|UploadsRoot|..] == u2;
  }

  /** The directories on disk that the `destination` callback has ensured. */
  class UploadDirectories {
    var ensured: set<string>

    constructor (existing: set<string>)
      ensures ensured == existing
    {
      ensured := existing;
    }

    /** The `destination` callback: the directory is created only once a username is known. */
    method EnsureDestination(user: Option<string>) returns (r: Result<string, Error>)
      modifies this
      ensures r == Destination(user)
      ensures r.Failure? ==> unchanged(this)
      ensures r.Success? ==> ensured == old(ensured) + {r.value}
    {
      r := Destination(user);
      if r.Success? && r.value !in ensured {
        ensured := ensured + {r.value};
      }
    }
  }

  /**
   * One file part through the storage engine: the filter, then the destination, then the
   * name. A refused file or a missing username leaves the disk and the request as they were.
   */
  method ReceiveFile(dirs: UploadDirectories, req: UploadRequest, file: FileInfo,
                     now: DateParts, random: real) returns (r: Result<(string, string), Error>)
    requires req.Valid() && 0.0 <= random < 1.0
    modifies dirs, req
    ensures req.Valid()
    ensures FileFilter(file).Failure? ==>
      r == Failure(Error(OnlyImagesMessage, false)) && unchanged(dirs) && unchanged(req)
    ensures FileFilter(file).Success? && !UserGiven(req.user) ==>
      r == Failure(Error(UsernameRequiredMessage, false)) && unchanged(dirs) && unchanged(req)
    ensures FileFilter(file).Success? && UserGiven(req.user) ==>
      && r.Success?
      && r.value.0 == UploadsRoot + req.user.value
      && dirs.ensured == old(dirs.ensured) + {r.value.0}
      && req.CurrentStash() == Stamp(old(req.CurrentStash()), now, random)
      && r.value.1 == NameFor(req.CurrentStash(), file)
  {
    var accepted := FileFilter(file);
    if accepted.Failure? {
      return Failure(accepted.error);
    }
    var dir := dirs.EnsureDestination(req.user);
    if dir.Failure? {
      return Failure(dir.error);
    }
    var name := req.Filename(file, now, random);
    r := Success((dir.value, name));
  }
}
