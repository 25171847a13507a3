# Daily image upload service: a verified model of its custom logic

The service takes a multipart POST to `/daily_upload` with a `user` text field and up to two
image files, `front` and `back`. It stores the files under `./uploads/<user>/` and records
their public paths, with the upload date and time, in a MongoDB collection named after the
user. Almost everything is library glue (express, multer, mongoose). This project models the
rules that `index.js` states for itself:

- **File names** (`FileNaming`, `DateStamp`, `Strings`). The date prefix is
  `YYYY_MM_DD-HH_MM`: every field after the year is padded to two digits with `0`, and the month
  is the zero-based `getMonth()` plus one. The token is `Math.floor(Math.random() * 1e9)`. The
  name is `<date>-<field>-<token><extname>`. The date and the token are stored on the request by
  the first `filename` callback and reused by the second. The clock readings and the random
  draw are inputs. Parsers for the date and for the whole name are proved to be exact inverses
  of the formatters, so the name determines its date, field, token and extension. As a result,
  the two files of one request can be recognised as a pair.
- **Intake** (`Intake`). The `fileFilter` is an unanchored test of `/jpeg|jpg|png|gif/` against
  the lower-cased extension and, unchanged, the MIME type. The `destination` callback refuses a
  missing or empty username before it chooses or creates any directory. One method runs one
  file part through filter, destination and name, in the order multer calls them.
- **Model registry** (`Registry`). `getUserImageModel` is a get-or-create over the connection's
  model table. The table is a map from username to a model handle. The handle's serial number
  stands for object identity.
- **Handler** (`Handler`). The handler answers 400 when neither image arrived. It builds the
  stored paths `/uploads/<user>/<file>`, or null for an absent side. It validates the entry
  against the schema and answers 200 or 500. The error middleware answers multer errors and the
  two callback messages with 400 and forwards every other error.

State that the source updates in place is modelled as classes:
- the request object and its two stash fields: `FileNaming.UploadRequest`;
- the model table: `Registry.ModelRegistry`;
- the set of ensured directories: `Intake.UploadDirectories`.

Everything else is functions and lemmas.

The mongoose schema is a value (`Registry.Schema`). A `ModelRegistry` is built with the schema
it gives the models it creates. `UserImageSchema` is the schema as written. `IntendedSchema` is
the corrected one (see Findings). Everything downstream reads the schema from the model
handle, so the handler is proved for both.

## Model

| member | source | states |
|---|---|---|
| Strings.DecimalString | index.js:51-64 | `toString` of a non-negative integer below 1e21, which covers every value the callback formats, is a non-empty digit string. It has a leading zero only for 0, and it is one character long exactly below 10 |
| Strings.DecimalRoundTrip | index.js:51-64 | reading the decimal string back gives the number |
| Strings.CanonicalDecimalRoundTrip | index.js:51-64 | every digit string without a leading zero is the `toString` of its value, so `toString` is a bijection onto those strings |
| Strings.PadStart | index.js:51-64 | `padStart(n, "0")` leaves the string as its suffix, has length `max(n, |s|)` and fills only with the fill character |
| Strings.TwoDigitField | index.js:51-64 | for values below 100 (every month+1, day, hour and minute), the padded field is exactly two digits and reads back as the value |
| Strings.TwoDigitFieldOfParse | index.js:51-64 | every two-digit string is the padded field of its value |
| Strings.ContainsIff | index.js:84-88 | the unanchored literal test holds exactly when the literal occurs at some index |
| Strings.ToLower | index.js:86 | lower-casing keeps the length and maps each character with the A–Z rule |
| Strings.LastIndexOf | index.js:73-75 | finds the last occurrence of a character, or reports that there is none |
| Strings.LastIndexOfToLower | index.js:85-87 | lower-casing does not move '.' or '/' |
| DateStamp.FormatDate | index.js:51-64 | the formatted date starts with the year's digits followed by '_', and for an in-range date exactly 12 characters (`_MM_DD-HH_MM`) follow the year |
| DateStamp.FormatDateRoundTrip | index.js:51-64 | parsing the formatted date of an in-range date gives back that date |
| DateStamp.ParsedDateFormatsBack | index.js:51-64 | every string the date parser accepts is exactly the formatted form of its result |
| FileNaming.Basename | index.js:73-75 | the base name is the whole part after the last '/': a suffix of the path that holds no '/' and is preceded by '/' unless it is the whole path |
| FileNaming.ExtName | index.js:73-75 | the extension is a suffix of the name. It is non-empty exactly when the base name has a '.' after its first character, and then it starts with its only '.' and holds no '/' |
| FileNaming.ExtNameOfPlainName | index.js:73-75 | for a plain `stem.ext` with a single dot in the extension, the extension is `.ext` |
| FileNaming.ExtNameToLower | index.js:85-87 | the extension of the lower-cased name is the lower-cased extension |
| FileNaming.TokenFromRandom | index.js:66 | for a draw in [0, 1), the token is the floor of draw × 1e9 and lies in [0, 10^9) |
| FileNaming.FileName | index.js:71-76 | the name starts with the date and a '-', ends with the extension, and is as long as its parts plus the two '-' separators |
| FileNaming.FileNameRoundTrip | index.js:71-76 | `<date>-<field>-<token><ext>` parses back to its date, field (`front`/`back`), token and extension: nothing else is added and nothing is ambiguous |
| FileNaming.ParsedFileNameFormatsBack | index.js:71-76 | every string the name parser accepts is exactly the name built from the parts it returns |
| FileNaming.FileNameInjective | index.js:71-76 | two names are equal only when their date, field, token and extension all are |
| FileNaming.Stamp | index.js:49-68 | the callback keeps a stash whose token is truthy. Otherwise it stores a fresh token and the formatted current date. The stash always ends with both fields set |
| FileNaming.StampKeptOnceSet | index.js:49-68 | once a truthy token is stored, later callbacks of the request leave the stash as it is |
| FileNaming.ZeroTokenIsRedrawn | index.js:49 | a stored token of 0 counts as unset: the next callback draws a new token and a new date |
| FileNaming.NameFor | index.js:71-76 | the name handed to multer starts with the stashed date and ends with the extension of the original name |
| FileNaming.PairedNamesShareStamp | index.js:48-77 | in whichever order the two parts of a request arrive, when the first draw is non-zero both names parse to the same date and the same token, each with its own field and extension |
| FileNaming.UploadRequest.Filename | index.js:48-77 | the `filename` callback updates the request's fields to `Stamp` of their old values and returns the name built from them |
| FileNaming.UploadRequest.ClearStash | index.js:140-142 | both request fields are reset to null |
| Intake.MatchesAllowedType | index.js:84-88 | `/jpeg|jpg|png|gif/.test(s)` holds exactly when one of the four names occurs in `s` |
| Intake.FileFilter | index.js:83-94 | the filter either accepts with `true` or fails with the fixed image-only error |
| Intake.FileFilterAcceptsIff | index.js:83-94 | a file is accepted exactly when both the lower-cased extension and the MIME type, taken as it is, mention an allowed type |
| Intake.FilterIgnoresNameCase | index.js:85-87 | the case of the original name never changes the verdict |
| Intake.FilterRefusesUpperCaseMimeType | index.js:88 | a MIME type with no lower-case letter (IMAGE/JPEG) is always refused |
| Intake.Destination | index.js:36-42 | a missing or empty username fails with "Username is required". Otherwise the directory is `./uploads/` followed by the username, which can be read back from it |
| Intake.DistinctUsersDistinctDirectories | index.js:42 | different users get different directory paths, compared as strings |
| Intake.UploadDirectories.EnsureDestination | index.js:36-47 | on failure the set of directories is unchanged. On success the user's directory is in it, and nothing else is added |
| Intake.ReceiveFile | index.js:36-94 | a refused file or a missing username leaves the directories and the request unchanged, each with its own error. Otherwise the user's directory is ensured, the stash advances by `Stamp`, and the name is built from it |
| Registry.Registered | index.js:19-32 | get-or-create adds exactly the requested name, keeps every existing entry, and gives a new name a fresh model whose name and collection are the username |
| Registry.RegisteredKeepsValid | index.js:19-31 | the registry stays well formed: each model sits under its own name, uses its own collection and has a distinct serial |
| Registry.RegisteredIdempotent | index.js:20-22 | asking again for the same name changes nothing and returns the same model |
| Registry.DistinctUsersDistinctModels | index.js:31 | two users never share a collection or a model |
| Registry.ModelRegistry.GetUserImageModel | index.js:19-32 | returns the registered model when there is one, leaving the table and the counter unchanged. Otherwise it registers exactly one new model under the name |
| Handler.HasFiles | index.js:108 | files are present when `req.files` exists and holds a front or a back part; its negation is the handler's 400 condition, as `UploadOutcome` states |
| Handler.SidePath | index.js:127-132 | a path is stored exactly for the sides whose file is present, and it is `/uploads/<user>/<filename>` |
| Handler.StoredPathMirrorsDisk | index.js:127-132 | the stored path is the on-disk path `./uploads/<user>/<filename>` without its leading '.' |
| Handler.NewImageEntry | index.js:125-135 | a side gets a path exactly when its file arrived, that path always passes a `required` check, and the date and time are stored as given |
| Handler.Validates | index.js:24-29 | under the schema as written an entry validates exactly when both paths are present and non-empty and the date and time are non-empty; under the intended schema one path suffices |
| Handler.UploadOutcome | index.js:108-158 | 400 exactly when neither file is present. Otherwise 200 with the fixed success message and the entry's paths, date and time exactly when the entry validates and the write succeeds, and 500 with the fixed message in every other case |
| Handler.AsWrittenSavesOnlyPairs | index.js:24-29 | with the schema as written, an upload is saved only if it has both a front and a back image |
| Handler.FrontOnlyUploadFailsAsWritten | index.js:24-29 | with the schema as written, a front image alone is answered 500 |
| Handler.IntendedSchemaSavesEitherSide | index.js:125-135 | with the intended schema, any upload that has an image is saved, and an absent side is stored as null |
| Handler.HandleUploadError | index.js:163-172 | a multer error or either of the two callback messages is answered 400 with its message. Every other error is forwarded unchanged |
| Handler.IntakeErrorsAnswered400 | index.js:163-172 | every error the filter or the destination raises is answered 400 |
| Handler.DailyUpload | index.js:107-159 | the answer is `UploadOutcome`. Without files, the registry and the request are untouched. With files, the user's model is got or created, and the model counter advances exactly when the model is new. The stash is cleared only after a successful save |

## Findings

| source | as written | input that shows it | evidently intended | confidence | as-written member | corrected member |
|---|---|---|---|---|---|---|
| index.js:24-29 | the schema marks both `frontImagePath` and `backImagePath` `required: true`, while the handler (index.js:127-132) stores null for an absent side and treats either image as optional (index.js:108) | POST with `user=alice` and only a `front` image: validation rejects the null back path and the handler answers 500 "Failed to save entry to database" | a one-sided upload is saved with the absent side null and answered 200 | high for mongoose's `required` check on null; not executed | Handler.FrontOnlyUploadFailsAsWritten | Handler.IntendedSchemaSavesEitherSide |

## Left out

- Intake.DistinctUsersDistinctDirectories: paths are compared as strings. The path normalisation that `existsSync`, `mkdirSync` and multer apply is not modelled. So a username with '/', '.' or '..' segments (`a/`, `./a`, `b/../a`) can name another user's directory, and `../x` names one outside `./uploads`.
- Express routing, `app.listen`, `express.json()` and the multer pipeline are not modelled. `ReceiveFile` keeps the order in which multer calls the three callbacks, but the abort of a request and the removal of files already written on an error are not modelled.
- The MongoDB connection and the write in `save()` are foreign calls over the network. The model keeps the schema's `required` validation and takes the write's success as the input `stored`. The error's `details` text in the 500 body is not modelled, and neither are exceptions thrown by `mongoose.model`.
- The clock is not read: the filename callback takes `DateParts`, and the handler takes the date and time strings as inputs. The handler's date comes from `toISOString` (UTC) while its time comes from `toTimeString` (local time). That mismatch lies in library formatting and is not modelled.
- DateStamp.DateParts: the year is a natural number, so years before year 0, which `getFullYear` can return, are not modelled.
- FileNaming.TokenFromRandom: uses exact real arithmetic. The rounding of the floating-point product `Math.random() * 1e9` is not modelled.
- FileNaming.ExtName: follows `path.extname` for ordinary names only. It differs from Node for a base name of `..` and for paths that end in '/'.
- Strings.ToLower: lower-cases A–Z only. Unicode case mappings are not modelled.
- Disk effects: `mkdirSync` also creates missing parent directories, and the files themselves are written. Neither is modelled. The directory set records only the user's directory.
- A `user` field sent more than once, or not as text, is not modelled. The username is an optional string.
- Inherited keys of the model table (`constructor`, `toString`, …) are not modelled: they would look registered in `mongoose.connection.models`.
- FileNaming.Stamp: requires the two stash fields to be set and cleared together, as every path of the source keeps them.
- Handler.DailyUpload: requires a username whenever files are present. The destination callback guarantees this, since it refuses every file when the username is missing.
- `public/script.js` is browser code and is not part of this model. No caption or download endpoint exists in `index.js`.
